/** `any_completion_handler` as an owner: which implementation objects exist, who
  holds them, and what happens to each of them in which order.

  An implementation object is named by its position in the order of creation,
  not by its address, so that reused memory is not mistaken for the same
  object. A handler type stands for the template instance: it names both a
  function table and the type an implementation object was created with. */
module HandlerOwnership {
  import opened Options

  type HandlerType = nat
  type ImplId = nat
  type WrapperId = nat

  /** The two pointers of an `any_completion_handler`. */
  datatype Wrapper = Wrapper(fnTable: Option<HandlerType>, impl: Option<ImplId>)

  const EMPTY := Wrapper(None, None)

  /** What happens to an implementation object. Destruction and the upcall go
    through a function table, and record which. */
  datatype Event =
    | Created(id: ImplId, ty: HandlerType)
    | Destroyed(id: ImplId, via: HandlerType)
    | Invoked(id: ImplId, via: HandlerType)

  /** The implementation objects alive, with the type of each; everything that
    has happened; and the next name. */
  datatype Store = Store(impls: map<ImplId, HandlerType>, log: seq<Event>, next: ImplId)

  /** A wrapper that holds something holds a live object, through the function
    table of that object's type. */
  predicate Holds(s: Store, w: Wrapper) {
    w.impl.Some? ==> w.impl.value in s.impls && w.fnTable == Some(s.impls[w.impl.value])
  }

  /** `any_completion_handler_impl<Handler>::create`. */
  function Create(s: Store, ty: HandlerType): Store {
    Store(s.impls[s.next := ty], s.log + [Created(s.next, ty)], s.next + 1)
  }

  /** `fn_table_->destroy(impl_)` if there is a target. */
  function Drop(s: Store, w: Wrapper): Store
    requires Holds(s, w)
  {
    if w.impl.None? then s
    else s.(impls := s.impls - {w.impl.value},
            log := s.log + [Destroyed(w.impl.value, w.fnTable.value)])
  }

  /** The upcall. */
  function Upcall(s: Store, w: Wrapper): Store
    requires w.impl.Some? && w.fnTable.Some?
  {
    s.(log := s.log + [Invoked(w.impl.value, w.fnTable.value)])
  }

  // ------------------------------------------------------------------- The world

  datatype World = World(wrappers: map<WrapperId, Wrapper>, store: Store)

  const NEW_STORE := Store(map[], [], 0)

  /** No wrapper and no object. */
  function NewWorld(): (x: World)
    ensures Inv(x)
  {
    World(map[], NEW_STORE)
  }

  datatype Op =
    | Construct(w: WrapperId)
    | ConstructFrom(w: WrapperId, ty: HandlerType)
    | MoveConstruct(w: WrapperId, from: WrapperId)
    | MoveAssign(w: WrapperId, from: WrapperId)
    | AssignNull(w: WrapperId)
    | Swap(w: WrapperId, with: WrapperId)
    | Call(w: WrapperId)
    | Destroy(w: WrapperId)

  /** Constructors need a new wrapper, all else an existing one. */
  predicate Allowed(x: World, op: Op) {
    match op
    case Construct(w) => w !in x.wrappers
    case ConstructFrom(w, _) => w !in x.wrappers
    case MoveConstruct(w, from) => w !in x.wrappers && from in x.wrappers
    case MoveAssign(w, from) => w in x.wrappers && from in x.wrappers
    case Swap(w, with) => w in x.wrappers && with in x.wrappers
    case _ => op.w in x.wrappers
  }

  /** The world at the moment of the upcall: the wrapper is empty and the
    implementation object is gone. The function table pointer is left behind. */
  function AtUpcall(x: World, w: WrapperId): World
    requires w in x.wrappers && Holds(x.store, x.wrappers[w])
  {
    World(x.wrappers[w := x.wrappers[w].(impl := None)], Drop(x.store, x.wrappers[w]))
  }

  datatype Outcome = Outcome(x: World, threw: bool)

  ghost function Step(x: World, op: Op): Outcome
    requires Allowed(x, op) && AllHold(x)
  {
    match op
    case Construct(w) => Outcome(x.(wrappers := x.wrappers[w := EMPTY]), false)
    case ConstructFrom(w, ty) =>
      Outcome(World(x.wrappers[w := Wrapper(Some(ty), Some(x.store.next))], Create(x.store, ty)), false)
    case MoveConstruct(w, from) =>
      Outcome(x.(wrappers := x.wrappers[w := x.wrappers[from]][from := EMPTY]), false)
    case MoveAssign(w, from) =>
      if w == from then Outcome(x, false)
      else Outcome(World(x.wrappers[w := x.wrappers[from]][from := EMPTY],
                         Drop(x.store, x.wrappers[w])), false)
    case AssignNull(w) =>
      Outcome(World(x.wrappers[w := EMPTY], Drop(x.store, x.wrappers[w])), false)
    case Swap(w, with) =>
      Outcome(x.(wrappers := x.wrappers[w := x.wrappers[with]][with := x.wrappers[w]]), false)
    case Call(w) =>
      if x.wrappers[w].impl.None? then Outcome(x, true)
      else
        var at := AtUpcall(x, w);
        Outcome(at.(store := Upcall(at.store, x.wrappers[w])), false)
    case Destroy(w) =>
      Outcome(World(x.wrappers - {w}, Drop(x.store, x.wrappers[w])), false)
  }

  // ---------------------------------------------------------------- The life cycle

  /** The events that concern one object, in order. */
  function Life(log: seq<Event>, id: ImplId): seq<Event>
    decreases |log|
  {
    if log == [] then []
    else
      var last := log[|log| - 1];
      Life(log[..|log| - 1], id) + (if last.id == id then [last] else [])
  }

  lemma LifeAppend(log: seq<Event>, e: Event)
    ensures forall id :: Life(log + [e], id) == Life(log, id) + (if e.id == id then [e] else [])
  {
    assert (log + [e])[..|log|] == log;
  }

  /** Destroyed exactly once, through its own type; and then, perhaps, invoked
    once, through its own type. */
  predicate Finished(life: seq<Event>, id: ImplId, ty: HandlerType) {
    || life == [Created(id, ty), Destroyed(id, ty)]
    || life == [Created(id, ty), Destroyed(id, ty), Invoked(id, ty)]
  }

  ghost predicate HasFinished(log: seq<Event>, id: ImplId) {
    exists ty :: Finished(Life(log, id), id, ty)
  }

  /** Every object is not yet created, or alive, or finished. */
  ghost predicate LivesOk(s: Store) {
    && (forall id :: id in s.impls ==> id < s.next && Life(s.log, id) == [Created(id, s.impls[id])])
    && (forall id: nat :: id < s.next && id !in s.impls ==> HasFinished(s.log, id))
    && (forall id: nat :: id >= s.next ==> Life(s.log, id) == [])
  }

  /** An upcall directly follows the destruction of its object. */
  ghost predicate UpcallsLast(log: seq<Event>) {
    forall i :: 0 <= i < |log| && log[i].Invoked? ==>
      i > 0 && log[i - 1] == Destroyed(log[i].id, log[i].via)
  }

  ghost predicate AllHold(x: World) {
    forall w :: w in x.wrappers ==> Holds(x.store, x.wrappers[w])
  }

  ghost predicate OneHolder(x: World) {
    forall v, w :: v in x.wrappers && w in x.wrappers && v != w && x.wrappers[v].impl.Some? ==>
      x.wrappers[v].impl != x.wrappers[w].impl
  }

  ghost predicate Held(x: World, id: ImplId) {
    exists w :: w in x.wrappers && x.wrappers[w].impl == Some(id)
  }

  /** Live objects and non-empty wrappers are in bijection, and every object is at
    a proper point of its life. */
  ghost predicate Inv(x: World) {
    && AllHold(x)
    && OneHolder(x)
    && (forall id :: id in x.store.impls ==> Held(x, id))
    && LivesOk(x.store)
    && UpcallsLast(x.store.log)
  }

  lemma CreateKeepsLives(s: Store, ty: HandlerType)
    requires LivesOk(s) && UpcallsLast(s.log)
    ensures LivesOk(Create(s, ty)) && UpcallsLast(Create(s, ty).log)
  {
    var t := Create(s, ty);
    LifeAppend(s.log, Created(s.next, ty));
    forall id: nat | id < t.next && id !in t.impls
      ensures HasFinished(t.log, id)
    {
      assert HasFinished(s.log, id);
      var u :| Finished(Life(s.log, id), id, u);
      assert Finished(Life(t.log, id), id, u);
    }
  }

  lemma DropKeepsLives(s: Store, w: Wrapper)
    requires LivesOk(s) && UpcallsLast(s.log) && Holds(s, w)
    ensures LivesOk(Drop(s, w)) && UpcallsLast(Drop(s, w).log)
    ensures w.impl.Some? ==>
              Life(Drop(s, w).log, w.impl.value)
              == [Created(w.impl.value, w.fnTable.value), Destroyed(w.impl.value, w.fnTable.value)]
  {
    if w.impl.Some? {
      var t, own, ty := Drop(s, w), w.impl.value, w.fnTable.value;
      LifeAppend(s.log, Destroyed(own, ty));
      assert Life(t.log, own) == [Created(own, ty), Destroyed(own, ty)];
      forall id: nat | id < t.next && id !in t.impls
        ensures HasFinished(t.log, id)
      {
        if id == own {
          assert Finished(Life(t.log, id), id, ty);
        } else {
          assert HasFinished(s.log, id);
          var u :| Finished(Life(s.log, id), id, u);
          assert Finished(Life(t.log, id), id, u);
        }
      }
    }
  }

  lemma UpcallKeepsLives(s: Store, w: Wrapper)
    requires LivesOk(s) && UpcallsLast(s.log) && Holds(s, w) && w.impl.Some?
    ensures LivesOk(Upcall(Drop(s, w), w)) && UpcallsLast(Upcall(Drop(s, w), w).log)
    ensures var own, ty := w.impl.value, w.fnTable.value;
            Life(Upcall(Drop(s, w), w).log, own) == [Created(own, ty), Destroyed(own, ty), Invoked(own, ty)]
  {
    var d, own, ty := Drop(s, w), w.impl.value, w.fnTable.value;
    var t := Upcall(d, w);
    DropKeepsLives(s, w);
    LifeAppend(d.log, Invoked(own, ty));
    assert Life(t.log, own) == [Created(own, ty), Destroyed(own, ty), Invoked(own, ty)];
    forall id: nat | id < t.next && id !in t.impls
      ensures HasFinished(t.log, id)
    {
      if id == own {
        assert Finished(Life(t.log, id), id, ty);
      } else {
        assert HasFinished(d.log, id);
        var u :| Finished(Life(d.log, id), id, u);
        assert Finished(Life(t.log, id), id, u);
      }
    }
  }

  /** Where the object held by `v` is after the operation, if it is still alive. */
  function NewHolder(op: Op, v: WrapperId): WrapperId {
    match op
    case MoveConstruct(w, from) => if v == from then w else v
    case MoveAssign(w, from) => if v == from then w else v
    case Swap(w, with) => if v == w then with else if v == with then w else v
    case _ => v
  }

  lemma StepKeepsHolds(x: World, op: Op)
    requires Inv(x) && Allowed(x, op)
    ensures AllHold(Step(x, op).x)
  {
    var y := Step(x, op).x;
    forall v | v in y.wrappers
      ensures Holds(y.store, y.wrappers[v])
    {
      match op
      case Construct(w) => assert v != w ==> Holds(x.store, x.wrappers[v]);
      case ConstructFrom(w, _) => assert v != w ==> Holds(x.store, x.wrappers[v]);
      case MoveConstruct(w, from) => assert Holds(x.store, x.wrappers[from]);
      case MoveAssign(w, from) => assert Holds(x.store, x.wrappers[from]);
      case Swap(w, with) => assert Holds(x.store, x.wrappers[w]) && Holds(x.store, x.wrappers[with]);
      case _ => assert Holds(x.store, x.wrappers[v]);
    }
  }

  /** Where what `v` holds after the operation was held before. */
  function OldHolder(op: Op, v: WrapperId): WrapperId {
    match op
    case MoveConstruct(w, from) => if v == w then from else v
    case MoveAssign(w, from) => if v == w then from else v
    case Swap(w, with) => if v == w then with else if v == with then w else v
    case _ => v
  }

  lemma HeldBefore(x: World, op: Op, v: WrapperId)
    requires Inv(x) && Allowed(x, op) && v in Step(x, op).x.wrappers
    ensures var held := Step(x, op).x.wrappers[v].impl;
            || held.None?
            || (op.ConstructFrom? && v == op.w && held == Some(x.store.next))
            || (OldHolder(op, v) in x.wrappers && x.wrappers[OldHolder(op, v)].impl == held
                && (op.MoveAssign? && op.w != op.from ==> v != op.from)
                && (op.MoveConstruct? ==> v != op.from))
  {
  }

  lemma StepKeepsOneHolder(x: World, op: Op)
    requires Inv(x) && Allowed(x, op)
    ensures OneHolder(Step(x, op).x)
  {
    var y := Step(x, op).x;
    forall v, w | v in y.wrappers && w in y.wrappers && v != w && y.wrappers[v].impl.Some?
      ensures y.wrappers[v].impl != y.wrappers[w].impl
    {
      HeldBefore(x, op, v);
      HeldBefore(x, op, w);
      var a, b := OldHolder(op, v), OldHolder(op, w);
      assert a in x.wrappers ==> Holds(x.store, x.wrappers[a]);
      assert b in x.wrappers ==> Holds(x.store, x.wrappers[b]);
    }
  }

  /** An object that survives the operation is still held. */
  lemma HolderAfter(x: World, op: Op, v: WrapperId)
    requires Inv(x) && Allowed(x, op) && v in x.wrappers && x.wrappers[v].impl.Some?
    requires x.wrappers[v].impl.value in Step(x, op).x.store.impls
    ensures var y := Step(x, op).x; var u := NewHolder(op, v);
            u in y.wrappers && y.wrappers[u].impl == x.wrappers[v].impl
  {
    match op
    case MoveAssign(w, from) => assert w != from ==> v != w;
    case Swap(_, _) =>
    case _ => assert v != op.w;
  }

  lemma StepKeepsHeld(x: World, op: Op, id: ImplId)
    requires Inv(x) && Allowed(x, op) && id in Step(x, op).x.store.impls
    ensures Held(Step(x, op).x, id)
  {
    var y := Step(x, op).x;
    if op.ConstructFrom? && id == x.store.next {
      assert y.wrappers[op.w].impl == Some(id);
    } else {
      assert Held(x, id);
      var v :| v in x.wrappers && x.wrappers[v].impl == Some(id);
      HolderAfter(x, op, v);
      assert y.wrappers[NewHolder(op, v)].impl == Some(id);
    }
  }

  lemma StepKeepsInv(x: World, op: Op)
    requires Inv(x) && Allowed(x, op)
    ensures Inv(Step(x, op).x)
  {
    StepKeepsHolds(x, op);
    StepKeepsOneHolder(x, op);
    forall id | id in Step(x, op).x.store.impls
      ensures Held(Step(x, op).x, id)
    {
      StepKeepsHeld(x, op, id);
    }
    StepKeepsLives(x, op);
  }

  lemma StepKeepsLives(x: World, op: Op)
    requires Inv(x) && Allowed(x, op)
    ensures LivesOk(Step(x, op).x.store) && UpcallsLast(Step(x, op).x.store.log)
  {
    match op
    case ConstructFrom(_, ty) => CreateKeepsLives(x.store, ty);
    case MoveAssign(w, _) => DropKeepsLives(x.store, x.wrappers[w]);
    case AssignNull(w) => DropKeepsLives(x.store, x.wrappers[w]);
    case Call(w) =>
      if x.wrappers[w].impl.Some? {
        UpcallKeepsLives(x.store, x.wrappers[w]);
      }
    case Destroy(w) => DropKeepsLives(x.store, x.wrappers[w]);
    case _ =>
  }

  /** At the moment of the upcall the wrapper is empty, its object is already
    destroyed, and the invariant holds: whatever the handler does with any
    wrapper, this one included, starts from a good world. */
  lemma UpcallIsSafe(x: World, w: WrapperId)
    requires Inv(x) && w in x.wrappers && x.wrappers[w].impl.Some?
    ensures var at := AtUpcall(x, w); var id := x.wrappers[w].impl.value;
            && Inv(at)
            && at.wrappers[w].impl.None?
            && id !in at.store.impls
            && Life(at.store.log, id) == [Created(id, x.store.impls[id]), Destroyed(id, x.store.impls[id])]
  {
    var at := AtUpcall(x, w);
    DropKeepsLives(x.store, x.wrappers[w]);
    forall id | id in at.store.impls
      ensures Held(at, id)
    {
      assert Held(x, id);
      var v :| v in x.wrappers && x.wrappers[v].impl == Some(id);
      assert at.wrappers[v].impl == Some(id);
    }
  }

  // --------------------------------------------------- What each operation does

  /** The wrappers that an operation names. */
  function Named(op: Op): set<WrapperId> {
    match op
    case MoveConstruct(w, from) => {w, from}
    case MoveAssign(w, from) => {w, from}
    case Swap(w, with) => {w, with}
    case _ => {op.w}
  }

  /** No other wrapper is touched, and only `Destroy` ends one. */
  lemma OthersUntouched(x: World, op: Op, v: WrapperId)
    requires Inv(x) && Allowed(x, op)
    ensures var y := Step(x, op).x;
            && (v !in Named(op) ==> (v in y.wrappers <==> v in x.wrappers)
                                    && (v in x.wrappers ==> y.wrappers[v] == x.wrappers[v]))
            && (v in Named(op) ==> (v in y.wrappers <==> !op.Destroy?))
  {
  }

  /** A construction from a handler makes one new object, held by the new wrapper. */
  lemma ConstructionCreates(x: World, w: WrapperId, ty: HandlerType)
    requires Inv(x) && w !in x.wrappers
    ensures var y := Step(x, ConstructFrom(w, ty)).x; var id := x.store.next;
            && id !in x.store.impls && w in y.wrappers
            && y.wrappers[w] == Wrapper(Some(ty), Some(id))
            && y.store.impls == x.store.impls[id := ty]
            && y.store.log == x.store.log + [Created(id, ty)]
            && Step(x, Construct(w)).x == x.(wrappers := x.wrappers[w := EMPTY])
  {
  }

  /** A move takes the target over and leaves the source empty; a move assignment
    also destroys the old target. A wrapper moved to itself keeps its target. */
  lemma MoveTransfers(x: World, op: Op)
    requires Inv(x) && Allowed(x, op) && (op.MoveConstruct? || op.MoveAssign?)
    ensures var y := Step(x, op).x;
            if op.w == op.from then y == x
            else
              && op.w in y.wrappers && op.from in y.wrappers
              && y.wrappers[op.w] == x.wrappers[op.from]
              && y.wrappers[op.from] == EMPTY
              && y.store.log == x.store.log
                   + (if op.MoveAssign? then Farewell(x, op.w) else [])
  {
  }

  /** The destruction of what a wrapper holds, through the type of the object. */
  function Farewell(x: World, w: WrapperId): seq<Event> {
    if w in x.wrappers && x.wrappers[w].impl.Some? && x.wrappers[w].impl.value in x.store.impls then
      [Destroyed(x.wrappers[w].impl.value, x.store.impls[x.wrappers[w].impl.value])]
    else []
  }

  /** A swap exchanges what two wrappers hold and does nothing else. */
  lemma SwapExchanges(x: World, w: WrapperId, with: WrapperId)
    requires Inv(x) && w in x.wrappers && with in x.wrappers
    ensures var y := Step(x, Swap(w, with)).x;
            && w in y.wrappers && with in y.wrappers
            && y.wrappers[w] == x.wrappers[with] && y.wrappers[with] == x.wrappers[w]
            && y.store == x.store
  {
  }

  /** Assigning null and destroying give the target up and destroy it. */
  lemma ReleaseDestroys(x: World, op: Op)
    requires Inv(x) && Allowed(x, op) && (op.AssignNull? || op.Destroy?)
    ensures var y := Step(x, op).x;
            && (op.AssignNull? ==> op.w in y.wrappers && y.wrappers[op.w] == EMPTY)
            && y.store.log == x.store.log + Farewell(x, op.w)
  {
  }

  /** A call to a wrapper with a target empties it, destroys the target, and
    invokes its handler, in this order; a call to an empty wrapper throws and does
    nothing. Nothing else throws. */
  lemma CallInvokes(x: World, w: WrapperId)
    requires Inv(x) && w in x.wrappers
    ensures var o := Step(x, Call(w));
            match x.wrappers[w].impl
            case None => o == Outcome(x, true)
            case Some(id) =>
              && !o.threw
              && w in o.x.wrappers && o.x.wrappers[w] == Wrapper(x.wrappers[w].fnTable, None)
              && id in x.store.impls
              && o.x.store.impls == x.store.impls - {id}
              && o.x.store.log == x.store.log + [Destroyed(id, x.store.impls[id]), Invoked(id, x.store.impls[id])]
  {
  }

  lemma OnlyCallThrows(x: World, op: Op)
    requires Inv(x) && Allowed(x, op)
    ensures Step(x, op).threw <==> op.Call? && x.wrappers[op.w].impl == None
  {
  }

  // ------------------------------------------------------------------------ Runs

  ghost predicate AllowedRun(x: World, ops: seq<Op>)
    requires Inv(x)
    decreases |ops|
  {
    ops == [] ||
    (Allowed(x, ops[0]) && (StepKeepsInv(x, ops[0]); AllowedRun(Step(x, ops[0]).x, ops[1..])))
  }

  ghost function Run(x: World, ops: seq<Op>): World
    requires Inv(x) && AllowedRun(x, ops)
    decreases |ops|
  {
    if ops == [] then x
    else
      StepKeepsInv(x, ops[0]);
      Run(Step(x, ops[0]).x, ops[1..])
  }

  lemma {:induction false} RunKeepsInv(x: World, ops: seq<Op>)
    requires Inv(x) && AllowedRun(x, ops)
    ensures Inv(Run(x, ops))
    decreases |ops|
  {
    if ops != [] {
      StepKeepsInv(x, ops[0]);
      RunKeepsInv(Step(x, ops[0]).x, ops[1..]);
    }
  }

  /** In every run from an empty world every object ever created is held by
    exactly one wrapper and not yet destroyed, or it was destroyed exactly once
    and invoked at most once after that, each through its own type. Once every
    wrapper left is empty, every object has been destroyed. */
  lemma ExactlyOnce(ops: seq<Op>, id: ImplId)
    requires AllowedRun(NewWorld(), ops)
    ensures var y := Run(NewWorld(), ops);
            id < y.store.next ==>
              if Held(y, id) then id in y.store.impls && Life(y.store.log, id) == [Created(id, y.store.impls[id])]
              else HasFinished(y.store.log, id)
    ensures var y := Run(NewWorld(), ops);
            (forall w :: w in y.wrappers ==> y.wrappers[w].impl.None?) && id < y.store.next ==>
              HasFinished(y.store.log, id)
  {
    RunKeepsInv(NewWorld(), ops);
  }

  predicate EndsInUpcall(life: seq<Event>) {
    life != [] && life[|life| - 1].Invoked?
  }

  lemma LastPartDecides(a: seq<Event>, b: seq<Event>)
    ensures EndsInUpcall(a + b) <==> EndsInUpcall(if b == [] then a else b)
  {
    assert b == [] ==> a + b == a;
  }

  /** The handler of the object has been invoked. */
  predicate WasInvoked(log: seq<Event>, id: ImplId) {
    EndsInUpcall(Life(log, id))
  }

  /** Some call of the run finds a wrapper that holds the object. */
  ghost predicate CalledIn(x: World, ops: seq<Op>, id: ImplId)
    requires Inv(x) && AllowedRun(x, ops)
    decreases |ops|
  {
    ops != []
    && ((ops[0].Call? && x.wrappers[ops[0].w].impl == Some(id))
        || (StepKeepsInv(x, ops[0]); CalledIn(Step(x, ops[0]).x, ops[1..], id)))
  }

  /** What an operation adds to the log. */
  function LogAdded(x: World, op: Op): seq<Event>
    requires Allowed(x, op)
  {
    match op
    case ConstructFrom(_, ty) => [Created(x.store.next, ty)]
    case MoveAssign(w, from) => if w == from then [] else Farewell(x, w)
    case AssignNull(w) => Farewell(x, w)
    case Destroy(w) => Farewell(x, w)
    case Call(w) =>
      Farewell(x, w) + (if Farewell(x, w) == [] then [] else [Invoked(Farewell(x, w)[0].id, Farewell(x, w)[0].via)])
    case _ => []
  }

  lemma StepLog(x: World, op: Op)
    requires Inv(x) && Allowed(x, op)
    ensures Step(x, op).x.store.log == x.store.log + LogAdded(x, op)
  {
    assert x.store.log + [] == x.store.log;
    match op
    case MoveAssign(_, _) => MoveTransfers(x, op);
    case AssignNull(_) => ReleaseDestroys(x, op);
    case Destroy(_) => ReleaseDestroys(x, op);
    case Call(w) => CallInvokes(x, w);
    case _ =>
  }

  lemma {:induction false} LifeConcat(a: seq<Event>, b: seq<Event>, id: ImplId)
    ensures Life(a + b, id) == Life(a, id) + Life(b, id)
    decreases |b|
  {
    if b == [] {
      assert a + b == a;
    } else {
      var init, last := b[..|b| - 1], b[|b| - 1];
      LifeConcat(a, init, id);
      assert a + b == (a + init) + [last] && (a + b)[..|a + b| - 1] == a + init;
    }
  }

  /** What one operation adds to the life of an object ends in an upcall if and only
    if the operation is a call to the wrapper that holds the object; and nothing
    is added after an upcall. */
  lemma LifeAdded(x: World, op: Op, id: ImplId)
    requires Inv(x) && Allowed(x, op)
    ensures var added := Life(LogAdded(x, op), id);
            && (EndsInUpcall(added) <==> op.Call? && x.wrappers[op.w].impl == Some(id))
            && (added != [] ==> !WasInvoked(x.store.log, id))
  {
    match op
    case ConstructFrom(_, ty) => LifeOfOne(Created(x.store.next, ty), id);
    case MoveAssign(w, _) => FarewellLife(x, w, id);
    case AssignNull(w) => FarewellLife(x, w, id);
    case Destroy(w) => FarewellLife(x, w, id);
    case Call(w) =>
      FarewellLife(x, w, id);
      var bye := Farewell(x, w);
      if bye != [] {
        var up := Invoked(bye[0].id, bye[0].via);
        LifeConcat(bye, [up], id);
        LifeOfOne(up, id);
        LastPartDecides(Life(bye, id), Life([up], id));
      }
    case _ =>
  }

  lemma LifeOfOne(e: Event, id: ImplId)
    ensures Life([e], id) == if e.id == id then [e] else []
  {
    assert [e][..0] == [];
  }

  lemma FarewellLife(x: World, w: WrapperId, id: ImplId)
    requires Inv(x) && w in x.wrappers
    ensures var life := Life(Farewell(x, w), id);
            if x.wrappers[w].impl == Some(id)
            then Farewell(x, w) != [] && life == Farewell(x, w) && !life[0].Invoked? && !WasInvoked(x.store.log, id)
            else life == []
  {
    assert Holds(x.store, x.wrappers[w]);
    if x.wrappers[w].impl.Some? {
      LifeOfOne(Farewell(x, w)[0], id);
    }
  }

  lemma StepInvokes(x: World, op: Op, id: ImplId)
    requires Inv(x) && Allowed(x, op)
    ensures WasInvoked(Step(x, op).x.store.log, id)
            <==> WasInvoked(x.store.log, id) || (op.Call? && x.wrappers[op.w].impl == Some(id))
  {
    StepLog(x, op);
    LifeConcat(x.store.log, LogAdded(x, op), id);
    LastPartDecides(Life(x.store.log, id), Life(LogAdded(x, op), id));
    LifeAdded(x, op, id);
  }

  /** Over runs: a handler has been invoked if and only if it was before, or some
    call of the run found a wrapper that holds it. */
  lemma {:induction false} InvokedIff(x: World, ops: seq<Op>, id: ImplId)
    requires Inv(x) && AllowedRun(x, ops)
    ensures WasInvoked(Run(x, ops).store.log, id) <==> WasInvoked(x.store.log, id) || CalledIn(x, ops, id)
    decreases |ops|
  {
    if ops != [] {
      StepKeepsInv(x, ops[0]);
      StepInvokes(x, ops[0], id);
      InvokedIff(Step(x, ops[0]).x, ops[1..], id);
    }
  }

  /** In every run from an empty world a handler is invoked if and only if some call
    found a wrapper that holds it. */
  lemma InvokedIffCalled(ops: seq<Op>, id: ImplId)
    requires AllowedRun(NewWorld(), ops)
    ensures WasInvoked(Run(NewWorld(), ops).store.log, id) <==> CalledIn(NewWorld(), ops, id)
  {
    InvokedIff(NewWorld(), ops, id);
  }

  /** In every run, every upcall directly follows the destruction of its object. */
  lemma UpcallAfterDestruction(ops: seq<Op>)
    requires AllowedRun(NewWorld(), ops)
    ensures UpcallsLast(Run(NewWorld(), ops).store.log)
  {
    RunKeepsInv(NewWorld(), ops);
  }

  /** A call empties the wrapper: calling it again throws and changes nothing. */
  lemma CallTwiceThrows(x: World, w: WrapperId)
    requires Inv(x) && w in x.wrappers && x.wrappers[w].impl.Some?
    ensures var o := Step(x, Call(w));
            && !o.threw
            && Inv(o.x) && w in o.x.wrappers
            && Step(o.x, Call(w)) == Outcome(o.x, true)
  {
    StepKeepsInv(x, Call(w));
  }
}
