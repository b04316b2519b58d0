/** `any_completion_handler` as it is written: two pointers that are nulled and
  swapped, and the implementation objects that they lead to. */
module AnyCompletionHandlerImpl {
  import opened HandlerOwnership
  import opened Options

  /** The implementation objects on the heap. */
  class ImplStore {
    var impls: map<ImplId, HandlerType>
    ghost var log: seq<Event>
    var next: ImplId

    constructor ()
      ensures View() == NEW_STORE
    {
      impls, log, next := map[], [], 0;
    }

    ghost function View(): Store
      reads this
    {
      Store(impls, log, next)
    }

    /** `any_completion_handler_impl<Handler>::create`. */
    method NewImpl(ty: HandlerType) returns (id: ImplId)
      modifies this
      ensures View() == Create(old(View()), ty) && id == old(next)
    {
      id := next;
      impls := impls[id := ty];
      log := log + [Created(id, ty)];
      next := next + 1;
    }

    /** `any_completion_handler_impl<Handler>::destroy`, where the function table
      decides the type that the pointer is cast to. */
    method DestroyImpl(id: ImplId, fnTable: HandlerType)
      requires id in impls && impls[id] == fnTable
      modifies this
      ensures View() == Drop(old(View()), Wrapper(Some(fnTable), Some(id)))
    {
      impls := impls - {id};
      log := log + [Destroyed(id, fnTable)];
    }

    /** `any_completion_handler_impl<Handler>::call`: the handler is moved out,
      the object destroyed and freed, and only then the handler invoked. */
    method CallImpl(id: ImplId, fnTable: HandlerType)
      requires id in impls && impls[id] == fnTable
      modifies this
      ensures View() == Upcall(Drop(old(View()), Wrapper(Some(fnTable), Some(id))), Wrapper(Some(fnTable), Some(id)))
    {
      DestroyImpl(id, fnTable);
      log := log + [Invoked(id, fnTable)];
    }
  }

  class AnyCompletionHandler {
    var fnTable: Option<HandlerType>
    var impl: Option<ImplId>

    function View(): Wrapper
      reads this
    {
      Wrapper(fnTable, impl)
    }

    constructor ()
      ensures View() == EMPTY
    {
      fnTable, impl := None, None;
    }

    constructor FromHandler(ty: HandlerType, store: ImplStore)
      modifies store
      ensures View() == Wrapper(Some(ty), Some(old(store.next)))
      ensures store.View() == Create(old(store.View()), ty)
    {
      fnTable := Some(ty);
      var id := store.NewImpl(ty);
      impl := Some(id);
    }

    constructor Move(other: AnyCompletionHandler)
      modifies other
      ensures View() == old(other.View()) && other.View() == EMPTY
    {
      fnTable, impl := other.fnTable, other.impl;
      new;
      other.fnTable := None;
      other.impl := None;
    }

    method Swap(other: AnyCompletionHandler)
      modifies this, other
      ensures View() == old(other.View()) && other.View() == old(View())
    {
      fnTable, other.fnTable := other.fnTable, fnTable;
      impl, other.impl := other.impl, impl;
    }

    /** The destructor; the wrapper is not used afterwards. */
    method Destroy(store: ImplStore)
      requires Holds(store.View(), View())
      modifies store
      ensures store.View() == Drop(old(store.View()), View())
    {
      if impl.Some? {
        store.DestroyImpl(impl.value, fnTable.value);
      }
    }

    /** A temporary takes over the source, swaps with this wrapper, and is
      destroyed with what this wrapper held before. */
    method MoveAssign(other: AnyCompletionHandler, store: ImplStore)
      requires Holds(store.View(), View())
      modifies this, other, store
      ensures this == other ==> View() == old(View()) && store.View() == old(store.View())
      ensures this != other ==>
                && View() == old(other.View())
                && other.View() == EMPTY
                && store.View() == Drop(old(store.View()), old(View()))
    {
      var temp := new AnyCompletionHandler.Move(other);
      temp.Swap(this);
      temp.Destroy(store);
    }

    method AssignNull(store: ImplStore)
      requires Holds(store.View(), View())
      modifies this, store
      ensures View() == EMPTY
      ensures store.View() == Drop(old(store.View()), old(View()))
    {
      var temp := new AnyCompletionHandler();
      temp.Swap(this);
      temp.Destroy(store);
    }

    /** The function call operator. True stands for `bad_function_call`. */
    method Call(store: ImplStore) returns (threw: bool)
      requires Holds(store.View(), View())
      modifies this, store
      ensures threw == old(impl).None?
      ensures threw ==> View() == old(View()) && store.View() == old(store.View())
      ensures !threw ==>
                && View() == old(View()).(impl := None)
                && store.View() == Upcall(Drop(old(store.View()), old(View())), old(View()))
    {
      if impl.Some? {
        var target := impl.value;
        impl := None;
        store.CallImpl(target, fnTable.value);
        return false;
      }
      return true;
    }
  }

  // ----------------------------------------------- Many wrappers over one store

  ghost function WorldOf(ws: map<WrapperId, AnyCompletionHandler>, store: ImplStore): World
    reads store, ws.Values
  {
    World(map w | w in ws :: ws[w].View(), store.View())
  }

  /** Different names stand for different wrappers. */
  ghost predicate Distinct(ws: map<WrapperId, AnyCompletionHandler>) {
    forall v, w :: v in ws && w in ws && v != w ==> ws[v] != ws[w]
  }

  /** One of the constructors. */
  method PerformConstruction(ws: map<WrapperId, AnyCompletionHandler>, store: ImplStore, op: Op)
    returns (ws': map<WrapperId, AnyCompletionHandler>)
    requires op.Construct? || op.ConstructFrom? || op.MoveConstruct?
    requires Distinct(ws) && Inv(WorldOf(ws, store)) && Allowed(WorldOf(ws, store), op)
    modifies store, ws.Values
    ensures op.w in ws' && ws' == ws[op.w := ws'[op.w]] && fresh(ws'[op.w])
    ensures WorldOf(ws', store) == Step(old(WorldOf(ws, store)), op).x
  {
    var h;
    if op.Construct? {
      h := new AnyCompletionHandler();
    } else if op.ConstructFrom? {
      h := new AnyCompletionHandler.FromHandler(op.ty, store);
    } else {
      h := new AnyCompletionHandler.Move(ws[op.from]);
    }
    ws' := ws[op.w := h];
    assert WorldOf(ws', store).wrappers == Step(old(WorldOf(ws, store)), op).x.wrappers;
  }

  /** One of the operations that take a target from one wrapper to another. */
  method PerformTransfer(ws: map<WrapperId, AnyCompletionHandler>, store: ImplStore, op: Op)
    requires op.MoveAssign? || op.Swap?
    requires Distinct(ws) && Inv(WorldOf(ws, store)) && Allowed(WorldOf(ws, store), op)
    modifies store, ws.Values
    ensures WorldOf(ws, store) == Step(old(WorldOf(ws, store)), op).x
  {
    ghost var x := WorldOf(ws, store);
    if op.MoveAssign? {
      assert Holds(x.store, x.wrappers[op.w]);
      ws[op.w].MoveAssign(ws[op.from], store);
    } else {
      ws[op.w].Swap(ws[op.with]);
    }
    assert WorldOf(ws, store).wrappers == Step(x, op).x.wrappers;
  }

  /** One of the operations that give a target up. */
  method PerformRelease(ws: map<WrapperId, AnyCompletionHandler>, store: ImplStore, op: Op)
    returns (ws': map<WrapperId, AnyCompletionHandler>, threw: bool)
    requires op.AssignNull? || op.Call? || op.Destroy?
    requires Distinct(ws) && Inv(WorldOf(ws, store)) && Allowed(WorldOf(ws, store), op)
    modifies store, ws.Values
    ensures ws' == if op.Destroy? then ws - {op.w} else ws
    ensures Outcome(WorldOf(ws', store), threw) == Step(old(WorldOf(ws, store)), op)
  {
    ws', threw := ws, false;
    ghost var x := WorldOf(ws, store);
    assert Holds(x.store, x.wrappers[op.w]);
    if op.AssignNull? {
      ws[op.w].AssignNull(store);
    } else if op.Call? {
      threw := ws[op.w].Call(store);
    } else {
      ws[op.w].Destroy(store);
      ws' := ws - {op.w};
    }
    assert WorldOf(ws', store).wrappers == Step(x, op).x.wrappers;
  }

  /** A client that performs one operation on a family of wrappers. The code of
    the wrappers takes exactly the step of the world, and leaves every wrapper
    that the operation does not name alone. */
  method Perform(ws: map<WrapperId, AnyCompletionHandler>, store: ImplStore, op: Op)
    returns (ws': map<WrapperId, AnyCompletionHandler>, threw: bool)
    requires Distinct(ws) && Inv(WorldOf(ws, store)) && Allowed(WorldOf(ws, store), op)
    modifies store, ws.Values
    ensures Distinct(ws') && forall w :: w in ws' && w !in ws ==> fresh(ws'[w])
    ensures forall w :: w in ws && w in ws' ==> ws'[w] == ws[w]
    ensures Outcome(WorldOf(ws', store), threw) == Step(old(WorldOf(ws, store)), op)
  {
    ws', threw := ws, false;
    if op.Construct? || op.ConstructFrom? || op.MoveConstruct? {
      ws' := PerformConstruction(ws, store, op);
    } else if op.MoveAssign? || op.Swap? {
      PerformTransfer(ws, store, op);
    } else {
      ws', threw := PerformRelease(ws, store, op);
    }
  }
}
