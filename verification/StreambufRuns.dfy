/** What `asio::basic_streambuf` promises over whole runs: it is a bounded byte
  queue, exactly. */
module StreambufRuns {
  import opened Chars
  import opened StreambufSpec

  // ------------------------------------------------- The specification: a queue

  /** A byte queue with a maximum size, and the put area in front of it. */
  datatype ByteQueue = ByteQueue(max: nat, items: seq<Byte>, area: seq<Byte>)

  datatype Op =
    | Prepare(n: nat, grow: nat)
    | Write(bytes: seq<Byte>)
    | CommitBytes(n: nat)
    | ConsumeBytes(n: nat)
    | Put(c: Byte, grow: nat)
    | Get
    | Bump

  /** What a caller sees. */
  datatype Event =
    | Quiet
    | Appended(bytes: seq<Byte>)
    | Removed(bytes: seq<Byte>)
    | Peeked(result: int)
    | Bumped(result: int)
    | Threw

  function Front(items: seq<Byte>): int {
    if items == [] then EOF else items[0]
  }

  function Rest(items: seq<Byte>): seq<Byte> {
    if items == [] then [] else items[1..]
  }

  /** The steps of the queue. Only the contents of a put area that has just been
    enlarged are left open. */
  ghost predicate QueueStep(q: ByteQueue, op: Op, ev: Event, q': ByteQueue) {
    && q'.max == q.max
    && match op
       case Prepare(n, _) =>
         if |q.items| + n <= q.max
         then ev == Quiet && q'.items == q.items && |q'.area| >= n && (n <= |q.area| ==> q' == q)
         else ev == Threw && q' == q
       case Write(bs) =>
         |bs| <= |q.area| && ev == Quiet && q' == q.(area := bs + q.area[|bs|..])
       case CommitBytes(n) =>
         var k := Min(n, |q.area|);
         ev == Appended(q.area[..k]) && q' == q.(items := q.items + q.area[..k], area := q.area[k..])
       case ConsumeBytes(n) =>
         var k := Min(n, |q.items|);
         ev == Removed(q.items[..k]) && q' == q.(items := q.items[k..])
       case Put(c, _) =>
         if |q.items| < q.max
         then ev == Appended([c]) && q'.items == q.items + [c] && (q.area != [] ==> q'.area == q.area[1..])
         else ev == Threw && q' == q
       case Get =>
         ev == Peeked(Front(q.items)) && q' == q
       case Bump =>
         ev == Bumped(Front(q.items)) && q' == q.(items := Rest(q.items))
  }

  // --------------------------------------------------------- The implementation

  /** What the program demands of its callers: a write stays in the prepared
    area, and a commit or consume moves at most `INT_MAX` bytes. */
  predicate Allowed(s: Sb, op: Op) {
    match op
    case Write(bs) => |bs| <= s.Room()
    case CommitBytes(n) => Min(n, s.Room()) <= INT_MAX
    case ConsumeBytes(n) => Min(n, s.Size()) <= INT_MAX
    case _ => true
  }

  datatype Outcome = Outcome(s: Sb, event: Event)

  ghost function Step(s: Sb, op: Op): Outcome
    requires Inv(s) && Allowed(s, op)
  {
    match op
    case Prepare(n, grow) =>
      (match Reserve(s, n, grow)
       case Done(t) => Outcome(t, Quiet)
       case LengthError(t) => Outcome(t, Threw))
    case Write(bs) => Outcome(Fill(s, bs), Quiet)
    case CommitBytes(n) => Outcome(Commit(s, n), Appended(s.data[s.pptr..][..Min(n, s.Room())]))
    case ConsumeBytes(n) => Outcome(Consume(s, n), Removed(s.data[s.gptr..][..Min(n, s.Size())]))
    case Put(c, grow) =>
      (match Sputc(s, c, grow)
       case Done(t) => Outcome(t, Appended([c]))
       case LengthError(t) => Outcome(t, Threw))
    case Get => var p := Sgetc(s); Outcome(p.s, Peeked(p.result))
    case Bump => var p := Sbumpc(s); Outcome(p.s, Bumped(p.result))
  }

  ghost function Abs(s: Sb): ByteQueue
    requires Inv(s)
  {
    ByteQueue(s.maxSize, Queue(s), Area(s))
  }

  // ----------------------------------------------------------- The failing case

  /** The queue repeats itself with period `k`, as far as it is longer than
    that. */
  ghost predicate Periodic(items: seq<Byte>, k: nat) {
    forall i :: 0 <= i < |items| - k ==> items[i] == items[i + k]
  }

  lemma MovedDown(data: seq<Byte>, g: nat, p: nat, e: nat)
    requires g <= p <= e <= |data|
    ensures var q := data[g..p]; var d := MoveDown(data, g, p);
            && |d| == |data|
            && d[p..e] == data[p..e]
            && forall i :: 0 <= i < |q| ==> d[g..p][i] == if i < |q| - g then q[i + g] else q[i]
  {
  }

  lemma MovedDownIff(data: seq<Byte>, g: nat, p: nat)
    requires g <= p <= |data|
    ensures MoveDown(data, g, p)[g..p] == data[g..p] <==> Periodic(data[g..p], g)
  {
    MovedDown(data, g, p, p);
    var q, after := data[g..p], MoveDown(data, g, p)[g..p];
    if Periodic(q, g) {
      assert after == q;
    } else {
      var i :| 0 <= i < |q| - g && q[i] != q[i + g];
      assert after[i] != q[i];
    }
  }

  /** A `reserve` that throws has already moved the bytes down. The queue survives
    if and only if, as far as the queued bytes reach over their new place, they
    happen to repeat with period `gptr`. The put area always survives. */
  lemma FailedReserveKeepsQueueIff(s: Sb, n: nat, grow: nat)
    requires Inv(s) && s.Size() + n > s.maxSize
    ensures var r := Reserve(s, n, grow);
            && r.LengthError? && Inv(r.s)
            && Area(r.s) == Area(s)
            && (Queue(r.s) == Queue(s) <==> Periodic(Queue(s), s.gptr))
  {
    ReserveKeeps(s, n, grow);
    MovedDown(s.data, s.gptr, s.pptr, s.epptr);
    MovedDownIff(s.data, s.gptr, s.pptr);
  }

  /** A `reserve` leaves the queue as it was. */
  ghost predicate Undamaged(s: Sb, n: nat, grow: nat)
    requires Inv(s)
  {
    ReserveValid(s, n, grow);
    Queue(Reserve(s, n, grow).s) == Queue(s)
  }

  /** Positions alone decide it for every content: whatever the bytes are, no
    `reserve` that throws damages the queue, if and only if `gptr` is 0 or the
    queue is no longer than `gptr`. */
  lemma FailedReserveHarmlessIff(s: Sb)
    requires Inv(s)
    ensures (s.gptr == 0 || s.Size() <= s.gptr)
            <==> forall d: seq<Byte>, n: nat, grow: nat ::
                   |d| == |s.data| && s.Size() + n > s.maxSize ==> Undamaged(s.(data := d), n, grow)
  {
    if s.gptr == 0 || s.Size() <= s.gptr {
      forall d: seq<Byte>, n: nat, grow: nat | |d| == |s.data| && s.Size() + n > s.maxSize
        ensures Undamaged(s.(data := d), n, grow)
      {
        FailedReserveKeepsQueueIff(s.(data := d), n, grow);
      }
    } else {
      var d: seq<Byte> := seq(|s.data|, i => if i == s.gptr then 1 else 0);
      var t, n := s.(data := d), s.maxSize + 1;
      assert Queue(t)[0] != Queue(t)[0 + s.gptr];
      FailedReserveKeepsQueueIff(t, n, 0);
      assert !Undamaged(t, n, 0);
    }
  }

  // ----------------------------------------------------------------- Exact casts

  /** The casts to `int` in `commit` and `consume` are exact precisely when at
    most `INT_MAX` bytes move; otherwise the queue is not what was promised. */
  lemma CommitAppendsIff(s: Sb, n: nat)
    requires Inv(s)
    ensures var k := Min(n, s.Room()); var t := Commit(s, n);
            (Inv(t) && Queue(t) == Queue(s) + Area(s)[..k]) <==> k <= INT_MAX
  {
    var k := Min(n, s.Room());
    CastExactIff(k);
    if k <= INT_MAX {
      CommitStep(s, n);
    } else {
      var t := Commit(s, n);
      if Inv(t) {
        assert |Queue(t)| != |Queue(s) + Area(s)[..k]|;
      }
    }
  }

  lemma ConsumeRemovesIff(s: Sb, n: nat)
    requires Inv(s)
    ensures var k := Min(n, s.Size()); var t := Consume(s, n);
            (Inv(t) && Queue(t) == Queue(s)[k..]) <==> k <= INT_MAX
  {
    var k := Min(n, s.Size());
    CastExactIff(k);
    if k <= INT_MAX {
      ConsumeStep(s, n);
    } else {
      var t := Consume(s, n);
      if Inv(t) {
        assert |Queue(t)| != |Queue(s)[k..]|;
      }
    }
  }

  /** In every new buffer whose maximum size allows it, as the default one does,
    2^31 bytes can be prepared. */
  lemma HugeRoomReached(maxSize: nat, grow: nat) returns (t: Sb)
    requires maxSize >= INT_MAX + 1
    ensures Reserve(Init(maxSize, 0), INT_MAX + 1, grow) == Done(t)
    ensures Inv(t) && t.gptr == t.pptr == 0 && t.Room() == INT_MAX + 1
  {
    var s := Init(maxSize, 0);
    ReserveKeeps(s, INT_MAX + 1, grow);
    ReserveResets(s, INT_MAX + 1, grow);
    t := Reserve(s, INT_MAX + 1, grow).s;
  }

  /** Committing all of them moves the put pointer back instead of forward. */
  lemma HugeCommitMovesBack(maxSize: nat, grow: nat) returns (t: Sb)
    requires maxSize >= INT_MAX + 1
    ensures Reserve(Init(maxSize, 0), INT_MAX + 1, grow) == Done(t)
    ensures Inv(t) && Commit(t, INT_MAX + 1).pptr == -(INT_MAX + 1)
  {
    t := HugeRoomReached(maxSize, grow);
  }

  /** Committing them in two parts is in range; consuming them all at once then
    moves the get pointer back. */
  lemma HugeConsumeMovesBack(maxSize: nat, grow: nat) returns (t: Sb)
    requires maxSize >= INT_MAX + 1
    ensures Reserve(Init(maxSize, 0), INT_MAX + 1, grow) == Done(t)
    ensures Inv(t) && Inv(Commit(t, INT_MAX)) && Inv(Commit(Commit(t, INT_MAX), 1))
    ensures var u := Commit(Commit(t, INT_MAX), 1);
            u.Size() == INT_MAX + 1 && Consume(u, INT_MAX + 1).gptr == -(INT_MAX + 1)
  {
    t := HugeRoomReached(maxSize, grow);
    CommitStep(t, INT_MAX);
    CommitStep(Commit(t, INT_MAX), 1);
  }

  /** With a maximum size of at most `INT_MAX` every commit and consume is
    allowed. */
  lemma SmallBuffersAllowed(s: Sb, n: nat)
    requires Inv(s) && s.maxSize <= INT_MAX
    ensures Allowed(s, CommitBytes(n)) && Allowed(s, ConsumeBytes(n))
  {
  }

  // ------------------------------------------------------------------- Refinement

  /** `overflow` throws if and only if the queue is full, and then changes
    nothing at all. */
  lemma OverflowExact(s: Sb, c: int, grow: nat)
    requires Inv(s) && c != EOF
    ensures var r := Overflow(s, c, grow);
            && Inv(r.s)
            && r.s.maxSize == s.maxSize
            && (r.LengthError? <==> s.Size() == s.maxSize)
            && (r.LengthError? ==> r.s == s)
            && (r.Done? ==> Queue(r.s) == Queue(s) + [ToCharType(c)])
            && (s.Room() > 0 ==> r.Done? && Area(r.s) == Area(s)[1..])
  {
    if s.Room() == 0 {
      ReserveKeeps(s, Growth(s), grow);
      var t := Reserve(s, Growth(s), grow).s;
      if s.Size() < s.maxSize {
        PutCharQueues(t, ToCharType(c));
      } else {
        assert s.gptr == 0;
        assert t == s;
      }
    } else {
      PutCharQueues(s, ToCharType(c));
    }
  }

  /** What `overflow` does to a full put area when the queue is not full: the queue
    moves to the start of the buffer, the character joins it, and the buffer
    reaches 128 bytes beyond the queue, or the maximum if that is nearer, and
    further only if it did so before. */
  lemma OverflowGrows(s: Sb, c: int, grow: nat)
    requires Inv(s) && c != EOF && s.Room() == 0 && s.Size() < s.maxSize
    ensures var t := Overflow(s, c, grow).s;
            var step := if s.maxSize - s.Size() < 128 then s.maxSize - s.Size() else 128;
            && t.gptr == 0 && t.egptr == t.pbase == s.Size() && t.pptr == s.Size() + 1
            && t.epptr == if s.epptr < s.Size() + step then s.Size() + step else s.epptr
  {
    ReserveResets(s, Growth(s), grow);
  }

  /** A step is harmless unless it is a `prepare` that throws while the queue
    reaches over its new place and does not repeat. */
  ghost predicate Harmless(s: Sb, op: Op)
    requires Inv(s)
  {
    op.Prepare? && s.Size() + op.n > s.maxSize ==> Periodic(Queue(s), s.gptr)
  }

  lemma StepKeepsInv(s: Sb, op: Op)
    requires Inv(s) && Allowed(s, op)
    ensures Inv(Step(s, op).s) && Step(s, op).s.maxSize == s.maxSize
  {
    match op
    case Prepare(n, grow) => ReserveKeeps(s, n, grow);
    case Write(bs) => WriteStep(s, bs);
    case CommitBytes(n) => CommitStep(s, n);
    case ConsumeBytes(n) => ConsumeStep(s, n);
    case Put(c, grow) => OverflowExact(s, c, grow);
    case Get => GetStep(s);
    case Bump => BumpStep(s);
  }

  /** A step of the implementation is a step of the queue, with the same event,
    if and only if it is harmless. In particular `prepare(n)` throws exactly when
    `size() + n > max_size()`, and storing a character exactly when the queue is
    full. */
  lemma StepRefinesQueueIff(s: Sb, op: Op)
    requires Inv(s) && Allowed(s, op)
    ensures Inv(Step(s, op).s)
    ensures QueueStep(Abs(s), op, Step(s, op).event, Abs(Step(s, op).s)) <==> Harmless(s, op)
  {
    match op
    case Prepare(n, grow) => PrepareStep(s, n, grow);
    case Write(bs) => WriteStep(s, bs);
    case CommitBytes(n) => CommitStep(s, n);
    case ConsumeBytes(n) => ConsumeStep(s, n);
    case Put(c, grow) => PutStep(s, c, grow);
    case Get => GetStep(s);
    case Bump => BumpStep(s);
  }

  lemma PrepareStep(s: Sb, n: nat, grow: nat)
    requires Inv(s)
    ensures var op := Prepare(n, grow); var o := Step(s, op);
            && Inv(o.s)
            && (QueueStep(Abs(s), op, o.event, Abs(o.s)) <==> Harmless(s, op))
  {
    ReserveKeeps(s, n, grow);
    if s.Size() + n > s.maxSize {
      FailedReserveKeepsQueueIff(s, n, grow);
    }
  }

  lemma WriteStep(s: Sb, bs: seq<Byte>)
    requires Inv(s) && |bs| <= s.Room()
    ensures Inv(Fill(s, bs))
    ensures Abs(Fill(s, bs)) == Abs(s).(area := bs + Area(s)[|bs|..])
  {
    var t := Fill(s, bs);
    assert Area(t) == bs + Area(s)[|bs|..];
    assert Queue(t) == Queue(s);
  }

  lemma PutStep(s: Sb, c: Byte, grow: nat)
    requires Inv(s)
    ensures var o := Step(s, Put(c, grow));
            && Inv(o.s)
            && QueueStep(Abs(s), Put(c, grow), o.event, Abs(o.s))
  {
    OverflowExact(s, c, grow);
    assert ToCharType(c) == c && Sputc(s, c, grow) == Overflow(s, c, grow);
    assert s.Room() > 0 <==> Area(s) != [];
  }

  lemma GetStep(s: Sb)
    requires Inv(s)
    ensures Inv(Sgetc(s).s) && Abs(Sgetc(s).s) == Abs(s)
    ensures Sgetc(s).s == if Queue(s) == [] || s.gptr < s.egptr then s else s.(egptr := s.pptr)
    ensures Sgetc(s).result == Front(Queue(s))
  {
  }

  lemma BumpStep(s: Sb)
    requires Inv(s)
    ensures Inv(Sbumpc(s).s) && Abs(Sbumpc(s).s) == Abs(s).(items := Rest(Queue(s)))
    ensures Sbumpc(s).result == Front(Queue(s))
  {
    GetStep(s);
    assert Queue(Sbumpc(s).s) == Rest(Queue(s));
  }

  lemma SliceOfRest(data: seq<Byte>, from: nat, to: nat, k: nat)
    requires from + k <= to <= |data|
    ensures data[from..][..k] == data[from..to][..k]
  {
  }

  lemma DropOfSlice(data: seq<Byte>, from: nat, to: nat, k: nat)
    requires from + k <= to <= |data|
    ensures data[from..to][k..] == data[from + k..to]
  {
  }

  lemma CommitStep(s: Sb, n: nat)
    requires Inv(s) && Allowed(s, CommitBytes(n))
    ensures var k := Min(n, s.Room());
            && Inv(Commit(s, n)) && Commit(s, n) == s.(pptr := s.pptr + k, egptr := s.pptr + k)
            && s.data[s.pptr..][..k] == Area(s)[..k]
            && Abs(Commit(s, n)) == Abs(s).(items := Queue(s) + Area(s)[..k], area := Area(s)[k..])
  {
    var k, t := Min(n, s.Room()), Commit(s, n);
    CastExactIff(k);
    SliceOfRest(s.data, s.pptr, s.epptr, k);
    assert Queue(t) == Queue(s) + Area(s)[..k];
    assert Area(t) == Area(s)[k..];
  }

  lemma ConsumeStep(s: Sb, n: nat)
    requires Inv(s) && Allowed(s, ConsumeBytes(n))
    ensures var k := Min(n, s.Size());
            && Inv(Consume(s, n)) && Consume(s, n) == s.(gptr := s.gptr + k, egptr := s.pptr)
            && s.data[s.gptr..][..k] == Queue(s)[..k]
            && Abs(Consume(s, n)) == Abs(s).(items := Queue(s)[k..])
  {
    var k, t := Min(n, s.Size()), Consume(s, n);
    CastExactIff(k);
    assert t == s.(gptr := s.gptr + k, egptr := s.pptr);
    SliceOfRest(s.data, s.gptr, s.pptr, k);
    DropOfSlice(s.data, s.gptr, s.pptr, k);
  }

  // ------------------------------------------------------------------------ Runs

  /** A run is allowed if each of its steps is. */
  ghost predicate AllowedRun(s: Sb, ops: seq<Op>)
    requires Inv(s)
    decreases |ops|
  {
    ops == [] ||
    (Allowed(s, ops[0]) && (StepKeepsInv(s, ops[0]); AllowedRun(Step(s, ops[0]).s, ops[1..])))
  }

  ghost predicate HarmlessRun(s: Sb, ops: seq<Op>)
    requires Inv(s) && AllowedRun(s, ops)
    decreases |ops|
  {
    ops == [] ||
    (Harmless(s, ops[0]) && (StepKeepsInv(s, ops[0]); HarmlessRun(Step(s, ops[0]).s, ops[1..])))
  }

  ghost function Run(s: Sb, ops: seq<Op>): Sb
    requires Inv(s) && AllowedRun(s, ops)
    decreases |ops|
  {
    if ops == [] then s
    else
      StepKeepsInv(s, ops[0]);
      Run(Step(s, ops[0]).s, ops[1..])
  }

  ghost function Events(s: Sb, ops: seq<Op>): seq<Event>
    requires Inv(s) && AllowedRun(s, ops)
    decreases |ops|
  {
    if ops == [] then []
    else
      StepKeepsInv(s, ops[0]);
      [Step(s, ops[0]).event] + Events(Step(s, ops[0]).s, ops[1..])
  }

  /** `q` can answer `ops` with `evs` and end as `q'`. */
  ghost predicate QueueRun(q: ByteQueue, ops: seq<Op>, evs: seq<Event>, q': ByteQueue)
    decreases |ops|
  {
    if ops == [] || evs == [] then ops == [] && evs == [] && q' == q
    else exists r :: QueueStep(q, ops[0], evs[0], r) && QueueRun(r, ops[1..], evs[1..], q')
  }

  /** The bytes that the events of a run append, and the bytes that they take. */
  function BytesIn(evs: seq<Event>): seq<Byte>
    decreases |evs|
  {
    if evs == [] then []
    else (if evs[0].Appended? then evs[0].bytes else []) + BytesIn(evs[1..])
  }

  function Taken(ev: Event): seq<Byte> {
    match ev
    case Removed(bs) => bs
    case Bumped(r) => if 0 <= r < 256 then [r] else []
    case _ => []
  }

  function BytesOut(evs: seq<Event>): seq<Byte>
    decreases |evs|
  {
    if evs == [] then [] else Taken(evs[0]) + BytesOut(evs[1..])
  }

  /** The invariant holds throughout every allowed run, harmless or not; with it
    the documented `size() <= max_size()`. */
  lemma {:induction false} RunKeepsInv(s: Sb, ops: seq<Op>)
    requires Inv(s) && AllowedRun(s, ops)
    ensures Inv(Run(s, ops)) && Run(s, ops).maxSize == s.maxSize
    ensures Run(s, ops).Size() <= s.maxSize
    decreases |ops|
  {
    if ops != [] {
      StepKeepsInv(s, ops[0]);
      RunKeepsInv(Step(s, ops[0]).s, ops[1..]);
    }
  }

  /** Every harmless run of the implementation is a run of the bounded queue:
    same operations, same events. */
  lemma {:induction false} RunRefinesQueue(s: Sb, ops: seq<Op>)
    requires Inv(s) && AllowedRun(s, ops) && HarmlessRun(s, ops)
    ensures Inv(Run(s, ops))
    ensures QueueRun(Abs(s), ops, Events(s, ops), Abs(Run(s, ops)))
    decreases |ops|
  {
    if ops != [] {
      StepRefinesQueueIff(s, ops[0]);
      var t := Step(s, ops[0]).s;
      RunRefinesQueue(t, ops[1..]);
      var evs := Events(s, ops);
      assert evs[1..] == Events(t, ops[1..]);
      assert QueueStep(Abs(s), ops[0], evs[0], Abs(t));
    }
  }

  lemma QueueStepConserves(q: ByteQueue, op: Op, ev: Event, q': ByteQueue)
    requires QueueStep(q, op, ev, q')
    ensures q.items + (if ev.Appended? then ev.bytes else []) == Taken(ev) + q'.items
  {
  }

  /** First in, first out: what was queued, followed by everything appended, is
    everything taken, followed by what is still queued. */
  lemma {:induction false} QueueRunIsFifo(q: ByteQueue, ops: seq<Op>, evs: seq<Event>, q': ByteQueue)
    requires QueueRun(q, ops, evs, q')
    ensures q.items + BytesIn(evs) == BytesOut(evs) + q'.items
    decreases |ops|
  {
    if ops != [] {
      var r :| QueueStep(q, ops[0], evs[0], r) && QueueRun(r, ops[1..], evs[1..], q');
      QueueStepConserves(q, ops[0], evs[0], r);
      QueueRunIsFifo(r, ops[1..], evs[1..], q');
      Chain(q.items, if evs[0].Appended? then evs[0].bytes else [], BytesIn(evs[1..]),
            Taken(evs[0]), r.items, BytesOut(evs[1..]), q'.items);
    }
  }

  /** Over any harmless run of a new buffer, the bytes taken followed by the bytes
    left are the bytes appended, in order. */
  lemma Fifo(maxSize: nat, grow: nat, ops: seq<Op>)
    requires AllowedRun(Init(maxSize, grow), ops) && HarmlessRun(Init(maxSize, grow), ops)
    ensures var s := Init(maxSize, grow);
            && Inv(Run(s, ops))
            && BytesIn(Events(s, ops)) == BytesOut(Events(s, ops)) + Queue(Run(s, ops))
  {
    var s := Init(maxSize, grow);
    RunRefinesQueue(s, ops);
    QueueRunIsFifo(Abs(s), ops, Events(s, ops), Abs(Run(s, ops)));
    assert [] + BytesIn(Events(s, ops)) == BytesIn(Events(s, ops));
  }

  /** Every write of the run stays in the prepared area: all that is demanded of
    the callers of a small buffer. */
  ghost predicate WritesFit(s: Sb, ops: seq<Op>)
    requires Inv(s) && s.maxSize <= INT_MAX
    decreases |ops|
  {
    ops == [] ||
    ((ops[0].Write? ==> |ops[0].bytes| <= s.Room())
     && (StepKeepsInv(s, ops[0]); WritesFit(Step(s, ops[0]).s, ops[1..])))
  }

  /** With a maximum size of at most `INT_MAX` no cast in any run is inexact. */
  lemma {:induction false} SmallRunsAllowed(s: Sb, ops: seq<Op>)
    requires Inv(s) && s.maxSize <= INT_MAX && WritesFit(s, ops)
    ensures AllowedRun(s, ops)
    decreases |ops|
  {
    if ops != [] {
      StepKeepsInv(s, ops[0]);
      SmallRunsAllowed(Step(s, ops[0]).s, ops[1..]);
    }
  }

  /** First in, first out for small buffers, without a condition on any cast. */
  lemma SmallFifo(maxSize: nat, grow: nat, ops: seq<Op>)
    requires maxSize <= INT_MAX && WritesFit(Init(maxSize, grow), ops)
    ensures var s := Init(maxSize, grow);
            && AllowedRun(s, ops)
            && (HarmlessRun(s, ops) ==>
                  && Inv(Run(s, ops))
                  && BytesIn(Events(s, ops)) == BytesOut(Events(s, ops)) + Queue(Run(s, ops)))
  {
    SmallRunsAllowed(Init(maxSize, grow), ops);
    if HarmlessRun(Init(maxSize, grow), ops) {
      Fifo(maxSize, grow, ops);
    }
  }

  /** Receiving into the buffer: `prepare`, fill, `commit` queues exactly the bytes
    written, through any shift or reallocation. */
  lemma PrepareWriteCommit(s: Sb, n: nat, grow: nat, bs: seq<Byte>)
    requires Inv(s) && s.Size() + n <= s.maxSize && |bs| <= n && |bs| <= INT_MAX
    ensures var t := Reserve(s, n, grow).s;
            && Inv(t) && |bs| <= t.Room()
            && Inv(Fill(t, bs)) && Inv(Commit(Fill(t, bs), |bs|))
            && Queue(Commit(Fill(t, bs), |bs|)) == Queue(s) + bs
  {
    ReserveKeeps(s, n, grow);
    var t := Reserve(s, n, grow).s;
    WriteStep(t, bs);
    CommitStep(Fill(t, bs), |bs|);
    assert Area(Fill(t, bs))[..|bs|] == bs;
  }

  /** Three bytes stored in a new buffer of three, and the first one taken. */
  lemma ThreeStoredOneTaken(max: nat, grow: nat, a: Byte, b: Byte, c: Byte) returns (t: Sb)
    requires max == 3
    ensures var s := Init(max, grow);
            t == Sbumpc(PutChar(PutChar(PutChar(s, a), b), c)).s
    ensures Inv(t) && t.data == [a, b, c] && t.gptr == 1 && t.pptr == t.epptr == t.maxSize == 3
  {
    var s1 := PutChar(Init(max, grow), a);
    var s2 := PutChar(s1, b);
    var s3 := PutChar(s2, c);
    assert s3.data == [a, b, c];
    t := Sbumpc(s3).s;
  }

  /** A `prepare` that is too large then replaces the first queued byte by the
    second one. */
  lemma FailedPrepareDamagesQueue(t: Sb, a: Byte, b: Byte, c: Byte, n: nat, grow: nat)
    requires Inv(t) && t.data == [a, b, c] && t.gptr == 1 && t.pptr == t.epptr == t.maxSize == 3
    requires n >= 2
    ensures Queue(t) == [b, c]
    ensures var r := Reserve(t, n, grow);
            r.LengthError? && Inv(r.s) && Queue(r.s) == [c, c]
  {
    ReserveKeeps(t, n, grow);
    MovedDown(t.data, t.gptr, t.pptr, t.pptr);
    assert MoveDown(t.data, 1, 3) == [b, c, c];
  }
}
