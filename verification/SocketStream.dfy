/** `asio::basic_socket_streambuf` on values: a put buffer that is flushed by
  partial sends, and a get buffer that is filled by `recv` behind a putback gap.

  The operating system is an arbitrary finite script: what each turn of the send
  loop meets, and what each turn of the receive loop meets. A script that has
  run out stands for a deadline that has passed. Sends and receives report
  errors through `ec`. */
module SocketStream {
  import opened Chars

  const BUFFER_SIZE := 512
  const PUTBACK_MAX := 8

  datatype ErrorCode = Success | TimedOut | EndOfFile | WouldBlock | TryAgain | OtherError(code: int)

  /** One turn of the send loop: whether the deadline has passed; what `send`
    returns, and its error; and, for a send that would block, what `poll_write`
    returns, and its error. */
  datatype SendTurn = SendTurn(expired: bool, bytes: int, ec: ErrorCode, poll: int, pollEc: ErrorCode)

  /** One turn of the receive loop. `recv` delivers `data` if there is any; it
    returns 0 if there is none and the peer has closed, and fails otherwise. */
  datatype RecvTurn = RecvTurn(
    expired: bool,
    data: seq<Byte>,
    closed: bool,
    ec: ErrorCode,
    poll: int,
    pollEc: ErrorCode)

  /** `pending` are the bytes between `pbase` and `pptr`; without a put buffer
    there are none. `wire` is everything sent, `received` everything that `recv`
    has delivered. */
  datatype Stream = Stream(
    buffered: bool,
    pending: seq<Byte>,
    get: seq<Byte>,
    gptr: int,
    egptr: int,
    ec: ErrorCode,
    wire: seq<Byte>,
    sends: seq<SendTurn>,
    received: seq<Byte>,
    recvs: seq<RecvTurn>)
  {
    function PutCapacity(): nat {
      if buffered then BUFFER_SIZE else 0
    }
  }

  predicate Inv(s: Stream) {
    && |s.pending| <= s.PutCapacity()
    && |s.get| == BUFFER_SIZE
    && PUTBACK_MAX <= s.gptr <= s.egptr <= BUFFER_SIZE
  }

  /** `get[gptr..egptr]`: received and not yet delivered. */
  function Unread(s: Stream): seq<Byte>
    requires Inv(s)
  {
    s.get[s.gptr..s.egptr]
  }

  predicate IsNew(s: Stream) {
    && s.buffered && s.pending == [] && |s.get| == BUFFER_SIZE
    && s.gptr == s.egptr == PUTBACK_MAX
    && s.wire == [] && s.received == []
  }

  predicate Retry(ec: ErrorCode) {
    ec == WouldBlock || ec == TryAgain
  }

  datatype Result = Result(s: Stream, value: int)

  // --------------------------------------------------------------------- Output

  datatype Flushed = Flushed(ok: bool, sent: seq<Byte>, ec: ErrorCode, sends: seq<SendTurn>)

  function Flush(out: seq<Byte>, ec: ErrorCode, sends: seq<SendTurn>): Flushed
    decreases |sends|
  {
    if out == [] then Flushed(true, [], ec, sends)
    else if sends == [] then Flushed(false, [], TimedOut, [])
    else
      var turn, rest := sends[0], sends[1..];
      if turn.expired then Flushed(false, [], TimedOut, rest)
      else if turn.bytes > 0 then
        var k := Min(turn.bytes, |out|);
        var r := Flush(out[k..], turn.ec, rest);
        r.(sent := out[..k] + r.sent)
      else if !Retry(turn.ec) then Flushed(false, [], turn.ec, rest)
      else if turn.poll < 0 then Flushed(false, [], turn.pollEc, rest)
      else Flush(out, turn.pollEc, rest)
  }

  function Overflow(s: Stream, c: int): Result {
    if !s.buffered && c == EOF then Result(s, NotEof(c))
    else
      var f := Flush(if s.buffered then s.pending else [ToCharType(c)], s.ec, s.sends);
      var t := s.(wire := s.wire + f.sent, ec := f.ec, sends := f.sends);
      if !f.ok then Result(t, EOF)
      else if !s.buffered then Result(t, c)
      else if c == EOF then Result(t.(pending := []), NotEof(c))
      else Result(t.(pending := [ToCharType(c)]), c)
  }

  /** `sputc`: stores into the put area, or calls `overflow`. */
  function Sputc(s: Stream, c: Byte): Result {
    if |s.pending| < s.PutCapacity() then Result(s.(pending := s.pending + [c]), c)
    else Overflow(s, c)
  }

  function Sync(s: Stream): Result {
    Overflow(s, EOF)
  }

  /** `setbuf(s, n)`: a null pointer and zero, with nothing pending, drop the put
    buffer; everything else is refused (0). */
  function Setbuf(s: Stream, isNull: bool, n: int): Result {
    if s.pending == [] && isNull && n == 0 then Result(Sync(s.(buffered := false)).s, 1)
    else Result(s, 0)
  }

  // ---------------------------------------------------------------------- Input

  /** An empty chunk is a failure. */
  datatype Fetched = Fetched(chunk: seq<Byte>, ec: ErrorCode, recvs: seq<RecvTurn>)

  function Fetch(ec: ErrorCode, recvs: seq<RecvTurn>): (f: Fetched)
    ensures |f.chunk| <= BUFFER_SIZE - PUTBACK_MAX
    decreases |recvs|
  {
    if recvs == [] then Fetched([], TimedOut, [])
    else
      var turn, rest := recvs[0], recvs[1..];
      if turn.expired then Fetched([], TimedOut, rest)
      else if turn.data != [] then
        Fetched(turn.data[..Min(|turn.data|, BUFFER_SIZE - PUTBACK_MAX)], turn.ec, rest)
      else if turn.closed then Fetched([], EndOfFile, rest)
      else if !Retry(turn.ec) then Fetched([], turn.ec, rest)
      else if turn.poll < 0 then Fetched([], turn.pollEc, rest)
      else Fetch(turn.pollEc, rest)
  }

  /** The chunk lands behind the putback gap. */
  function Landed(get: seq<Byte>, chunk: seq<Byte>): seq<Byte>
    requires |get| == BUFFER_SIZE && |chunk| <= BUFFER_SIZE - PUTBACK_MAX
  {
    get[..PUTBACK_MAX] + chunk + get[PUTBACK_MAX + |chunk|..]
  }

  function Underflow(s: Stream): Result
    requires Inv(s)
  {
    if s.gptr != s.egptr then Result(s, EOF)
    else
      var f := Fetch(s.ec, s.recvs);
      var t := s.(ec := f.ec, recvs := f.recvs);
      if f.chunk == [] then Result(t, EOF)
      else
        Result(t.(get := Landed(s.get, f.chunk), gptr := PUTBACK_MAX, egptr := PUTBACK_MAX + |f.chunk|,
               received := s.received + f.chunk), f.chunk[0])
  }

  /** `sgetc`: reads from the get area, or calls `underflow`. */
  function Sgetc(s: Stream): Result
    requires Inv(s)
  {
    if s.gptr < s.egptr then Result(s, s.get[s.gptr]) else Underflow(s)
  }

  /** `sbumpc`: as `sgetc`, and steps over the character if there is one. */
  function Sbumpc(s: Stream): Result
    requires Inv(s)
  {
    var r := Sgetc(s);
    if r.value == EOF then r else Result(r.s.(gptr := r.s.gptr + 1), r.value)
  }

  // ------------------------------------------------------------------------ Runs

  datatype Op = Put(c: Byte) | Flushing | SetBuffer(isNull: bool, n: int) | Get | Bump

  function Step(s: Stream, op: Op): Result
    requires Inv(s)
  {
    match op
    case Put(c) => Sputc(s, c)
    case Flushing => Sync(s)
    case SetBuffer(isNull, n) => Setbuf(s, isNull, n)
    case Get => Sgetc(s)
    case Bump => Sbumpc(s)
  }

  /** The characters that the writer was told are written. */
  function Accepted(op: Op, value: int): seq<Byte> {
    if op.Put? && value != EOF then [op.c] else []
  }

  /** The characters that the reader took. */
  function Delivered(op: Op, value: int): seq<Byte> {
    if op.Bump? && 0 <= value < 256 then [value] else []
  }

  /** A turn that lets the send loop go on: bytes were taken, or the socket became
    ready again. */
  predicate GoesOn(turn: SendTurn) {
    !turn.expired && (turn.bytes > 0 || (Retry(turn.ec) && turn.poll >= 0))
  }

  /** Which turns those are: the deadline has not passed, and bytes were taken, or
    the socket was full for the moment and has become ready. */
  lemma GoesOnIff(turn: SendTurn)
    ensures GoesOn(turn) <==>
            !turn.expired
            && (turn.bytes > 0 || (turn.ec in {WouldBlock, TryAgain} && turn.poll >= 0))
  {
  }

  /** How many bytes the socket is willing to take before the first turn that
    stops the loop. */
  function Offered(sends: seq<SendTurn>): nat
    decreases |sends|
  {
    if sends == [] || !GoesOn(sends[0]) then 0
    else Max(sends[0].bytes, 0) + Offered(sends[1..])
  }

  /** Whether an operation flushes what is pending. */
  predicate Flushes(s: Stream, op: Op) {
    op.Flushing? || (op.Put? && |s.pending| == s.PutCapacity())
  }

  /** The flush that fails half-way: there is a put buffer, and the socket stops
    after it has taken some but not all of what is pending. */
  predicate Torn(s: Stream, op: Op) {
    s.buffered && Flushes(s, op) && 0 < Offered(s.sends) < |s.pending|
  }

  /** The bytes that a torn flush has sent and leaves pending: they will be sent
    again. */
  function Repeated(s: Stream, op: Op): nat {
    if Torn(s, op) then Offered(s.sends) else 0
  }

  lemma {:induction false} FlushSendsPrefix(out: seq<Byte>, ec: ErrorCode, sends: seq<SendTurn>)
    ensures var f := Flush(out, ec, sends);
            && f.sent <= out
            && (f.ok <==> f.sent == out)
            && |f.sends| <= |sends|
    decreases |sends|
  {
    if out != [] && sends != [] {
      var turn, rest := sends[0], sends[1..];
      if !turn.expired && turn.bytes > 0 {
        var k := Min(turn.bytes, |out|);
        FlushSendsPrefix(out[k..], turn.ec, rest);
        assert out == out[..k] + out[k..];
      } else if !turn.expired && Retry(turn.ec) && turn.poll >= 0 {
        FlushSendsPrefix(out, turn.pollEc, rest);
      }
    }
  }

  /** What a flush does, in one line: it sends as much as the socket offers to
    take, however that is split and however often it has to wait, and succeeds
    if and only if that is everything. */
  lemma {:induction false} FlushSendsWhatIsOffered(out: seq<Byte>, ec: ErrorCode, sends: seq<SendTurn>)
    ensures Flush(out, ec, sends).sent == out[..Min(|out|, Offered(sends))]
    ensures Flush(out, ec, sends).ok <==> Offered(sends) >= |out|
    decreases |sends|
  {
    if out != [] && sends != [] && GoesOn(sends[0]) {
      var turn, rest := sends[0], sends[1..];
      if turn.bytes > 0 {
        var k := Min(turn.bytes, |out|);
        FlushSendsWhatIsOffered(out[k..], turn.ec, rest);
        var m := Min(|out| - k, Offered(rest));
        assert out[..k] + out[k..][..m] == out[..k + m];
      } else {
        FlushSendsWhatIsOffered(out, turn.pollEc, rest);
      }
    }
  }

  function LeadingGoesOn(sends: seq<SendTurn>): (n: nat)
    ensures n <= |sends|
    ensures forall i :: 0 <= i < n ==> GoesOn(sends[i])
    ensures n < |sends| ==> !GoesOn(sends[n])
    decreases |sends|
  {
    if sends == [] || !GoesOn(sends[0]) then 0 else 1 + LeadingGoesOn(sends[1..])
  }

  /** A flush that fails has used the script up to the turn that stopped it, and
    reports that turn's error: the deadline before anything else, the error of
    `send` if it is not one to wait for, and that of `poll_write` otherwise. */
  lemma {:induction false} FailedFlushReports(out: seq<Byte>, ec: ErrorCode, sends: seq<SendTurn>)
    requires !Flush(out, ec, sends).ok
    ensures var f := Flush(out, ec, sends); var n := LeadingGoesOn(sends);
            if n == |sends| then f.ec == TimedOut && f.sends == []
            else
              && f.sends == sends[n + 1..]
              && f.ec == if sends[n].expired then TimedOut
                         else if Retry(sends[n].ec) then sends[n].pollEc
                         else sends[n].ec
    decreases |sends|
  {
    if sends != [] && GoesOn(sends[0]) {
      var turn, rest := sends[0], sends[1..];
      if turn.bytes > 0 {
        FailedFlushReports(out[Min(turn.bytes, |out|)..], turn.ec, rest);
      } else {
        FailedFlushReports(out, turn.pollEc, rest);
      }
      assert LeadingGoesOn(sends) == 1 + LeadingGoesOn(rest);
    }
  }

  /** A flush that succeeds uses the shortest part of the script that takes all its
    bytes, and leaves the error of the last send; nothing to send uses nothing. */
  lemma {:induction false} FlushUsesShortest(out: seq<Byte>, ec: ErrorCode, sends: seq<SendTurn>) returns (n: nat)
    requires Flush(out, ec, sends).ok
    ensures n <= |sends| && forall i :: 0 <= i < n ==> GoesOn(sends[i])
    ensures var f := Flush(out, ec, sends);
            && f.sends == sends[n..]
            && Offered(sends[..n]) >= |out|
            && if out == [] then n == 0 && f.ec == ec
               else n > 0 && f.ec == sends[n - 1].ec && Offered(sends[..n - 1]) < |out|
    decreases |sends|
  {
    if out == [] {
      n := 0;
    } else {
      var turn, rest := sends[0], sends[1..];
      var k := if turn.bytes > 0 then Min(turn.bytes, |out|) else 0;
      assert turn.bytes <= 0 ==> out[0..] == out;
      var m := FlushUsesShortest(out[k..], if turn.bytes > 0 then turn.ec else turn.pollEc, rest);
      n := m + 1;
      assert sends[..n][1..] == rest[..m];
      if m > 0 {
        assert sends[..m][1..] == rest[..m - 1];
      }
    }
  }

  /** What `overflow` answers and leaves in the state of the stream, from the script
    alone. It fails if and only if the socket stops before it has taken all the
    bytes; the script is then used up to the turn that stopped it, and the error
    is that turn's: the deadline first, then the error of `send` unless it is
    one to wait for, then that of `poll_write`. */
  lemma OverflowAnswers(s: Stream, c: int)
    requires Inv(s) && (s.buffered || c != EOF)
    ensures var r := Overflow(s, c);
            var size := if s.buffered then |s.pending| else 1;
            var n := LeadingGoesOn(s.sends);
            if Offered(s.sends) >= size then r.value != EOF && (c != EOF ==> r.value == c)
            else
              && r.value == EOF
              && if n == |s.sends| then r.s.ec == TimedOut && r.s.sends == []
                 else
                   && r.s.sends == s.sends[n + 1..]
                   && r.s.ec == if s.sends[n].expired then TimedOut
                                else if s.sends[n].ec in {WouldBlock, TryAgain} then s.sends[n].pollEc
                                else s.sends[n].ec
  {
    var out := if s.buffered then s.pending else [ToCharType(c)];
    FlushSendsWhatIsOffered(out, s.ec, s.sends);
    if !Flush(out, s.ec, s.sends).ok {
      FailedFlushReports(out, s.ec, s.sends);
    }
  }

  /** The same for an `overflow` that succeeds: which part of the script it has
    used, and the error code it leaves. */
  lemma OverflowUsesShortest(s: Stream, c: int) returns (n: nat)
    requires Inv(s) && (s.buffered || c != EOF) && Overflow(s, c).value != EOF
    ensures n <= |s.sends|
    ensures var t := Overflow(s, c).s; var size := if s.buffered then |s.pending| else 1;
            && t.sends == s.sends[n..]
            && Offered(s.sends[..n]) >= size
            && if size == 0 then n == 0 && t.ec == s.ec
               else n > 0 && t.ec == s.sends[n - 1].ec && Offered(s.sends[..n - 1]) < size
  {
    n := FlushUsesShortest(if s.buffered then s.pending else [ToCharType(c)], s.ec, s.sends);
  }

  /** Without a put buffer there is nothing to flush. */
  lemma NothingToFlush(s: Stream)
    requires !s.buffered
    ensures Overflow(s, EOF).s == s && Overflow(s, EOF).value != EOF
  {
  }

  /** A flush that fails has sent a proper prefix of what was pending, and has
    taken nothing out of the put area. */
  lemma FailedOverflow(s: Stream, c: int)
    requires Inv(s) && Overflow(s, c).value == EOF
    ensures var t := Overflow(s, c).s;
            && t.pending == s.pending && t.buffered == s.buffered
            && s.wire <= t.wire
            && var out := if s.buffered then s.pending else [ToCharType(c)];
            && t.wire[|s.wire|..] < out
            && (!s.buffered ==> t.wire == s.wire)
  {
    var out := if s.buffered then s.pending else [ToCharType(c)];
    FlushSendsPrefix(out, s.ec, s.sends);
    var f := Flush(out, s.ec, s.sends);
    assert (s.wire + f.sent)[|s.wire|..] == f.sent;
    assert !s.buffered ==> s.wire + [] == s.wire;
  }

  lemma OverflowConserves(s: Stream, c: int)
    requires Inv(s) && Overflow(s, c).value != EOF
    ensures var t := Overflow(s, c).s;
            && Inv(t)
            && t.wire + t.pending == s.wire + s.pending + (if c == EOF then [] else [ToCharType(c)])
            && (c == EOF ==> t.pending == [])
  {
    var out := if s.buffered then s.pending else [ToCharType(c)];
    FlushSendsPrefix(out, s.ec, s.sends);
  }

  /** What one step does to the output: the written character joins wire and
    pending bytes, in order, unless the step is a torn flush; that one puts bytes
    on the wire that are still pending. */
  lemma StepOutput(s: Stream, op: Op)
    requires Inv(s)
    ensures var r := Step(s, op);
            && Inv(r.s)
            && |r.s.wire + r.s.pending| == |s.wire + s.pending| + |Accepted(op, r.value)| + Repeated(s, op)
            && (!Torn(s, op) ==> r.s.wire + r.s.pending == s.wire + s.pending + Accepted(op, r.value))
            && (Torn(s, op) ==> r.value == EOF && r.s.pending == s.pending
                                && r.s.wire == s.wire + s.pending[..Offered(s.sends)])
            && (!s.buffered ==> !r.s.buffered)
            && (op.Flushing? && r.value != EOF ==> r.s.pending == [])
            && (op.SetBuffer? ==>
                  if s.pending == [] && op.isNull && op.n == 0 then r == Result(s.(buffered := false), 1)
                  else r == Result(s, 0))
  {
    match op
    case Put(c) =>
      if |s.pending| == s.PutCapacity() {
        FlushStep(s, op, c);
      }
    case Flushing => FlushStep(s, op, EOF);
    case SetBuffer(_, _) =>
    case Get => GetKeepsOutput(s);
    case Bump => GetKeepsOutput(s);
  }

  lemma FlushStep(s: Stream, op: Op, c: int)
    requires Inv(s) && Flushes(s, op) && c == if op.Put? then op.c else EOF
    ensures var r := Overflow(s, c);
            && Inv(r.s) && r == Step(s, op)
            && |r.s.wire + r.s.pending| == |s.wire + s.pending| + |Accepted(op, r.value)| + Repeated(s, op)
            && (!Torn(s, op) ==> r.s.wire + r.s.pending == s.wire + s.pending + Accepted(op, r.value))
            && (Torn(s, op) ==> r.value == EOF && r.s.pending == s.pending
                                && r.s.wire == s.wire + s.pending[..Offered(s.sends)])
  {
    if s.buffered {
      FlushSendsWhatIsOffered(s.pending, s.ec, s.sends);
    } else {
      FlushSendsWhatIsOffered([ToCharType(c)], s.ec, s.sends);
    }
    if Overflow(s, c).value == EOF {
      FailedOverflow(s, c);
      assert s.wire + [] == s.wire;
      assert s.wire + s.pending + [] == s.wire + s.pending;
    } else {
      OverflowConserves(s, c);
    }
  }

  lemma GetKeepsOutput(s: Stream)
    requires Inv(s)
    ensures var t := Sgetc(s).s;
            && Inv(t) && t.buffered == s.buffered && t.pending == s.pending && t.wire == s.wire
            && (Sgetc(s).value != EOF ==> t.gptr < t.egptr && t.get[t.gptr] == Sgetc(s).value)
  {
  }

  /** A turn that lets the receive loop wait and try again. */
  predicate Waits(turn: RecvTurn) {
    !turn.expired && turn.data == [] && !turn.closed && Retry(turn.ec) && turn.poll >= 0
  }

  /** Which turns those are: the deadline has not passed, nothing has come in yet,
    the peer has not closed, and the socket has become ready. */
  lemma WaitsIff(turn: RecvTurn)
    ensures Waits(turn) <==>
            !turn.expired && turn.data == [] && !turn.closed
            && turn.ec in {WouldBlock, TryAgain} && turn.poll >= 0
  {
  }

  function LeadingWaits(recvs: seq<RecvTurn>): (n: nat)
    ensures n <= |recvs|
    ensures forall i :: 0 <= i < n ==> Waits(recvs[i])
    ensures n < |recvs| ==> !Waits(recvs[n])
    decreases |recvs|
  {
    if recvs == [] || !Waits(recvs[0]) then 0 else 1 + LeadingWaits(recvs[1..])
  }

  /** What a receive does: the first turn that is not a wait decides. */
  lemma {:induction false} FetchDecides(ec: ErrorCode, recvs: seq<RecvTurn>)
    ensures var f := Fetch(ec, recvs); var n := LeadingWaits(recvs);
            if n == |recvs| then f == Fetched([], TimedOut, [])
            else
              var turn := recvs[n];
              && f.recvs == recvs[n + 1..]
              && (f.chunk != [] <==> !turn.expired && turn.data != [])
              && (f.chunk != [] ==> f.chunk == turn.data[..Min(|turn.data|, BUFFER_SIZE - PUTBACK_MAX)])
              && (f.ec == if turn.expired then TimedOut
                          else if turn.data != [] then turn.ec
                          else if turn.closed then EndOfFile
                          else if Retry(turn.ec) then turn.pollEc
                          else turn.ec)
    decreases |recvs|
  {
    if recvs != [] && Waits(recvs[0]) {
      FetchDecides(recvs[0].pollEc, recvs[1..]);
      assert LeadingWaits(recvs) == 1 + LeadingWaits(recvs[1..]);
    }
  }

  /** What `underflow` answers and leaves in the state of the stream, from the
    script alone. With characters still unread it refuses. Otherwise the first
    turn that is not a wait decides: its data, at most 504 bytes, stands behind
    the 8-byte gap and is exactly the get area; or its error is reported and the
    get area is left alone. */
  lemma UnderflowAnswers(s: Stream)
    requires Inv(s)
    ensures var r := Underflow(s);
            var n := LeadingWaits(s.recvs);
            if s.gptr != s.egptr then r == Result(s, EOF)
            else if n == |s.recvs| then r == Result(s.(ec := TimedOut, recvs := []), EOF)
            else
              var turn := s.recvs[n];
              if !turn.expired && turn.data != [] then
                var size := if |turn.data| < 504 then |turn.data| else 504;
                && Inv(r.s) && r.value == turn.data[0]
                && Unread(r.s) == turn.data[..size]
                && r.s.gptr == 8 && r.s.egptr == 8 + size
                && r.s.get[..8] == s.get[..8] && r.s.get[8 + size..] == s.get[8 + size..]
                && r.s.received == s.received + turn.data[..size]
                && r.s.ec == turn.ec && r.s.recvs == s.recvs[n + 1..]
              else
                var ec := if turn.expired then TimedOut
                          else if turn.closed then EndOfFile
                          else if turn.ec in {WouldBlock, TryAgain} then turn.pollEc
                          else turn.ec;
                r == Result(s.(ec := ec, recvs := s.recvs[n + 1..]), EOF)
  {
    FetchDecides(s.ec, s.recvs);
    if s.gptr == s.egptr && Fetch(s.ec, s.recvs).chunk != [] {
      LandedParts(s.get, Fetch(s.ec, s.recvs).chunk);
    }
  }

  lemma LandedParts(get: seq<Byte>, chunk: seq<Byte>)
    requires |get| == 512 && |chunk| <= 504
    ensures var g := Landed(get, chunk);
            && |g| == 512 && g[..8] == get[..8]
            && g[8..8 + |chunk|] == chunk && g[8 + |chunk|..] == get[8 + |chunk|..]
  {
  }

  /** Everything that a script still holds for the reader: the data of its turns, in
    order, each cut to the 504 bytes that `recv` is offered. */
  function Arriving(recvs: seq<RecvTurn>): seq<Byte>
    decreases |recvs|
  {
    if recvs == [] then []
    else
      var turn := recvs[0];
      (if turn.expired then [] else turn.data[..if |turn.data| < 504 then |turn.data| else 504])
      + Arriving(recvs[1..])
  }

  lemma {:induction false} FetchTakesInOrder(ec: ErrorCode, recvs: seq<RecvTurn>)
    ensures Fetch(ec, recvs).chunk + Arriving(Fetch(ec, recvs).recvs) == Arriving(recvs)
    decreases |recvs|
  {
    if recvs != [] {
      if Waits(recvs[0]) {
        FetchTakesInOrder(recvs[0].pollEc, recvs[1..]);
      }
      assert [] + Arriving(recvs[1..]) == Arriving(recvs[1..]);
    }
  }

  lemma StepTakesInOrder(s: Stream, op: Op)
    requires Inv(s)
    ensures var t := Step(s, op).s;
            t.received + Arriving(t.recvs) == s.received + Arriving(s.recvs)
  {
    FetchTakesInOrder(s.ec, s.recvs);
    var f := Fetch(s.ec, s.recvs);
    Regroup(s.received, f.chunk, Arriving(f.recvs));
    assert s.received + [] == s.received;
  }

  /** The input part of a step with result `r`: nothing received is lost,
    reordered or delivered twice, a reader gets the first byte that is unread,
    and end of file only if there is none. */
  predicate InputStep(s: Stream, op: Op, r: Result)
    requires Inv(s) && Inv(r.s)
  {
    && s.received <= r.s.received
    && Unread(s) + r.s.received[|s.received|..] == Delivered(op, r.value) + Unread(r.s)
    && (op.Get? ==> r.value == if Unread(r.s) == [] then EOF else Unread(r.s)[0])
    && (op.Bump? && r.value == EOF ==> Unread(r.s) == [])
  }

  lemma StepInput(s: Stream, op: Op)
    requires Inv(s)
    ensures Inv(Step(s, op).s) && InputStep(s, op, Step(s, op))
  {
    match op
    case Get =>
      GetInput(s);
    case Bump => BumpInput(s);
    case _ => OutputKeepsInput(s, op);
  }

  lemma BumpInput(s: Stream)
    requires Inv(s)
    ensures Inv(Sbumpc(s).s) && InputStep(s, Bump, Sbumpc(s))
  {
    GetInput(s);
    GetKeepsOutput(s);
    var t, r := Sgetc(s).s, Sbumpc(s);
    if r.value != EOF {
      assert Unread(t) == [r.value] + Unread(r.s);
    }
  }

  lemma OutputKeepsInput(s: Stream, op: Op)
    requires Inv(s) && !op.Get? && !op.Bump?
    ensures var r := Step(s, op);
            && Inv(r.s)
            && Unread(r.s) == Unread(s)
            && s.received <= r.s.received && r.s.received[|s.received|..] == []
            && Delivered(op, r.value) == []
  {
    StepOutput(s, op);
  }

  lemma GetInput(s: Stream)
    requires Inv(s)
    ensures var r := Sgetc(s);
            && Inv(r.s)
            && s.received <= r.s.received
            && Unread(r.s) == Unread(s) + r.s.received[|s.received|..]
            && r.value == if Unread(r.s) == [] then EOF else Unread(r.s)[0]
  {
    var r := Sgetc(s);
    if s.gptr == s.egptr {
      var f := Fetch(s.ec, s.recvs);
      if f.chunk != [] {
        assert Unread(r.s) == f.chunk;
        assert (s.received + f.chunk)[|s.received|..] == f.chunk;
      }
    }
  }

  function Run(s: Stream, ops: seq<Op>): Stream
    requires Inv(s)
    decreases |ops|
  {
    if ops == [] then s
    else
      StepOutput(s, ops[0]);
      Run(Step(s, ops[0]).s, ops[1..])
  }

  function Written(s: Stream, ops: seq<Op>): seq<Byte>
    requires Inv(s)
    decreases |ops|
  {
    if ops == [] then []
    else
      StepOutput(s, ops[0]);
      var r := Step(s, ops[0]);
      Accepted(ops[0], r.value) + Written(r.s, ops[1..])
  }

  function Read(s: Stream, ops: seq<Op>): seq<Byte>
    requires Inv(s)
    decreases |ops|
  {
    if ops == [] then []
    else
      StepOutput(s, ops[0]);
      var r := Step(s, ops[0]);
      Delivered(ops[0], r.value) + Read(r.s, ops[1..])
  }

  /** Some flush of the run is torn. */
  predicate TornRun(s: Stream, ops: seq<Op>)
    requires Inv(s)
    decreases |ops|
  {
    ops != [] && (Torn(s, ops[0]) || (StepOutput(s, ops[0]); TornRun(Step(s, ops[0]).s, ops[1..])))
  }

  /** The number of bytes that the torn flushes of the run repeat. */
  function Resent(s: Stream, ops: seq<Op>): nat
    requires Inv(s)
    decreases |ops|
  {
    if ops == [] then 0
    else
      StepOutput(s, ops[0]);
      Repeated(s, ops[0]) + Resent(Step(s, ops[0]).s, ops[1..])
  }

  /** Over any run, whatever the sends do: what is on the wire and what is pending
    are, together, what was there before followed by what was written, if and
    only if no flush is torn. Torn flushes add exactly what they repeat. */
  lemma {:induction false} OutputExactIff(s: Stream, ops: seq<Op>)
    requires Inv(s)
    ensures var t := Run(s, ops);
            && Inv(t)
            && (t.wire + t.pending == s.wire + s.pending + Written(s, ops) <==> !TornRun(s, ops))
            && |t.wire + t.pending| == |s.wire + s.pending| + |Written(s, ops)| + Resent(s, ops)
            && (Resent(s, ops) > 0 <==> TornRun(s, ops))
    decreases |ops|
  {
    if ops == [] {
      assert s.wire + s.pending + [] == s.wire + s.pending;
    } else {
      StepOutput(s, ops[0]);
      var r := Step(s, ops[0]);
      OutputExactIff(r.s, ops[1..]);
      Regroup(s.wire + s.pending, Accepted(ops[0], r.value), Written(r.s, ops[1..]));
    }
  }

  lemma Regroup(a: seq<Byte>, b: seq<Byte>, c: seq<Byte>)
    ensures a + (b + c) == (a + b) + c
    ensures |a + (b + c)| == |a| + |b| + |c|
  {
  }

  /** Without a put buffer no flush can be torn, so the wire holds exactly what was
    written, whichever sends fail. */
  lemma {:induction false} UnbufferedNeverTorn(s: Stream, ops: seq<Op>)
    requires Inv(s) && !s.buffered
    ensures !TornRun(s, ops)
    ensures Inv(Run(s, ops)) && !Run(s, ops).buffered && Run(s, ops).pending == []
    ensures Run(s, ops).wire == s.wire + Written(s, ops)
    decreases |ops|
  {
    OutputExactIff(s, ops);
    if ops != [] {
      StepOutput(s, ops[0]);
      UnbufferedNeverTorn(Step(s, ops[0]).s, ops[1..]);
    }
    assert s.pending == [] && s.wire + [] == s.wire;
    assert Run(s, ops).wire + [] == Run(s, ops).wire;
  }

  /** After a successful sync of a new stream the wire holds exactly the bytes
    written, unless an earlier flush was torn. */
  lemma SyncedWire(s: Stream, ops: seq<Op>)
    requires Inv(s) && IsNew(s) && !TornRun(s, ops)
    ensures Inv(Run(s, ops))
    ensures var r := Sync(Run(s, ops));
            r.value != EOF ==> r.s.wire == Written(s, ops) && r.s.pending == []
  {
    OutputExactIff(s, ops);
    StepOutput(Run(s, ops), Flushing);
    var r := Sync(Run(s, ops));
    assert [] + [] + Written(s, ops) == Written(s, ops);
    assert r.s.wire + [] == r.s.wire;
    assert Written(s, ops) + [] == Written(s, ops);
  }

  /** Two runs whose writers were told the same, one with the put buffer and one
    that drops it at the start, put the same bytes on the wire. */
  lemma SameWritingsSameWire(s: Stream, ops: seq<Op>, u: Stream, ops': seq<Op>)
    requires Inv(s) && IsNew(s) && !TornRun(s, ops)
    requires Inv(u) && IsNew(u)
    ensures var v := Setbuf(u, true, 0).s;
            && Inv(v) && !v.buffered
            && Inv(Run(s, ops))
            && (Written(s, ops) == Written(v, ops') && Sync(Run(s, ops)).value != EOF ==>
                  Sync(Run(s, ops)).s.wire == Run(v, ops').wire)
  {
    var v := Setbuf(u, true, 0).s;
    SyncedWire(s, ops);
    UnbufferedNeverTorn(v, ops');
    assert [] + Written(v, ops') == Written(v, ops');
  }

  // ------------------------------------------------ When every write is accepted

  /** The characters that a run tries to write. */
  function Attempted(ops: seq<Op>): seq<Byte>
    decreases |ops|
  {
    if ops == [] then [] else (if ops[0].Put? then [ops[0].c] else []) + Attempted(ops[1..])
  }

  /** How many sends take something before the first turn that stops the loop.
    Each of them may take as little as one byte. */
  function Takes(sends: seq<SendTurn>): nat
    decreases |sends|
  {
    if sends == [] || !GoesOn(sends[0]) then 0
    else (if sends[0].bytes > 0 then 1 else 0) + Takes(sends[1..])
  }

  /** A socket that takes something often enough takes everything, and a flush
    costs no more sends than it has bytes. */
  lemma {:induction false} FlushCost(out: seq<Byte>, ec: ErrorCode, sends: seq<SendTurn>)
    requires Takes(sends) >= |out|
    ensures Offered(sends) >= |out|
    ensures Flush(out, ec, sends).ok
    ensures Takes(Flush(out, ec, sends).sends) >= Takes(sends) - |out|
    decreases |sends|
  {
    if out != [] {
      var turn, rest := sends[0], sends[1..];
      if turn.bytes > 0 {
        FlushCost(out[Min(turn.bytes, |out|)..], turn.ec, rest);
      } else {
        FlushCost(out, turn.pollEc, rest);
      }
    }
  }

  /** A step that the socket can pay for, with enough left for what is pending
    afterwards. */
  lemma StepAccepts(s: Stream, op: Op)
    requires Inv(s) && Takes(s.sends) >= |s.pending| + |Attempted([op])|
    ensures var r := Step(s, op);
            && Inv(r.s) && !Torn(s, op)
            && Accepted(op, r.value) == Attempted([op])
            && (op.Flushing? ==> r.value != EOF)
            && Takes(r.s.sends) - |r.s.pending| >= Takes(s.sends) - |s.pending| - |Attempted([op])|
  {
    StepOutput(s, op);
    assert [op][1..] == [];
    if Flushes(s, op) && (s.buffered || op.Put?) {
      FlushCost(if s.buffered then s.pending else [op.c], s.ec, s.sends);
    }
  }

  lemma {:induction false} RunAccepts(s: Stream, ops: seq<Op>)
    requires Inv(s) && Takes(s.sends) >= |s.pending| + |Attempted(ops)|
    ensures !TornRun(s, ops) && Written(s, ops) == Attempted(ops)
    ensures Inv(Run(s, ops)) && Takes(Run(s, ops).sends) >= |Run(s, ops).pending|
    decreases |ops|
  {
    if ops != [] {
      assert Attempted(ops) == Attempted([ops[0]]) + Attempted(ops[1..]) by {
        assert [ops[0]][1..] == [];
      }
      StepAccepts(s, ops[0]);
      RunAccepts(Step(s, ops[0]).s, ops[1..]);
    }
  }

  /** Buffering is invisible: on two sockets that each take something at least once
    per character written, in whatever portions and after whatever waits, the
    same operations put the same bytes on the wire with the put buffer and
    without it, and these are the characters written. */
  lemma BufferingInvisible(s: Stream, u: Stream, ops: seq<Op>)
    requires Inv(s) && IsNew(s) && Takes(s.sends) >= |Attempted(ops)|
    requires Inv(u) && IsNew(u) && Takes(u.sends) >= |Attempted(ops)|
    ensures var v := Setbuf(u, true, 0).s;
            && Inv(v) && Inv(Run(s, ops)) && Inv(Run(v, ops))
            && Sync(Run(s, ops)).value != EOF && Sync(Run(v, ops)).value != EOF
            && Sync(Run(s, ops)).s.wire == Attempted(ops)
            && Sync(Run(v, ops)).s.wire == Attempted(ops)
            && Run(v, ops).wire == Attempted(ops)
  {
    var v := Setbuf(u, true, 0).s;
    RunAccepts(s, ops);
    RunAccepts(v, ops);
    StepAccepts(Run(s, ops), Flushing);
    StepAccepts(Run(v, ops), Flushing);
    SyncedWire(s, ops);
    UnbufferedNeverTorn(v, ops);
    assert [] + Written(v, ops) == Written(v, ops);
  }

  /** A flush that fails half-way makes the next one send bytes twice: two
    characters written, the first sent before an error, and then a good sync. */
  lemma FailedFlushRepeatsBytes(s: Stream)
    requires Inv(s) && IsNew(s)
    requires s.sends == [SendTurn(false, 1, Success, 0, Success),
                         SendTurn(false, -1, OtherError(104), 0, Success),
                         SendTurn(false, 2, Success, 0, Success)]
    ensures var t := Sputc(Sputc(s, 97).s, 98).s;
            && t.pending == [97, 98]
            && Sync(t).value == EOF
            && Sync(Sync(t).s).value != EOF
            && Sync(Sync(t).s).s.wire == [97, 97, 98]
  {
    var t := Sputc(Sputc(s, 97).s, 98).s;
    assert t.pending == [97, 98];
    var one, bad, two := s.sends[0], s.sends[1], s.sends[2];
    assert s.sends[1..] == [bad, two] && [bad, two][1..] == [two];
    assert [97, 98][1..] == [98];
    assert Flush([98], Success, [bad, two]) == Flushed(false, [], OtherError(104), [two]);
    assert Flush([97, 98], t.ec, s.sends) == Flushed(false, [97], OtherError(104), [two]);
    assert Sync(t).s.pending == [97, 98] && Sync(t).s.wire == [97];
    assert Flush([], Success, []) == Flushed(true, [], Success, []);
    assert [two][1..] == [] && [97, 98][2..] == [] && [97, 98][..2] == [97, 98];
    assert Flush([97, 98], OtherError(104), [two]).sent == [97, 98];
  }

  /** Over any run, whatever the receives do: what was unread, followed by all
    chunks received, is all characters delivered, followed by what is unread. */
  lemma {:induction false} InputExact(s: Stream, ops: seq<Op>)
    requires Inv(s)
    ensures var t := Run(s, ops);
            && Inv(t)
            && s.received <= t.received
            && Unread(s) + t.received[|s.received|..] == Read(s, ops) + Unread(t)
    decreases |ops|
  {
    if ops == [] {
      assert s.received[|s.received|..] == [];
      assert Unread(s) + [] == Unread(s) && [] + Unread(s) == Unread(s);
    } else {
      StepOutput(s, ops[0]);
      StepInput(s, ops[0]);
      var r := Step(s, ops[0]);
      InputExact(r.s, ops[1..]);
      ReceivedInTwo(s, r.s, Run(s, ops));
      Chain(Unread(s), r.s.received[|s.received|..], Run(s, ops).received[|r.s.received|..],
            Delivered(ops[0], r.value), Unread(r.s), Read(r.s, ops[1..]), Unread(Run(s, ops)));
    }
  }

  lemma ReceivedInTwo(s: Stream, r: Stream, t: Stream)
    requires s.received <= r.received <= t.received
    ensures s.received <= t.received
    ensures t.received[|s.received|..] == r.received[|s.received|..] + t.received[|r.received|..]
  {
  }

  /** Over any run, what `recv` has delivered and what the script still holds for
    the reader are, together and in order, what they were before. */
  lemma {:induction false} ReceivedInOrder(s: Stream, ops: seq<Op>)
    requires Inv(s)
    ensures var t := Run(s, ops);
            t.received + Arriving(t.recvs) == s.received + Arriving(s.recvs)
    decreases |ops|
  {
    if ops != [] {
      StepOutput(s, ops[0]);
      StepTakesInOrder(s, ops[0]);
      ReceivedInOrder(Step(s, ops[0]).s, ops[1..]);
    }
  }

  /** From a new stream: what was read, then what is unread, then what is still to
    come, is everything that the peer's script holds, in order. */
  lemma NewStreamInput(s: Stream, ops: seq<Op>)
    requires Inv(s) && IsNew(s)
    ensures Inv(Run(s, ops))
    ensures Run(s, ops).received == Read(s, ops) + Unread(Run(s, ops))
    ensures Read(s, ops) + Unread(Run(s, ops)) + Arriving(Run(s, ops).recvs) == Arriving(s.recvs)
  {
    InputExact(s, ops);
    ReceivedInOrder(s, ops);
    assert Unread(s) == [];
    assert [] + Arriving(s.recvs) == Arriving(s.recvs);
  }

  // ------------------------------------------------------------ The size of the put area

  /** The operations that write the given characters. */
  function Puts(cs: seq<Byte>): seq<Op> {
    if cs == [] then [] else [Put(cs[0])] + Puts(cs[1..])
  }

  /** A stream with a put buffer sends nothing as long as no more than 512
    characters are pending. */
  lemma {:induction false} QuietUntilFull(s: Stream, cs: seq<Byte>)
    requires Inv(s) && s.buffered && |s.pending| + |cs| <= 512
    ensures Run(s, Puts(cs)) == s.(pending := s.pending + cs)
    ensures Written(s, Puts(cs)) == cs
    decreases |cs|
  {
    if cs == [] {
      assert s.pending + [] == s.pending;
    } else {
      PutStores(s, cs[0]);
      RunFirst(s, Put(cs[0]), Puts(cs[1..]));
      QuietUntilFull(Step(s, Put(cs[0])).s, cs[1..]);
      assert (s.pending + [cs[0]]) + cs[1..] == s.pending + cs;
    }
  }

  lemma PutStores(s: Stream, c: Byte)
    requires Inv(s) && s.buffered && |s.pending| < 512
    ensures Step(s, Put(c)) == Result(s.(pending := s.pending + [c]), c)
    ensures Inv(Step(s, Put(c)).s)
    ensures Accepted(Put(c), Step(s, Put(c)).value) == [c]
  {
  }

  lemma RunFirst(s: Stream, op: Op, ops: seq<Op>)
    requires Inv(s)
    ensures Inv(Step(s, op).s)
    ensures Run(s, [op] + ops) == Run(Step(s, op).s, ops)
    ensures Written(s, [op] + ops) == Accepted(op, Step(s, op).value) + Written(Step(s, op).s, ops)
  {
    StepOutput(s, op);
    assert ([op] + ops)[1..] == ops;
  }

  /** The 513th character makes it flush; without a put buffer every character
    does. */
  lemma FullAreaFlushes(s: Stream, c: Byte)
    requires Inv(s) && (s.buffered ==> |s.pending| == 512)
    ensures Sputc(s, c) == Overflow(s, c)
  {
  }
}
