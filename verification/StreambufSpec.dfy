/** `asio::basic_streambuf` on values: one resizable array with a get area and a
  put area, written as offsets into the array. The get area always starts at
  offset 0 (`eback`), so that pointer has no field. */
module StreambufSpec {
  import opened Chars

  const BUFFER_DELTA := 128
  const INT_MAX := 0x7FFF_FFFF

  datatype Sb = Sb(
    maxSize: nat,
    data: seq<Byte>,
    capacity: nat,
    gptr: int,
    egptr: int,
    pbase: int,
    pptr: int,
    epptr: int)
  {
    function Size(): int {
      pptr - gptr
    }

    function Room(): int {
      epptr - pptr
    }
  }

  /** The documented invariant `size() <= max_size()` and what it rests on. */
  ghost predicate Inv(s: Sb) {
    && 0 <= s.gptr <= s.egptr <= s.pptr <= s.epptr <= s.maxSize
    && 0 <= s.pbase <= s.pptr
    && |s.data| == Max(s.epptr, 1)
    && |s.data| <= s.capacity
  }

  /** The input sequence: the bytes queued and not yet taken. */
  ghost function Queue(s: Sb): seq<Byte>
    requires Inv(s)
    ensures |Queue(s)| == s.Size() <= s.maxSize
  {
    s.data[s.gptr..s.pptr]
  }

  /** The put area: the bytes that a commit would append. */
  ghost function Area(s: Sb): seq<Byte>
    requires Inv(s)
    ensures |Area(s)| == s.Room()
  {
    s.data[s.pptr..s.epptr]
  }

  /** `static_cast<int>` of a `size_t`: keeps the low 32 bits, in two's
    complement. */
  function ToInt(n: nat): int {
    var low := n % 0x1_0000_0000;
    if low <= INT_MAX then low else low - 0x1_0000_0000
  }

  lemma CastExactIff(n: nat)
    ensures ToInt(n) == n <==> n <= INT_MAX
  {
  }

  function Zeros(n: nat): seq<Byte> {
    seq(n, i => 0)
  }

  /** `vector::resize`: keeps the prefix and fills with zeros. `grow` is the
    capacity the vector picks if it has to reallocate. */
  function Resize(data: seq<Byte>, n: nat): seq<Byte> {
    if n <= |data| then data[..n] else data + Zeros(n - |data|)
  }

  function Capacity(capacity: nat, n: nat, grow: nat): (r: nat)
    ensures r >= n && r >= capacity
    ensures n <= capacity ==> r == capacity
    ensures capacity < n <= grow ==> r == grow
  {
    if n <= capacity then capacity else Max(grow, n)
  }

  /** `memmove` of the bytes from `from` to `to` down to the start. */
  function MoveDown(data: seq<Byte>, from: nat, to: nat): seq<Byte>
    requires from <= to <= |data|
  {
    data[from..to] + data[to - from..]
  }

  /** The constructor: the invariant holds for every maximum size, zero
    included. */
  function Init(maxSize: nat, grow: nat): (s: Sb)
    ensures Inv(s) && Queue(s) == [] && s.maxSize == maxSize
    ensures s.Room() == if maxSize < 128 then maxSize else 128
    ensures s.gptr == s.pptr == 0 && forall i :: 0 <= i < |s.data| ==> s.data[i] == 0
  {
    var pend := Min(maxSize, BUFFER_DELTA);
    var size := Max(pend, 1);
    Sb(maxSize, Resize([], size), Capacity(0, size, grow), 0, 0, 0, 0, pend)
  }

  /** An operation either completes or throws `length_error`; both leave a state
    behind. */
  datatype Attempt = Done(s: Sb) | LengthError(s: Sb)

  /** The bytes after the shift of the get area to the start of the buffer. */
  function Shifted(s: Sb): seq<Byte>
    requires Inv(s)
  {
    if s.gptr > 0 then MoveDown(s.data, s.gptr, s.pptr) else s.data
  }

  function Reserve(s: Sb, n: nat, grow: nat): Attempt
    requires Inv(s)
  {
    if n <= s.Room() then Done(s)
    else
      var pnext := s.Size();
      if n <= s.epptr - pnext then
        Done(s.(data := Shifted(s), gptr := 0, egptr := pnext, pbase := pnext, pptr := pnext))
      else if n <= s.maxSize && pnext <= s.maxSize - n then
        var pend := pnext + n;
        var size := Max(pend, 1);
        Done(s.(data := Resize(Shifted(s), size), capacity := Capacity(s.capacity, size, grow),
             gptr := 0, egptr := pnext, pbase := pnext, pptr := pnext, epptr := pend))
      else
        LengthError(s.(data := Shifted(s)))
  }

  /** The caller fills the buffer that `prepare` returned. */
  function Fill(s: Sb, bs: seq<Byte>): Sb
    requires Inv(s) && |bs| <= s.Room()
  {
    s.(data := s.data[..s.pptr] + bs + s.data[s.pptr + |bs|..])
  }

  function Commit(s: Sb, n: nat): Sb
    requires s.pptr <= s.epptr
  {
    var next := s.pptr + ToInt(Min(n, s.Room()));
    s.(pptr := next, egptr := next)
  }

  function Consume(s: Sb, n: nat): Sb
    requires s.gptr <= s.pptr
  {
    var egptr := if s.egptr < s.pptr then s.pptr else s.egptr;
    s.(egptr := egptr, gptr := s.gptr + ToInt(if s.gptr + n > s.pptr then s.Size() else n))
  }

  function PutChar(s: Sb, c: Byte): Sb
    requires Inv(s) && s.pptr < s.epptr
  {
    s.(data := s.data[s.pptr := c], pptr := s.pptr + 1)
  }

  /** How much room `overflow` asks for: 128 bytes, or what is left up to the
    maximum if that is less and not nothing. */
  function Growth(s: Sb): (n: nat)
    ensures 0 < n <= 128
    ensures s.Size() + n > s.maxSize <==> s.Size() >= s.maxSize
    ensures n < 128 ==> s.Size() + n == s.maxSize
  {
    if s.Size() < s.maxSize && s.maxSize - s.Size() < BUFFER_DELTA then s.maxSize - s.Size() else BUFFER_DELTA
  }

  /** `overflow`: end of file is not stored. */
  function Overflow(s: Sb, c: int, grow: nat): Attempt
    requires Inv(s)
  {
    if c == EOF then Done(s)
    else if s.pptr < s.epptr then Done(PutChar(s, ToCharType(c)))
    else
      ReserveKeeps(s, Growth(s), grow);
      match Reserve(s, Growth(s), grow)
      case Done(t) => Done(PutChar(t, ToCharType(c)))
      case LengthError(t) => LengthError(t)
  }

  /** `sputc`: stores into the put area, or calls `overflow`. */
  function Sputc(s: Sb, c: Byte, grow: nat): Attempt
    requires Inv(s)
  {
    if s.pptr < s.epptr then Done(PutChar(s, c)) else Overflow(s, c, grow)
  }

  datatype Peek = Peek(s: Sb, result: int)

  function Underflow(s: Sb): Peek
    requires Inv(s)
  {
    if s.gptr < s.pptr then Peek(s.(egptr := s.pptr), s.data[s.gptr]) else Peek(s, EOF)
  }

  /** `sgetc`: reads from the get area, or calls `underflow`. */
  function Sgetc(s: Sb): Peek
    requires Inv(s)
  {
    if s.gptr < s.egptr then Peek(s, s.data[s.gptr]) else Underflow(s)
  }

  /** `sbumpc`: as `sgetc`, and steps over the character if there is one. */
  function Sbumpc(s: Sb): Peek
    requires Inv(s)
  {
    var p := Sgetc(s);
    if p.result == EOF then p else Peek(p.s.(gptr := p.s.gptr + 1), p.result)
  }

  /** The size that reads ask for: `read_size_helper`. */
  function ReadSize(s: Sb, limit: nat): (r: int)
    requires Inv(s)
    ensures s.capacity - s.Size() >= 0 && s.maxSize - s.Size() >= 0
    ensures 0 <= r <= limit && s.Size() + r <= s.maxSize
    ensures r > 0 <==> s.Size() < s.maxSize && limit > 0
    ensures Min(512, Min(limit, s.maxSize - s.Size())) <= r <= Max(512, s.capacity - s.Size())
    ensures Min(s.capacity - s.Size(), Min(limit, s.maxSize - s.Size())) <= r
  {
    Min(Max(512, s.capacity - s.Size()), Min(limit, s.maxSize - s.Size()))
  }

  // ------------------------------------------------------- What reserve keeps

  /** Every part of `reserve`: it fails exactly when the request does not fit
    under the maximum; when it succeeds there is room, the queue is what it
    was, and a put area that was large enough is left alone; when it fails no
    position has moved. */
  lemma ReserveKeeps(s: Sb, n: nat, grow: nat)
    requires Inv(s)
    ensures var r := Reserve(s, n, grow);
            && Inv(r.s)
            && r.s.maxSize == s.maxSize
            && (r.LengthError? <==> s.Size() + n > s.maxSize)
            && (r.Done? ==> Queue(r.s) == Queue(s) && r.s.Room() >= n)
            && (n <= s.Room() ==> r == Done(s))
            && (r.LengthError? ==> r.s == s.(data := r.s.data))
  {
    if n > s.Room() {
      ShiftedQueue(s);
      var pnext := s.Size();
      if n > s.epptr - pnext && n <= s.maxSize && pnext <= s.maxSize - n {
        ResizeKeepsPrefix(Shifted(s), Max(pnext + n, 1), pnext);
      }
    }
  }

  lemma ReserveValid(s: Sb, n: nat, grow: nat)
    requires Inv(s)
    ensures Inv(Reserve(s, n, grow).s)
  {
    ReserveKeeps(s, n, grow);
  }

  lemma ShiftedQueue(s: Sb)
    requires Inv(s)
    ensures |Shifted(s)| == |s.data| && Shifted(s)[..s.Size()] == Queue(s)
  {
  }

  lemma ResizeKeepsPrefix(data: seq<Byte>, n: nat, k: nat)
    requires k <= |data| && k <= n
    ensures |Resize(data, n)| == n && Resize(data, n)[..k] == data[..k]
  {
  }

  lemma PutCharQueues(s: Sb, c: Byte)
    requires Inv(s) && s.pptr < s.epptr
    ensures var t := PutChar(s, c);
            Inv(t) && Queue(t) == Queue(s) + [c] && Area(t) == Area(s)[1..]
  {
  }

  /** After a `reserve` that had work to do, the get area starts at the start of
    the buffer and both areas meet at the end of the queue. Behind the queue the
    bytes are what they were, and zero where the buffer has grown. */
  lemma ReserveResets(s: Sb, n: nat, grow: nat)
    requires Inv(s) && n > s.Room() && s.Size() + n <= s.maxSize
    ensures var t := Reserve(s, n, grow).s;
            && t.gptr == 0
            && t.pbase == t.pptr == t.egptr == s.Size()
            && t.epptr == Max(s.epptr, s.Size() + n)
            && t.capacity >= s.capacity
            && (forall i :: s.Size() <= i < |s.data| ==> t.data[i] == s.data[i])
            && (forall i :: |s.data| <= i < |t.data| ==> t.data[i] == 0)
  {
    ReserveKeeps(s, n, grow);
  }
}
