/** `asio::basic_streambuf` as it is written: an array that is moved and
  replaced, and pointers that every operation updates. */
module Streambuf {
  import opened Chars
  import Spec = StreambufSpec

  class BasicStreambuf {
    const maxSize: nat
    var buffer: array<Byte>
    var capacity: nat
    var gptr: int
    var egptr: int
    var pbase: int
    var pptr: int
    var epptr: int

    ghost function View(): Spec.Sb
      reads this, buffer
    {
      Spec.Sb(maxSize, buffer[..], capacity, gptr, egptr, pbase, pptr, epptr)
    }

    ghost predicate Valid()
      reads this, buffer
    {
      Spec.Inv(View())
    }

    constructor (maximumSize: nat, grow: nat)
      ensures View() == Spec.Init(maximumSize, grow)
      ensures Valid() && fresh(buffer)
    {
      maxSize := maximumSize;
      var pend := Min(maximumSize, Spec.BUFFER_DELTA);
      buffer := new Byte[Max(pend, 1)](i => 0);
      capacity := Spec.Capacity(0, Max(pend, 1), grow);
      gptr, egptr, pbase, pptr, epptr := 0, 0, 0, 0, pend;
      new;
      assert buffer[..] == Spec.Resize([], Max(pend, 1));
    }

    method SetG(gnext: int, gend: int)
      modifies this`gptr, this`egptr
      ensures gptr == gnext && egptr == gend
    {
      gptr, egptr := gnext, gend;
    }

    /** `memmove` of the bytes from `from` to `to` down to the start. */
    method MoveDown(from: nat, to: nat)
      requires from <= to <= buffer.Length
      modifies buffer
      ensures buffer[..] == Spec.MoveDown(old(buffer[..]), from, to)
    {
      forall i | 0 <= i < to - from {
        buffer[i] := buffer[from + i];
      }
    }

    /** `vector::resize`. */
    method Resize(n: nat, grow: nat)
      modifies this`buffer, this`capacity
      ensures fresh(buffer)
      ensures buffer[..] == Spec.Resize(old(buffer[..]), n)
      ensures capacity == Spec.Capacity(old(capacity), n, grow)
    {
      var was := buffer;
      var next := new Byte[n](i => 0);
      forall i | 0 <= i < Min(n, was.Length) {
        next[i] := was[i];
      }
      buffer := next;
      capacity := Spec.Capacity(capacity, n, grow);
    }

    /** `setg` and `setp` as `reserve` calls them. */
    method SetAreas(pnext: int, pend: int)
      modifies this`gptr, this`egptr, this`pbase, this`pptr, this`epptr
      ensures gptr == 0 && egptr == pbase == pptr == pnext && epptr == pend
    {
      gptr, egptr := 0, pnext;
      pbase, pptr, epptr := pnext, pnext, pend;
    }

    /** The part of `reserve` behind its early return. */
    method MakeRoom(n: nat, grow: nat) returns (ok: bool)
      requires Valid() && n > epptr - pptr
      modifies this, buffer
      ensures buffer == old(buffer) || fresh(buffer)
      ensures View() == Spec.Reserve(old(View()), n, grow).s
      ensures ok == Spec.Reserve(old(View()), n, grow).Done?
    {
      var gnext, pnext, pend := gptr, pptr, epptr;
      if gnext > 0 {
        pnext := pnext - gnext;
        MoveDown(gnext, gnext + pnext);
      }
      assert buffer[..] == Spec.Shifted(old(View()));
      if n > pend - pnext {
        if n <= maxSize && pnext <= maxSize - n {
          pend := pnext + n;
          Resize(Max(pend, 1), grow);
        } else {
          return false;
        }
      }
      SetAreas(pnext, pend);
      return true;
    }

    /** False stands for the `length_error` that is thrown. */
    method Reserve(n: nat, grow: nat) returns (ok: bool)
      requires Valid()
      modifies this, buffer
      ensures Valid() && (buffer == old(buffer) || fresh(buffer))
      ensures View() == Spec.Reserve(old(View()), n, grow).s
      ensures ok == Spec.Reserve(old(View()), n, grow).Done?
    {
      Spec.ReserveValid(View(), n, grow);
      if n <= epptr - pptr {
        return true;
      }
      ok := MakeRoom(n, grow);
    }

    /** On success the caller may fill `n` bytes from the start of the put area;
      false stands for `length_error`. */
    method Prepare(n: nat, grow: nat) returns (ok: bool)
      requires Valid()
      modifies this, buffer
      ensures Valid() && (buffer == old(buffer) || fresh(buffer))
      ensures View() == Spec.Reserve(old(View()), n, grow).s
      ensures ok <==> old(View()).Size() + n <= maxSize
      ensures ok ==> Spec.Queue(View()) == Spec.Queue(old(View())) && View().Room() >= n
    {
      ghost var was := View();
      Spec.ReserveKeeps(was, n, grow);
      ok := Reserve(n, grow);
    }

    /** The caller fills the start of the put area. */
    method Fill(bytes: seq<Byte>)
      requires Valid() && |bytes| <= epptr - pptr
      modifies buffer
      ensures View() == Spec.Fill(old(View()), bytes)
      ensures Valid()
    {
      forall i | 0 <= i < |bytes| {
        buffer[pptr + i] := bytes[i];
      }
    }

    method Pbump(n: int)
      modifies this`pptr
      ensures pptr == old(pptr) + n
    {
      pptr := pptr + n;
    }

    method Gbump(n: int)
      modifies this`gptr
      ensures gptr == old(gptr) + n
    {
      gptr := gptr + n;
    }

    method Commit(n: nat)
      requires Valid()
      modifies this
      ensures View() == Spec.Commit(old(View()), n)
      ensures Min(n, old(View()).Room()) <= Spec.INT_MAX ==> Valid()
      ensures buffer == old(buffer)
    {
      var k := Min(n, epptr - pptr);
      Spec.CastExactIff(k);
      Pbump(Spec.ToInt(k));
      SetG(gptr, pptr);
    }

    method Consume(n: nat)
      requires Valid()
      modifies this
      ensures View() == Spec.Consume(old(View()), n)
      ensures Min(n, old(View()).Size()) <= Spec.INT_MAX ==> Valid()
      ensures buffer == old(buffer)
    {
      if egptr < pptr {
        SetG(gptr, pptr);
      }
      var k := n;
      if gptr + n > pptr {
        k := pptr - gptr;
      }
      Spec.CastExactIff(k);
      Gbump(Spec.ToInt(k));
    }

    method Underflow() returns (result: int)
      requires Valid()
      modifies this
      ensures Valid() && buffer == old(buffer)
      ensures Spec.Peek(View(), result) == Spec.Underflow(old(View()))
    {
      if gptr < pptr {
        SetG(gptr, pptr);
        return buffer[gptr];
      } else {
        return EOF;
      }
    }

    /** `*pptr() = c` and `pbump(1)`. */
    method StoreChar(c: Byte)
      requires Valid() && pptr < epptr
      modifies this`pptr, buffer
      ensures Valid() && View() == Spec.PutChar(old(View()), c)
    {
      buffer[pptr] := c;
      assert buffer[..] == old(buffer[..])[pptr := c];
      Pbump(1);
    }

    /** The part of `overflow` that makes room for one character. */
    method MakeRoomForOne(grow: nat) returns (ok: bool)
      requires Valid() && pptr == epptr
      modifies this, buffer
      ensures Valid() && (buffer == old(buffer) || fresh(buffer))
      ensures View() == Spec.Reserve(old(View()), Spec.Growth(old(View())), grow).s
      ensures ok == Spec.Reserve(old(View()), Spec.Growth(old(View())), grow).Done?
      ensures ok ==> pptr < epptr
    {
      Spec.ReserveKeeps(View(), Spec.Growth(View()), grow);
      var bufferSize := pptr - gptr;
      if bufferSize < maxSize && maxSize - bufferSize < Spec.BUFFER_DELTA {
        ok := Reserve(maxSize - bufferSize, grow);
      } else {
        ok := Reserve(Spec.BUFFER_DELTA, grow);
      }
    }

    /** False stands for `length_error`. */
    method Overflow(c: int, grow: nat) returns (ok: bool, result: int)
      requires Valid()
      modifies this, buffer
      ensures Valid() && (buffer == old(buffer) || fresh(buffer))
      ensures View() == Spec.Overflow(old(View()), c, grow).s
      ensures ok == Spec.Overflow(old(View()), c, grow).Done?
      ensures ok ==> result == NotEof(c)
    {
      if c != EOF {
        if pptr == epptr {
          ok := MakeRoomForOne(grow);
          if !ok {
            return false, EOF;
          }
        }
        StoreChar(ToCharType(c));
        return true, c;
      }
      return true, NotEof(c);
    }

    method ReadSizeHelper(limit: nat) returns (r: int)
      requires Valid()
      ensures r == Spec.ReadSize(View(), limit)
    {
      r := Min(Max(512, capacity - (pptr - gptr)), Min(limit, maxSize - (pptr - gptr)));
    }
  }
}
