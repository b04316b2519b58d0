/** `asio::basic_socket_streambuf` as it is written: two buffers, the pointers
  into them, and the retry loops around `send` and `recv`. */
module SocketStreambuf {
  import opened Chars
  import Spec = SocketStream

  class BasicSocketStreambuf {
    var getBuffer: array<Byte>
    /** Empty in the unbuffered mode. The put area starts at offset 0. */
    var putBuffer: array<Byte>
    var gptr: int
    var egptr: int
    var pptr: int
    var epptr: int
    var ec: Spec.ErrorCode

    /** The socket: what has gone out and come in, and what is still to happen. */
    var wire: seq<Byte>
    var sends: seq<Spec.SendTurn>
    var received: seq<Byte>
    var recvs: seq<Spec.RecvTurn>

    ghost predicate Valid()
      reads this, getBuffer, putBuffer
    {
      && getBuffer != putBuffer
      && 0 <= pptr <= epptr == putBuffer.Length
      && (putBuffer.Length == 0 || putBuffer.Length == Spec.BUFFER_SIZE)
      && getBuffer.Length == Spec.BUFFER_SIZE
      && Spec.PUTBACK_MAX <= gptr <= egptr <= Spec.BUFFER_SIZE
    }

    ghost function View(): (s: Spec.Stream)
      requires Valid()
      reads this, getBuffer, putBuffer
      ensures Spec.Inv(s)
    {
      Spec.Stream(putBuffer.Length > 0, putBuffer[..pptr], getBuffer[..], gptr, egptr, ec, wire, sends, received, recvs)
    }

    constructor (sends: seq<Spec.SendTurn>, recvs: seq<Spec.RecvTurn>)
      ensures Valid() && fresh(getBuffer) && fresh(putBuffer)
      ensures Spec.IsNew(View()) && View().sends == sends && View().recvs == recvs
    {
      getBuffer := new Byte[Spec.BUFFER_SIZE](i => 0);
      putBuffer := new Byte[Spec.BUFFER_SIZE](i => 0);
      ec, wire, received := Spec.Success, [], [];
      this.sends, this.recvs := sends, recvs;
      gptr, egptr, pptr, epptr := 0, 0, 0, 0;
      new;
      InitBuffers();
    }

    /** Both areas are emptied. */
    method InitBuffers()
      requires getBuffer.Length == Spec.BUFFER_SIZE && getBuffer != putBuffer
      requires putBuffer.Length == 0 || putBuffer.Length == Spec.BUFFER_SIZE
      modifies this`gptr, this`egptr, this`pptr, this`epptr
      ensures Valid()
      ensures gptr == egptr == Spec.PUTBACK_MAX && pptr == 0
    {
      gptr, egptr := Spec.PUTBACK_MAX, Spec.PUTBACK_MAX;
      if putBuffer.Length == 0 {
        pptr, epptr := 0, 0;
      } else {
        pptr, epptr := 0, putBuffer.Length;
      }
    }

    /** The send loop: false stands for the early return of end of file. */
    method SendAll(bytes: seq<Byte>) returns (ok: bool)
      modifies this`ec, this`wire, this`sends
      ensures var f := Spec.Flush(bytes, old(ec), old(sends));
              ok == f.ok && wire == old(wire) + f.sent && ec == f.ec && sends == f.sends
    {
      var output := bytes;
      ghost var goal := Spec.Flush(bytes, ec, sends);
      ghost var sent: seq<Byte> := [];
      assert goal == goal.(sent := sent + goal.sent);
      while |output| > 0
        invariant wire == old(wire) + sent
        invariant goal == Spec.Flush(output, ec, sends).(sent := sent + Spec.Flush(output, ec, sends).sent)
        decreases |sends|
      {
        if sends == [] {
          ec := Spec.TimedOut;
          return false;
        }
        var turn := sends[0];
        if turn.bytes > 0 && !turn.expired {
          var k := Min(turn.bytes, |output|);
          ghost var after := Spec.Flush(output[k..], turn.ec, sends[1..]);
          assert sent + (output[..k] + after.sent) == (sent + output[..k]) + after.sent;
        }
        sends := sends[1..];
        if turn.expired {
          ec := Spec.TimedOut;
          return false;
        }
        ec := turn.ec;
        if turn.bytes > 0 {
          var k := Min(turn.bytes, |output|);
          wire := wire + output[..k];
          sent := sent + output[..k];
          output := output[k..];
        } else {
          if !Spec.Retry(ec) {
            return false;
          }
          ec := turn.pollEc;
          if turn.poll < 0 {
            return false;
          }
        }
      }
      return true;
    }

    method Overflow(c: int) returns (result: int)
      requires Valid()
      modifies this, putBuffer
      ensures Valid() && getBuffer == old(getBuffer) && putBuffer == old(putBuffer)
      ensures Spec.Result(View(), result) == Spec.Overflow(old(View()), c)
    {
      var ch := ToCharType(c);
      var output;
      if putBuffer.Length == 0 {
        if c == EOF {
          return NotEof(c);
        }
        output := [ch];
      } else {
        output := putBuffer[..pptr];
      }
      var ok := SendAll(output);
      if !ok {
        return EOF;
      }
      if putBuffer.Length > 0 {
        pptr, epptr := 0, putBuffer.Length;
        if c == EOF {
          return NotEof(c);
        }
        putBuffer[pptr] := ch;
        pptr := pptr + 1;
        assert putBuffer[..pptr] == [ch];
      }
      return c;
    }

    method Sync() returns (result: int)
      requires Valid()
      modifies this, putBuffer
      ensures Valid() && getBuffer == old(getBuffer) && putBuffer == old(putBuffer)
      ensures Spec.Result(View(), result) == Spec.Sync(old(View()))
    {
      result := Overflow(EOF);
    }

    method Setbuf(isNull: bool, n: int) returns (accepted: bool)
      requires Valid()
      modifies this, putBuffer
      ensures Valid() && getBuffer == old(getBuffer) && (putBuffer == old(putBuffer) || fresh(putBuffer))
      ensures Spec.Result(View(), if accepted then 1 else 0) == Spec.Setbuf(old(View()), isNull, n)
    {
      if pptr == 0 && isNull && n == 0 {
        putBuffer := new Byte[0];
        pptr, epptr := 0, 0;
        var _ := Sync();
        return true;
      }
      return false;
    }

    /** `sputc` of the base class. */
    method Sputc(c: Byte) returns (result: int)
      requires Valid()
      modifies this, putBuffer
      ensures Valid() && getBuffer == old(getBuffer) && putBuffer == old(putBuffer)
      ensures Spec.Result(View(), result) == Spec.Sputc(old(View()), c)
    {
      if pptr < epptr {
        putBuffer[pptr] := c;
        pptr := pptr + 1;
        assert putBuffer[..pptr] == old(putBuffer[..pptr]) + [c];
        return c;
      }
      result := Overflow(c);
    }

    /** The receive loop: no bytes stand for the early return of end of file. */
    method ReceiveSome() returns (chunk: seq<Byte>)
      modifies this`ec, this`recvs
      ensures Spec.Fetched(chunk, ec, recvs) == Spec.Fetch(old(ec), old(recvs))
    {
      ghost var goal := Spec.Fetch(ec, recvs);
      while true
        invariant Spec.Fetch(ec, recvs) == goal
        decreases |recvs|
      {
        if recvs == [] {
          ec := Spec.TimedOut;
          return [];
        }
        var turn := recvs[0];
        recvs := recvs[1..];
        if turn.expired {
          ec := Spec.TimedOut;
          return [];
        }
        ec := turn.ec;
        if turn.data != [] {
          return turn.data[..Min(|turn.data|, Spec.BUFFER_SIZE - Spec.PUTBACK_MAX)];
        }
        if turn.closed {
          ec := Spec.EndOfFile;
          return [];
        }
        if !Spec.Retry(ec) {
          return [];
        }
        ec := turn.pollEc;
        if turn.poll < 0 {
          return [];
        }
      }
    }

    method Underflow() returns (result: int)
      requires Valid()
      modifies this, getBuffer
      ensures Valid() && getBuffer == old(getBuffer) && putBuffer == old(putBuffer)
      ensures Spec.Result(View(), result) == Spec.Underflow(old(View()))
    {
      if gptr != egptr {
        return EOF;
      }
      var chunk := ReceiveSome();
      if chunk == [] {
        return EOF;
      }
      forall i | 0 <= i < |chunk| {
        getBuffer[Spec.PUTBACK_MAX + i] := chunk[i];
      }
      assert getBuffer[..] == Spec.Landed(old(getBuffer[..]), chunk);
      received := received + chunk;
      gptr, egptr := Spec.PUTBACK_MAX, Spec.PUTBACK_MAX + |chunk|;
      return getBuffer[gptr];
    }

    /** `sgetc` of the base class. */
    method Sgetc() returns (result: int)
      requires Valid()
      modifies this, getBuffer
      ensures Valid() && getBuffer == old(getBuffer) && putBuffer == old(putBuffer)
      ensures Spec.Result(View(), result) == Spec.Sgetc(old(View()))
    {
      if gptr < egptr {
        return getBuffer[gptr];
      }
      result := Underflow();
    }

    /** `sbumpc` of the base class. */
    method Sbumpc() returns (result: int)
      requires Valid()
      modifies this, getBuffer
      ensures Valid() && getBuffer == old(getBuffer) && putBuffer == old(putBuffer)
      ensures Spec.Result(View(), result) == Spec.Sbumpc(old(View()))
    {
      Spec.GetKeepsOutput(View());
      result := Sgetc();
      if result != EOF {
        gptr := gptr + 1;
      }
    }
  }
}
