/**
  The server end of the console stream: src/tty-connect.c, which undoes the escaping and
  drives the serial line through a small output buffer.
 */
module TtyConnect {
  import opened Bytes
  import opened ConsoleStream

  /** The serial line. Its log records, in order, the bytes it accepted and the breaks it was sent. */
  class Tty {
    var log: seq<Event>
    /** No write so far was short or failed. */
    var complete: bool

    constructor ()
      ensures log == [] && complete
    {
      log, complete := [], true;
    }

    /** write(2): accepts any prefix of the data, or fails. */
    method Write(data: seq<byte>) returns (rv: int)
      modifies this
      ensures -1 <= rv <= |data|
      ensures log == old(log) + AsData(data[..if rv < 0 then 0 else rv])
      ensures complete == (old(complete) && rv == |data|)
    {
      rv :| -1 <= rv <= |data|;
      log := log + AsData(data[..if rv < 0 then 0 else rv]);
      complete := complete && rv == |data|;
    }

    method SendBreak()
      modifies this
      ensures log == old(log) + [Break] && complete == old(complete)
    {
      log := log + [Break];
    }
  }

  /** The static variables of tty-connect.c: the output buffer, its running count, the escape flag. */
  class Driver {
    const tty: Tty
    const transparent: bool
    const cook: bool
    const pcBuf: array<byte>
    var pcLen: nat
    var pcRv: int
    var esc: bool

    ghost predicate Valid()
      reads this
    {
      pcBuf.Length == PC_LEN + 1 && pcLen <= PC_LEN
    }

    constructor (tty: Tty, transparent: bool, cook: bool)
      ensures Valid() && fresh(pcBuf) && !esc
      ensures this.tty == tty && this.transparent == transparent && this.cook == cook
    {
      this.tty, this.transparent, this.cook := tty, transparent, cook;
      pcBuf := new byte[PC_LEN + 1];
      pcLen, pcRv, esc := 0, 0, false;
    }

    method PutCharStart()
      requires Valid()
      modifies this`pcLen, this`pcRv
      ensures Valid() && pcLen == 0 && pcRv == 0
    {
      pcRv := 0;
      pcLen := 0;
    }

    /** On failure the bytes not accepted are taken off the count, but stay in the buffer. */
    method PutCharFlush() returns (ok: bool)
      requires Valid()
      modifies this`pcLen, this`pcRv, tty
      ensures Valid()
      ensures ok ==> pcLen == 0 && pcRv == old(pcRv)
                     && tty.log == old(tty.log) + AsData(old(pcBuf[..pcLen]))
                     && tty.complete == old(tty.complete)
      ensures !ok ==> pcLen == old(pcLen) && pcRv < old(pcRv) && !tty.complete
    {
      if pcLen > 0 {
        var rv := tty.Write(pcBuf[..pcLen]);
        if rv <= 0 {
          pcRv := pcRv - pcLen;
          return false;
        } else if rv < pcLen {
          pcRv := pcRv - (pcLen - rv);
          return false;
        }
        assert pcBuf[..pcLen][..rv] == pcBuf[..pcLen];
      } else {
        assert tty.log == old(tty.log) + AsData(pcBuf[..0]);
      }
      pcLen := 0;
      return true;
    }

    /** What the line has got, and what it still gets from the buffer and from `later`. */
    ghost function Owed(later: seq<Event>): seq<Event>
      requires Valid()
      reads this, pcBuf, tty
    {
      tty.log + Delivered(pcBuf[..pcLen], later)
    }

    method PutChar(ch: byte, ghost later: seq<Event>) returns (ok: bool)
      requires Valid()
      modifies this`pcLen, this`pcRv, pcBuf, tty
      ensures Valid()
      ensures ok ==> pcRv == old(pcRv) + 1 && tty.complete == old(tty.complete)
      ensures ok ==> Owed(later) == old(Owed([Data(ch)] + later))
      ensures !ok ==> pcRv < old(pcRv) && !tty.complete
    {
      assert ([Data(ch)] + later)[1..] == later;
      if pcLen >= PC_LEN {
        var flushed := PutCharFlush();
        if !flushed {
          return false;
        }
      }
      pcBuf[pcLen] := ch;
      pcLen := pcLen + 1;
      pcRv := pcRv + 1;
      if old(pcLen) < PC_LEN {
        assert pcBuf[..pcLen] == old(pcBuf[..pcLen]) + [ch];
      } else {
        assert pcBuf[..pcLen] == [ch];
      }
      return true;
    }

    method SendBreak(ghost later: seq<Event>)
      requires Valid()
      modifies tty
      ensures Valid() && tty.complete == old(tty.complete)
      ensures Owed(later) == old(Owed([Break] + later))
    {
      assert ([Break] + later)[1..] == later;
      tty.SendBreak();
    }

    method PutCharEnd() returns (rv: int)
      requires Valid()
      modifies this`pcLen, this`pcRv, tty
      ensures Valid()
      ensures rv <= old(pcRv)
      ensures old(tty.complete) ==> (rv == old(pcRv) <==> tty.complete)
      ensures tty.complete ==> old(tty.complete) && rv == old(pcRv)
                               && tty.log == old(tty.log) + AsData(old(pcBuf[..pcLen]))
    {
      var _ := PutCharFlush();
      rv := pcRv;
      pcRv := 0;
    }

    /**
      One byte off the network, the body of the loop of `FlushData`. `skipped` is true for a
      byte that is consumed without being output (it is what the source counts in `e`).
     */
    method FlushByte(ch: byte, ghost later: seq<Event>) returns (ok: bool, skipped: bool)
      requires Valid()
      modifies this, pcBuf, tty
      ensures Valid()
      ensures esc == DecodeByte(cook, old(esc), ch).esc
      ensures tty.complete ==> old(tty.complete)
      ensures ok && !cook ==> tty.complete == old(tty.complete)
                              && pcRv + (if skipped then 1 else 0) == old(pcRv) + 1
      ensures tty.complete ==>
                ok
                && Owed(later) == old(Owed(DecodeByte(cook, esc, ch).events + later))
                && pcRv + (if skipped then 1 else 0) == old(pcRv) + 1 + CookedNewlines(cook, old(esc), [ch])
      ensures !ok ==> !skipped && !tty.complete
      ensures !ok && !cook ==> pcRv < old(pcRv)
    {
      ok, skipped := true, false;
      if !esc {
        if ch == BACKSLASH {
          esc := true;
          assert [] + later == later;
          return true, true;
        } else if cook {
          if ch == NEWLINE {
            assert [Data(RETURN), Data(NEWLINE)] + later == [Data(RETURN)] + ([Data(NEWLINE)] + later);
            var _ := PutChar(RETURN, [Data(NEWLINE)] + later);
          }
        }
      } else {
        esc := false;
        if ch == Ascii('b') {
          SendBreak(later);
          return true, true;
        }
      }
      ok := PutChar(ch, later);
    }

    /**
      One chunk off the network. With complete writes the line gets exactly what the chunk
      decodes to, in the buffer's order, and the result counts the chunk and the newlines
      cooked. Uncooked, the result is short iff a write was.
     */
    method FlushData(chunk: seq<byte>) returns (r: int)
      requires Valid()
      modifies this, pcBuf, tty
      ensures Valid()
      ensures transparent ==> -1 <= r <= |chunk| && esc == old(esc)
                              && tty.log == old(tty.log) + AsData(chunk[..if r < 0 then 0 else r])
      ensures tty.complete ==> old(tty.complete) && r >= |chunk|
      ensures !transparent && tty.complete ==>
                var d := Decode(cook, old(esc), chunk);
                esc == d.esc && tty.log == old(tty.log) + Delivered([], d.events)
                && r == |chunk| + CookedNewlines(cook, old(esc), chunk)
      ensures transparent || !cook ==> r <= |chunk|
      ensures (transparent || !cook) && old(tty.complete) ==> (r == |chunk| <==> tty.complete)
    {
      if transparent {
        r := tty.Write(chunk);
        return;
      }
      var e: nat := 0;
      PutCharStart();
      ghost var all := Decode(cook, esc, chunk);
      ghost var cooked := CookedNewlines(cook, esc, chunk);
      assert pcBuf[..pcLen] == [] && chunk[0..] == chunk;
      for i := 0 to |chunk|
        invariant Valid()
        invariant tty.complete ==> old(tty.complete)
        invariant !cook ==> tty.complete == old(tty.complete) && pcRv + e == i
        invariant all.esc == Decode(cook, esc, chunk[i..]).esc
        invariant tty.complete ==> old(tty.log) + Delivered([], all.events) == Owed(Decode(cook, esc, chunk[i..]).events)
        invariant tty.complete ==> pcRv + e + CookedNewlines(cook, esc, chunk[i..]) == i + cooked
      {
        assert chunk[i..][0] == chunk[i] && chunk[i..][1..] == chunk[i + 1..];
        var ok, skipped := FlushByte(chunk[i], Decode(cook, DecodeByte(cook, esc, chunk[i]).esc, chunk[i + 1..]).events);
        if !ok {
          var rv := PutCharEnd();
          return rv + e;
        }
        if skipped {
          e := e + 1;
        }
      }
      var rv := PutCharEnd();
      return rv + e;
    }
  }
}
