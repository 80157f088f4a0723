/**
  The client end of the console stream: src/xinu-console.c, which masks and escapes what is
  typed and opens a command menu on NUL.
 */
module XinuConsole {
  import opened Bytes
  import opened ConsoleStream

  /** The network connection, as seen by the client: the bytes it has accepted so far. */
  class Channel {
    var sent: seq<byte>
    /** No write so far was short or failed. */
    var complete: bool

    constructor ()
      ensures sent == [] && complete
    {
      sent, complete := [], true;
    }

    /** write(2): accepts any prefix of the data, or fails. */
    method Write(data: seq<byte>) returns (rv: int)
      modifies this
      ensures -1 <= rv <= |data| && old(sent) <= sent
      ensures sent == old(sent) + data[..if rv < 0 then 0 else rv]
      ensures rv <= 0 ==> sent == old(sent)
      ensures rv == |data| ==> sent == old(sent) + data
      ensures complete == (old(complete) && rv == |data|)
    {
      rv :| -1 <= rv <= |data|;
      assert data[..0] == [] && data[..|data|] == data;
      sent := sent + data[..if rv < 0 then 0 else rv];
      complete := complete && rv == |data|;
    }
  }

  function Masked(s: seq<byte>): (r: seq<byte>)
    ensures |r| == |s|
  {
    seq(|s|, i requires 0 <= i < |s| => Mask7(s[i]))
  }

  lemma SameKey(outcomes: nat -> bool, k: Keyboard, key: byte)
    ensures Press(outcomes, k, Mask7(key)) == Press(outcomes, k, key)
  {
  }

  /** Masking twice is masking once, so masking the buffer in place changes no key. */
  lemma {:induction false} MaskedKeys(outcomes: nat -> bool, k: Keyboard, s: seq<byte>, later: seq<byte>)
    ensures PressAll(outcomes, k, Masked(s) + later) == PressAll(outcomes, k, s + later)
    decreases |s|
  {
    if s == [] {
      assert Masked(s) + later == s + later;
    } else {
      assert (Masked(s) + later)[1..] == Masked(s[1..]) + later;
      assert (s + later)[1..] == s[1..] + later;
      SameKey(outcomes, k, s[0]);
      hide Press;
      MaskedKeys(outcomes, Press(outcomes, k, s[0]).keyboard, s[1..], later);
    }
  }

  /**
    What has been sent, what waits in `text[start..curr]`, and what the keys from `curr` on
    mean, amount to `all`.
   */
  ghost predicate Balanced(outcomes: nat -> bool, calls: nat, sent: seq<byte>, text: seq<byte>,
                           start: nat, curr: nat, typed: seq<byte>, all: seq<byte>)
  {
    start <= curr <= |text|
    && all == sent + text[start..curr]
              + Encode(PressAll(outcomes, Keyboard(Typing, calls), text[curr..] + typed).events)
  }

  lemma BalancedHere(outcomes: nat -> bool, calls: nat, sent: seq<byte>, text: seq<byte>, curr: nat, typed: seq<byte>)
    requires curr <= |text|
    ensures Balanced(outcomes, calls, sent, text, curr, curr, typed,
                     sent + Encode(PressAll(outcomes, Keyboard(Typing, calls), text[curr..] + typed).events))
  {
    assert sent + text[curr..curr] == sent;
  }

  lemma {:induction false} BalancedPlain(outcomes: nat -> bool, calls: nat, sent: seq<byte>, text: seq<byte>,
                                         start: nat, curr: nat, typed: seq<byte>, all: seq<byte>)
    requires Balanced(outcomes, calls, sent, text, start, curr, typed, all)
    requires curr < |text| && text[curr] != BACKSLASH && text[curr] != NUL && text[curr] < 128
    ensures Balanced(outcomes, calls, sent, text, start, curr + 1, typed, all)
  {
    hide PressAll, Encode;
    var later := text[curr + 1..] + typed;
    assert text[curr..] + typed == [text[curr]] + later;
    EncodeTyped(outcomes, calls, text[curr], later);
    assert text[start..curr + 1] == text[start..curr] + [text[curr]];
    Regroup(sent, text[start..curr], [text[curr]], Encode(PressAll(outcomes, Keyboard(Typing, calls), later).events));
  }

  lemma {:induction false} BalancedBackslash(outcomes: nat -> bool, calls: nat, sent: seq<byte>, text: seq<byte>,
                                             start: nat, curr: nat, typed: seq<byte>, all: seq<byte>)
    requires Balanced(outcomes, calls, sent, text, start, curr, typed, all)
    requires curr < |text| && text[curr] == BACKSLASH
    ensures Balanced(outcomes, calls, sent + text[start..curr + 1] + [BACKSLASH], text, curr + 1, curr + 1, typed, all)
  {
    hide PressAll, Encode;
    var later := text[curr + 1..] + typed;
    assert text[curr..] + typed == [BACKSLASH] + later;
    EncodeTyped(outcomes, calls, BACKSLASH, later);
    var future := Encode(PressAll(outcomes, Keyboard(Typing, calls), later).events);
    var run := text[start..curr];
    assert text[start..curr + 1] == run + [BACKSLASH];
    assert [BACKSLASH, BACKSLASH] == [BACKSLASH] + [BACKSLASH];
    Regroup(sent, run, [BACKSLASH] + [BACKSLASH], future);
    Regroup(sent, run, [BACKSLASH], [BACKSLASH]);
    assert text[curr + 1..curr + 1] == [];
  }

  lemma {:induction false} BalancedMenu(outcomes: nat -> bool, calls: nat, sent: seq<byte>, text: seq<byte>,
                                        start: nat, curr: nat, typed: seq<byte>, all: seq<byte>)
    requires Balanced(outcomes, calls, sent, text, start, curr, typed, all)
    requires curr < |text| && text[curr] == NUL
    ensures all == sent + text[start..curr]
                   + Encode(PressAll(outcomes, Keyboard(Menu, calls), text[curr + 1..] + typed).events)
  {
    EncodeTyped(outcomes, calls, NUL, text[curr + 1..] + typed);
    assert text[curr..] + typed == [NUL] + (text[curr + 1..] + typed);
  }

  /** The bytes sent after `before` are exactly the escaped text up to `start`. */
  ghost predicate SentUpTo(sent: seq<byte>, before: seq<byte>, text: seq<byte>, start: nat) {
    start <= |text| && sent == before + Escape(text[..start])
  }

  /** The bytes sent after `before` are a proper prefix of the escaped text, and reach beyond its first `start` bytes. */
  ghost predicate SentPart(sent: seq<byte>, before: seq<byte>, text: seq<byte>, start: nat) {
    start <= |text| && before + Escape(text[..start]) <= sent < before + Escape(text)
  }

  lemma {:induction false} SentBackslash(sent: seq<byte>, before: seq<byte>, text: seq<byte>, start: nat, curr: nat)
    requires SentUpTo(sent, before, text, start)
    requires start <= curr < |text| && BACKSLASH !in text[start..curr] && text[curr] == BACKSLASH
    ensures SentPart(sent + text[start..curr + 1], before, text, start)
    ensures SentUpTo(sent + text[start..curr + 1] + [BACKSLASH], before, text, curr + 1)
  {
    EscapeRun(text, start, curr);
    assert text[start..curr + 1][..curr - start] == text[start..curr];
    EscapeShort(text, start, curr + 1, text[start..curr + 1]);
    Regroup(before, Escape(text[..start]), text[start..curr + 1], [BACKSLASH]);
  }

  lemma {:induction false} SentRun(sent: seq<byte>, before: seq<byte>, text: seq<byte>, start: nat)
    requires SentUpTo(sent, before, text, start) && BACKSLASH !in text[start..]
    ensures SentUpTo(sent + text[start..], before, text, |text|)
  {
    assert text[start..|text|] == text[start..];
    EscapeRun(text, start, |text|);
    assert before + Escape(text[..start]) + text[start..] == before + (Escape(text[..start]) + text[start..]);
  }

  /** The static variables of xinu-console.c, and the two ends the process is connected to. */
  class Console {
    const net: Channel
    /** What the user types and the process has not read yet; its end is end of file. */
    var typed: seq<byte>
    /** Whether the k-th helper connection (download, power commands) succeeds. */
    const outcomes: nat -> bool
    var calls: nat
    const buf: array<byte>
    var stdinLen: nat
    var stdinCurr: nat

    ghost predicate Valid()
      reads this
    {
      stdinCurr <= stdinLen <= buf.Length
    }

    constructor (size: nat, typed: seq<byte>, outcomes: nat -> bool, net: Channel)
      ensures Valid() && fresh(buf) && buf.Length == size
      ensures this.net == net && this.typed == typed && this.outcomes == outcomes && calls == 0
    {
      this.net, this.typed, this.outcomes, calls := net, typed, outcomes, 0;
      buf := new byte[size];
      stdinLen, stdinCurr := 0, 0;
    }

    /** The keys not looked at yet. */
    ghost function Keys(): seq<byte>
      requires Valid()
      reads this, buf
    {
      buf[stdinCurr..stdinLen] + typed
    }

    /** What the network has got, and what it still gets when `keys` are pressed in `mode`. */
    ghost function Owed(mode: Mode, keys: seq<byte>): seq<byte>
      reads this, net
    {
      net.sent + Encode(PressAll(outcomes, Keyboard(mode, calls), keys).events)
    }

    method GetInput() returns (rv: int, ch: byte)
      requires Valid()
      modifies this`stdinCurr, this`typed
      ensures Valid() && (rv == 0 || rv == 1)
      ensures rv == 0 ==> old(Keys()) == [] && Keys() == []
      ensures rv == 1 ==> old(Keys()) == [ch] + Keys()
      ensures |Keys()| + rv == |old(Keys())| && stdinCurr >= old(stdinCurr)
      ensures |typed| <= |old(typed)|
    {
      if stdinCurr < stdinLen {
        ch := buf[stdinCurr];
        assert buf[stdinCurr..stdinLen] == [ch] + buf[stdinCurr + 1..stdinLen];
        assert Keys() == [ch] + (buf[stdinCurr + 1..stdinLen] + typed);
        stdinCurr := stdinCurr + 1;
        return 1, ch;
      }
      if typed == [] {
        return 0, NUL;
      }
      ch := typed[0];
      assert Keys() == typed == [ch] + typed[1..];
      typed := typed[1..];
      assert Keys() == typed;
      return 1, ch;
    }

    /** A menu command that runs a helper connection. */
    method SubConnect() returns (ok: bool)
      modifies this`calls
      ensures ok == outcomes(old(calls)) && calls == old(calls) + 1
    {
      ok := outcomes(calls);
      calls := calls + 1;
    }

    /** One key in the menu: whether it closes the menu, and if so with which result. */
    method MenuKey(key: byte, ghost later: seq<byte>) returns (closed: bool, r: int)
      modifies this`calls, net
      ensures old(net.sent) <= net.sent && (net.complete ==> old(net.complete))
      ensures !closed ==> net.sent == old(net.sent) && net.complete == old(net.complete)
                          && Owed(Menu, later) == old(Owed(Menu, [key] + later))
      ensures closed ==> r == 0 || r == 1
      ensures closed && net.complete ==>
                old(Owed(Menu, [key] + later)) == if r == 1 then Owed(Typing, later) else net.sent
    {
      hide PressAll, Encode;
      closed, r := true, 1;
      EncodeMenu(outcomes, calls, key, later);
      var ch := Mask7(key);
      if ch == EOT || ch == Ascii('q') {
        var ok := SubConnect();
        r := if ok then 1 else 0;
      } else if ch == Ascii('x') {
        r := 0;
      } else if ch == Ascii('c') {
      } else if ch == Ascii('b') {
        var _ := net.Write([BACKSLASH, Ascii('b')]);
      } else if ch == Ascii('d') || ch == Ascii('p') || ch == Ascii('f') || ch == Ascii('n') {
        closed := SubConnect();
      } else {
        closed := false;
      }
    }

    /** The command menu. A positive result resumes the session, any other ends it. */
    method HandleBreak() returns (r: int)
      requires Valid()
      modifies this`stdinCurr, this`typed, this`calls, net
      ensures Valid() && (r == 0 || r == 1)
      ensures |typed| <= |old(typed)| && stdinCurr >= old(stdinCurr)
      ensures old(net.sent) <= net.sent && (net.complete ==> old(net.complete))
      ensures net.complete ==> old(Owed(Menu, Keys())) == if r == 1 then Owed(Typing, Keys()) else net.sent
    {
      while true
        invariant Valid()
        invariant |typed| <= |old(typed)| && stdinCurr >= old(stdinCurr)
        invariant net.sent == old(net.sent) && net.complete == old(net.complete)
        invariant Owed(Menu, Keys()) == old(Owed(Menu, Keys()))
        decreases |Keys()|
      {
        var rv, ch := GetInput();
        if rv <= 0 {
          return 0;
        }
        var closed, result := MenuKey(ch, Keys());
        if closed {
          return result;
        }
      }
    }

    /** The first loop of flush2net: every byte of the chunk loses its top bit. */
    method MaskBuffer()
      requires Valid()
      modifies buf
      ensures buf[..stdinLen] == Masked(old(buf[..stdinLen]))
    {
      for i := 0 to stdinLen
        invariant forall j :: 0 <= j < i ==> buf[j] == Mask7(old(buf[j]))
        invariant forall j :: i <= j < stdinLen ==> buf[j] == old(buf[j])
      {
        buf[i] := Mask7(buf[i]);
      }
    }

    /** Writes the run of plain bytes `text[start..end]` that the next backslash or the chunk's end closes. */
    method WriteRun(start: nat, end: nat, ghost before: seq<byte>, ghost text: seq<byte>) returns (ok: bool)
      requires Valid() && start < end <= stdinLen && buf[..stdinLen] == text && BACKSLASH !in text[start..end - 1]
      modifies net
      ensures old(net.sent) <= net.sent && (net.complete ==> ok && old(net.complete))
      ensures ok ==> net.sent == old(net.sent) + text[start..end] && net.complete == old(net.complete)
      ensures !ok && SentUpTo(old(net.sent), before, text, start) ==> SentPart(net.sent, before, text, start)
    {
      assert buf[start..end] == text[start..end];
      var rv := net.Write(buf[start..end]);
      ghost var w := text[start..end][..if rv < 0 then 0 else rv];
      ok := !(rv < end - start);
      if !ok && SentUpTo(old(net.sent), before, text, start) {
        EscapeShort(text, start, end, w);
        assert net.sent == before + (Escape(text[..start]) + w);
      }
    }

    /** Plain bytes wait in `text[start..stdinCurr]`; all keys before them are on the network. */
    ghost predicate Waiting(text: seq<byte>, start: nat)
      reads this, buf
    {
      Valid() && buf[..stdinLen] == text && start <= stdinCurr && BACKSLASH !in text[start..stdinCurr]
    }

    ghost predicate OnTrack(text: seq<byte>, start: nat, all: seq<byte>)
      reads this, net
    {
      Balanced(outcomes, calls, net.sent, text, start, stdinCurr, typed, all)
    }

    /** A backslash: the run up to it, then a second one. */
    method FlushBackslash(start: nat, ghost before: seq<byte>, ghost text: seq<byte>, ghost all: seq<byte>)
      returns (ok: bool)
      requires Waiting(text, start) && stdinCurr < stdinLen && text[stdinCurr] == BACKSLASH
      modifies this`stdinCurr, net
      ensures stdinCurr == old(stdinCurr) + 1
      ensures old(net.sent) <= net.sent && (net.complete ==> ok && old(net.complete))
      ensures net.complete && old(OnTrack(text, start, all)) ==> OnTrack(text, stdinCurr, all)
      ensures old(SentUpTo(net.sent, before, text, start)) ==>
                if ok then SentUpTo(net.sent, before, text, stdinCurr) else SentPart(net.sent, before, text, start)
    {
      hide Balanced, SentUpTo, SentPart;
      if OnTrack(text, start, all) {
        BalancedBackslash(outcomes, calls, net.sent, text, start, stdinCurr, typed, all);
      }
      stdinCurr := stdinCurr + 1;
      if SentUpTo(net.sent, before, text, start) {
        SentBackslash(net.sent, before, text, start, stdinCurr - 1);
      }
      ok := WriteRun(start, stdinCurr, before, text);
      if ok {
        var rv := net.Write([BACKSLASH]);
        ok := rv == 1;
      }
    }

    /** NUL: the run before it, then the menu. */
    method FlushMenu(start: nat, ghost text: seq<byte>, ghost all: seq<byte>) returns (ok: bool, r: int)
      requires Waiting(text, start) && stdinCurr < stdinLen && text[stdinCurr] == NUL
      modifies this`stdinCurr, this`typed, this`calls, net
      ensures Valid() && stdinCurr > old(stdinCurr)
      ensures |typed| <= |old(typed)|
      ensures old(net.sent) <= net.sent && (net.complete ==> old(net.complete))
      ensures !ok ==> r <= 0 || r == start
      ensures net.complete && old(OnTrack(text, start, all)) ==>
                if ok then OnTrack(text, stdinCurr, all) else r <= 0 && net.sent == all
    {
      hide Balanced, SentUpTo, SentPart, PressAll, Encode;
      if OnTrack(text, start, all) {
        BalancedMenu(outcomes, calls, net.sent, text, start, stdinCurr, typed, all);
      }
      stdinCurr := stdinCurr + 1;
      assert text[stdinCurr..] == buf[stdinCurr..stdinLen];
      if stdinCurr - start - 1 > 0 {
        assert text[start..stdinCurr - 1][..stdinCurr - start - 2] == text[start..stdinCurr - 2];
        var written := WriteRun(start, stdinCurr - 1, [], text);
        if !written {
          return false, start;
        }
      } else {
        assert net.sent + text[start..stdinCurr - 1] == net.sent;
      }
      r := HandleBreak();
      ok := !(r <= 0);
      assert text[stdinCurr..] == buf[stdinCurr..stdinLen];
      BalancedHere(outcomes, calls, net.sent, text, stdinCurr, typed);
    }

    /** Any other byte joins the run. */
    method FlushPlain(start: nat, ghost text: seq<byte>, ghost all: seq<byte>)
      requires Waiting(text, start) && stdinCurr < stdinLen
      requires text[stdinCurr] != BACKSLASH && text[stdinCurr] != NUL && text[stdinCurr] < 128
      modifies this`stdinCurr
      ensures stdinCurr == old(stdinCurr) + 1 && Waiting(text, start)
      ensures old(OnTrack(text, start, all)) ==> OnTrack(text, start, all)
    {
      if OnTrack(text, start, all) {
        BalancedPlain(outcomes, calls, net.sent, text, start, stdinCurr, typed, all);
      }
      stdinCurr := stdinCurr + 1;
    }

    /** Takes the chunk in `buf[..len]`, masked in place. */
    method Start(len: nat) returns (ghost text: seq<byte>, ghost all: seq<byte>)
      requires len <= buf.Length
      modifies this`stdinLen, this`stdinCurr, buf
      ensures stdinLen == len && stdinCurr == 0 && text == Masked(old(buf[..len]))
      ensures Waiting(text, 0) && all == old(Owed(Typing, buf[..len] + typed)) && OnTrack(text, 0, all)
      ensures SentUpTo(net.sent, net.sent, text, 0)
    {
      stdinLen := len;
      stdinCurr := 0;
      all := Owed(Typing, buf[..len] + typed);
      MaskedKeys(outcomes, Keyboard(Typing, calls), buf[..len], typed);
      MaskBuffer();
      text := buf[..len];
      assert text[0..] == text && text[..0] == [];
      assert net.sent + text[0..0] == net.sent;
    }

    /** The run that waits at the end of the chunk. */
    method Finish(start: nat, ghost before: seq<byte>, ghost text: seq<byte>, ghost all: seq<byte>) returns (ok: bool)
      requires Waiting(text, start) && stdinCurr == stdinLen
      modifies net
      ensures old(net.sent) <= net.sent && (net.complete ==> ok && old(net.complete))
      ensures net.complete && old(OnTrack(text, start, all)) ==> Owed(Typing, typed) == all
      ensures old(SentUpTo(net.sent, before, text, start)) ==>
                if ok then SentUpTo(net.sent, before, text, |text|)
                else start < stdinLen && SentPart(net.sent, before, text, start)
    {
      assert text[stdinLen..] + typed == typed && text[start..stdinLen] == text[start..];
      if SentUpTo(net.sent, before, text, start) {
        SentRun(net.sent, before, text, start);
      }
      if stdinCurr != start {
        ok := WriteRun(start, stdinCurr, before, text);
      } else {
        assert net.sent + text[start..] == net.sent;
        ok := true;
      }
    }

    /**
      One chunk typed by the user, in `buf[..len]`. With complete writes everything that the
      chunk and the keys taken from the menu mean has been sent when the session goes on, and
      nothing remains to be sent when it does not. When no key opens the menu, the bytes sent
      are a prefix of the escaped chunk whatever the writes return; a result `r < len` tells
      that the first `r` bytes have been sent in full; and `len` that all have.
     */
    method FlushToNet(len: nat) returns (r: int)
      requires len <= buf.Length
      modifies this`stdinLen, this`stdinCurr, this`typed, this`calls, buf, net
      ensures Valid() && r <= len
      ensures |typed| <= |old(typed)|
      ensures old(net.sent) <= net.sent && (net.complete ==> old(net.complete))
      ensures net.complete ==>
                old(Owed(Typing, buf[..len] + typed)) == if r == len then Owed(Typing, typed) else net.sent
      ensures net.complete && r != len ==> r <= 0
      ensures buf[..len] == Masked(old(buf[..len]))
      ensures NUL !in buf[..len] ==>
                typed == old(typed)
                && if r == len then SentUpTo(net.sent, old(net.sent), buf[..len], len)
                   else 0 <= r && SentPart(net.sent, old(net.sent), buf[..len], r)
    {
      ghost var before := net.sent;
      ghost var text, all := Start(len);
      var start: nat := stdinCurr;
      while stdinCurr < stdinLen
        invariant stdinLen == len && Waiting(text, start)
        invariant |typed| <= |old(typed)|
        invariant old(net.sent) <= net.sent
        invariant net.complete ==> old(net.complete) && OnTrack(text, start, all)
        invariant NUL !in text ==> typed == old(typed) && SentUpTo(net.sent, before, text, start)
        decreases stdinLen - stdinCurr
      {
        assert buf[stdinCurr] == text[stdinCurr] < 128;
        assert text[stdinCurr] in text;
        if buf[stdinCurr] == BACKSLASH {
          var ok := FlushBackslash(start, before, text, all);
          if !ok {
            return start;
          }
          start := stdinCurr;
        } else if buf[stdinCurr] == NUL {
          var ok, rv := FlushMenu(start, text, all);
          if !ok {
            return rv;
          }
          start := stdinCurr;
        } else {
          FlushPlain(start, text, all);
        }
      }
      var ok := Finish(start, before, text, all);
      if !ok {
        return start;
      }
      return len;
    }
  }
}
