/**
  The console stream: what a user types, how it is escaped on the network, what the tty
  driver makes of the escaped bytes, and in which order its output buffer lets them out.
  Everything here is a specification; the classes in XinuConsole.dfy and TtyConnect.dfy
  are proved against it.
 */
module ConsoleStream {
  import opened Bytes

  /** What reaches the backend's serial line: a byte, or a line break. */
  datatype Event = Data(b: byte) | Break

  // ----- the escaped form --------------------------------------------------------------

  function EncodeEvent(e: Event): seq<byte> {
    match e
    case Break => [BACKSLASH, Ascii('b')]
    case Data(b) => if b == BACKSLASH then [BACKSLASH, BACKSLASH] else [b]
  }

  function Encode(es: seq<Event>): seq<byte> {
    if es == [] then [] else EncodeEvent(es[0]) + Encode(es[1..])
  }

  function AsData(s: seq<byte>): (r: seq<Event>)
    ensures |r| == |s|
  {
    seq(|s|, i requires 0 <= i < |s| => Data(s[i]))
  }

  /** The bytes `s` with every backslash doubled. */
  function Escape(s: seq<byte>): seq<byte> {
    Encode(AsData(s))
  }

  lemma {:induction false} EncodeConcat(a: seq<Event>, b: seq<Event>)
    ensures Encode(a + b) == Encode(a) + Encode(b)
  {
    if a == [] {
      assert a + b == b;
    } else {
      assert (a + b)[1..] == a[1..] + b;
      EncodeConcat(a[1..], b);
    }
  }

  lemma {:induction false} EscapeConcat(a: seq<byte>, b: seq<byte>)
    ensures Escape(a + b) == Escape(a) + Escape(b)
  {
    assert AsData(a + b) == AsData(a) + AsData(b);
    EncodeConcat(AsData(a), AsData(b));
  }

  lemma {:induction false} EscapePlain(s: seq<byte>)
    requires BACKSLASH !in s
    ensures Escape(s) == s
  {
    if s == [] {
    } else {
      assert AsData(s)[1..] == AsData(s[1..]);
      EscapePlain(s[1..]);
    }
  }

  /** Escaping up to the first backslash at or after `start`, and through it. */
  lemma {:induction false} EscapeRun(text: seq<byte>, start: nat, end: nat)
    requires start <= end <= |text| && BACKSLASH !in text[start..end]
    ensures Escape(text[..end]) == Escape(text[..start]) + text[start..end]
    ensures end < |text| && text[end] == BACKSLASH ==>
              Escape(text[..end + 1]) == Escape(text[..start]) + text[start..end + 1] + [BACKSLASH]
  {
    assert text[..end] == text[..start] + text[start..end];
    EscapeConcat(text[..start], text[start..end]);
    EscapePlain(text[start..end]);
    if end < |text| && text[end] == BACKSLASH {
      assert text[..end + 1] == text[..end] + [text[end]];
      EscapeConcat(text[..end], [text[end]]);
      assert AsData([text[end]]) == [Data(BACKSLASH)];
      assert Encode([Data(BACKSLASH)]) == [BACKSLASH, BACKSLASH] + Encode([]);
      assert text[start..end + 1] == text[start..end] + [BACKSLASH];
    }
  }

  /** An unfinished run of the escaped text is a proper prefix of the whole. */
  lemma {:induction false} EscapeShort(text: seq<byte>, start: nat, end: nat, w: seq<byte>)
    requires start < end <= |text| && BACKSLASH !in text[start..end - 1]
    requires w <= text[start..end]
    requires w == text[start..end] ==> text[end - 1] == BACKSLASH
    ensures Escape(text[..start]) + w < Escape(text)
  {
    EscapeRun(text, start, end - 1);
    if text[end - 1] != BACKSLASH {
      EscapeRun(text, start, end);
    }
    assert text == text[..end] + text[end..];
    EscapeConcat(text[..end], text[end..]);
    assert Escape(text[..start]) + text[start..end] <= Escape(text[..end]);
  }

  // ----- the decoder, one byte at a time ------------------------------------------------

  /** The state left behind (`esc`: a backslash is waiting for its partner) and the output. */
  datatype Decoded = Decoded(esc: bool, events: seq<Event>)

  function DecodeByte(cook: bool, esc: bool, b: byte): Decoded {
    if !esc then
      if b == BACKSLASH then Decoded(true, [])
      else if cook && b == NEWLINE then Decoded(false, [Data(RETURN), Data(NEWLINE)])
      else Decoded(false, [Data(b)])
    else
      if b == Ascii('b') then Decoded(false, [Break])
      else Decoded(false, [Data(b)])
  }

  function Decode(cook: bool, esc: bool, s: seq<byte>): Decoded
    decreases |s|
  {
    if s == [] then Decoded(esc, [])
    else
      var first := DecodeByte(cook, esc, s[0]);
      var rest := Decode(cook, first.esc, s[1..]);
      Decoded(rest.esc, first.events + rest.events)
  }

  /** Decoding one chunk per read, the escape flag surviving from read to read. */
  function DecodeChunks(cook: bool, esc: bool, chunks: seq<seq<byte>>): Decoded
    decreases |chunks|
  {
    if chunks == [] then Decoded(esc, [])
    else
      var first := Decode(cook, esc, chunks[0]);
      var rest := DecodeChunks(cook, first.esc, chunks[1..]);
      Decoded(rest.esc, first.events + rest.events)
  }

  lemma {:induction false} DecodeConcat(cook: bool, esc: bool, a: seq<byte>, b: seq<byte>)
    ensures var first := Decode(cook, esc, a);
            var rest := Decode(cook, first.esc, b);
            Decode(cook, esc, a + b) == Decoded(rest.esc, first.events + rest.events)
    decreases |a|
  {
    if a == [] {
      assert a + b == b;
    } else {
      assert (a + b)[1..] == a[1..] + b;
      DecodeConcat(cook, DecodeByte(cook, esc, a[0]).esc, a[1..], b);
    }
  }

  /** Where the reads cut the stream does not matter. */
  lemma {:induction false} ChunkingIrrelevant(cook: bool, esc: bool, chunks: seq<seq<byte>>)
    ensures DecodeChunks(cook, esc, chunks) == Decode(cook, esc, Flatten(chunks))
    decreases |chunks|
  {
    if chunks != [] {
      DecodeConcat(cook, esc, chunks[0], Flatten(chunks[1..]));
      ChunkingIrrelevant(cook, Decode(cook, esc, chunks[0]).esc, chunks[1..]);
    }
  }

  /** With cooking on, every newline is sent as a carriage return and a newline. */
  function Cooked(cook: bool, es: seq<Event>): seq<Event> {
    if es == [] then []
    else (if cook && es[0] == Data(NEWLINE) then [Data(RETURN), Data(NEWLINE)] else [es[0]])
         + Cooked(cook, es[1..])
  }

  lemma {:induction false} Uncooked(es: seq<Event>)
    ensures Cooked(false, es) == es
  {
    if es != [] {
      Uncooked(es[1..]);
    }
  }

  /** Decoding what was encoded gives back the events, and leaves no escape pending. */
  lemma {:induction false} RoundTrip(cook: bool, es: seq<Event>)
    ensures Decode(cook, false, Encode(es)) == Decoded(false, Cooked(cook, es))
  {
    if es != [] {
      RoundTrip(cook, es[1..]);
      DecodeConcat(cook, false, EncodeEvent(es[0]), Encode(es[1..]));
      if |EncodeEvent(es[0])| == 2 {
        assert EncodeEvent(es[0])[1..] == [EncodeEvent(es[0])[1]];
      }
    }
  }

  function CookBytes(cook: bool, s: seq<byte>): seq<byte> {
    if s == [] then []
    else (if cook && s[0] == NEWLINE then [RETURN, NEWLINE] else [s[0]]) + CookBytes(cook, s[1..])
  }

  /** Cooking concerns the bytes only: each newline among them gets its carriage return. */
  lemma {:induction false} CookedContents(cook: bool, es: seq<Event>)
    ensures DataOf(Cooked(cook, es)) == CookBytes(cook, DataOf(es))
    ensures BreaksIn(Cooked(cook, es)) == BreaksIn(es)
  {
    if es != [] {
      CookedContents(cook, es[1..]);
      if cook && es[0] == Data(NEWLINE) {
        var pair := [Data(RETURN), Data(NEWLINE)];
        ProjectConcat(pair, Cooked(cook, es[1..]));
        assert pair[1..] == [Data(NEWLINE)];
      } else {
        ProjectConcat([es[0]], Cooked(cook, es[1..]));
        assert [es[0]][1..] == [];
      }
      if es[0].Data? {
        assert DataOf(es) == [es[0].b] + DataOf(es[1..]) && DataOf(es)[1..] == DataOf(es[1..]);
      } else {
        assert DataOf(es) == DataOf(es[1..]);
      }
    }
  }

  /** The newlines that cooking expands: those not shielded by a backslash. */
  function CookedNewlines(cook: bool, esc: bool, s: seq<byte>): nat
    decreases |s|
  {
    if s == [] then 0
    else
      (if cook && !esc && s[0] == NEWLINE then 1 else 0)
      + CookedNewlines(cook, DecodeByte(cook, esc, s[0]).esc, s[1..])
  }

  // ----- the order in which an output buffer of `PC_LEN` bytes lets events out ----------

  const PC_LEN := 1024

  /** Breaks overtake the bytes `pending` in the buffer; bytes leave when it is full, or at the end. */
  function Delivered(pending: seq<byte>, es: seq<Event>): seq<Event>
    decreases |es|
  {
    if es == [] then AsData(pending)
    else match es[0]
      case Break => [Break] + Delivered(pending, es[1..])
      case Data(b) =>
        if |pending| >= PC_LEN then AsData(pending) + Delivered([b], es[1..])
        else Delivered(pending + [b], es[1..])
  }

  function DataOf(es: seq<Event>): seq<byte> {
    if es == [] then []
    else (match es[0] case Break => [] case Data(b) => [b]) + DataOf(es[1..])
  }

  function BreaksIn(es: seq<Event>): nat {
    if es == [] then 0
    else (if es[0] == Break then 1 else 0) + BreaksIn(es[1..])
  }

  lemma {:induction false} ProjectConcat(a: seq<Event>, b: seq<Event>)
    ensures DataOf(a + b) == DataOf(a) + DataOf(b)
    ensures BreaksIn(a + b) == BreaksIn(a) + BreaksIn(b)
  {
    if a == [] {
      assert a + b == b;
    } else {
      assert (a + b)[1..] == a[1..] + b && (a + b)[0] == a[0];
      ProjectConcat(a[1..], b);
      var first := match a[0] case Break => [] case Data(c) => [c];
      assert first + (DataOf(a[1..]) + DataOf(b)) == first + DataOf(a[1..]) + DataOf(b);
    }
  }

  lemma {:induction false} ProjectData(s: seq<byte>)
    ensures DataOf(AsData(s)) == s && BreaksIn(AsData(s)) == 0
  {
    if s != [] {
      assert AsData(s)[1..] == AsData(s[1..]);
      ProjectData(s[1..]);
    }
  }

  lemma ProjectOne(e: Event, es: seq<Event>)
    ensures DataOf([e] + es) == (match e case Break => [] case Data(b) => [b]) + DataOf(es)
    ensures BreaksIn([e] + es) == (if e == Break then 1 else 0) + BreaksIn(es)
  {
    assert ([e] + es)[1..] == es;
  }

  /** The buffer loses and reorders no byte, and neither loses nor invents a break. */
  lemma {:induction false} DeliveredContents(pending: seq<byte>, es: seq<Event>)
    ensures DataOf(Delivered(pending, es)) == pending + DataOf(es)
    ensures BreaksIn(Delivered(pending, es)) == BreaksIn(es)
    decreases |es|
  {
    ProjectData(pending);
    if es == [] {
      assert pending + [] == pending;
    } else {
      var later := es[1..];
      ProjectOne(es[0], later);
      assert es == [es[0]] + later;
      hide DataOf, BreaksIn, AsData;
      match es[0]
      case Break =>
        DeliveredContents(pending, later);
        ProjectOne(Break, Delivered(pending, later));
      case Data(b) =>
        if |pending| >= PC_LEN {
          DeliveredContents([b], later);
          ProjectConcat(AsData(pending), Delivered([b], later));
        } else {
          DeliveredContents(pending + [b], later);
          assert pending + [b] + DataOf(later) == pending + ([b] + DataOf(later));
        }
    }
  }

  /** No break comes after a byte. */
  predicate BreaksLead(es: seq<Event>) {
    forall i, j :: 0 <= i < j < |es| && es[i].Data? ==> es[j].Data?
  }

  lemma {:induction false} DeliveredPlain(pending: seq<byte>, es: seq<Event>)
    requires forall i :: 0 <= i < |es| ==> es[i].Data?
    ensures Delivered(pending, es) == AsData(pending) + es
    decreases |es|
  {
    if es != [] {
      var b := es[0].b;
      if |pending| >= PC_LEN {
        DeliveredPlain([b], es[1..]);
        assert AsData([b]) + es[1..] == es;
      } else {
        DeliveredPlain(pending + [b], es[1..]);
        assert AsData(pending + [b]) + es[1..] == AsData(pending) + es;
      }
    }
  }

  lemma {:induction false} DeliveredOvertaken(pending: seq<byte>, es: seq<Event>)
    requires pending != [] && Break in es
    ensures Delivered(pending, es) != AsData(pending) + es
    decreases |es|
  {
    match es[0]
    case Break =>
      assert (AsData(pending) + es)[0] == Data(pending[0]);
    case Data(b) =>
      if |pending| >= PC_LEN {
        DeliveredOvertaken([b], es[1..]);
        assert AsData([b]) + es[1..] == es;
        assert (AsData(pending) + Delivered([b], es[1..]))[|pending|..] == Delivered([b], es[1..]);
        assert (AsData(pending) + es)[|pending|..] == es;
      } else {
        DeliveredOvertaken(pending + [b], es[1..]);
        assert AsData(pending + [b]) + es[1..] == AsData(pending) + es;
      }
  }

  /**
    Within one call a break is not kept in its place among the bytes. It is exactly when
    every break of the call comes before the call's first byte.
   */
  lemma {:induction false} OrderKeptIff(es: seq<Event>)
    ensures Delivered([], es) == es <==> BreaksLead(es)
  {
    if es == [] {
    } else if es[0] == Break {
      OrderKeptIff(es[1..]);
      assert es == [Break] + es[1..];
      assert Delivered([], es)[1..] == Delivered([], es[1..]);
      assert BreaksLead(es) <==> BreaksLead(es[1..]) by {
        if BreaksLead(es[1..]) {
          forall i, j | 0 <= i < j < |es| && es[i].Data? ensures es[j].Data? {
            assert es[1..][i - 1] == es[i] && es[1..][j - 1] == es[j];
          }
        }
        if BreaksLead(es) {
          forall i, j | 0 <= i < j < |es[1..]| && es[1..][i].Data? ensures es[1..][j].Data? {
            assert es[1..][i] == es[i + 1] && es[1..][j] == es[j + 1];
          }
        }
      }
    } else if Break in es[1..] {
      DeliveredOvertaken([es[0].b], es[1..]);
      assert AsData([es[0].b]) + es[1..] == es;
      assert [] + [es[0].b] == [es[0].b];
      var j :| 0 <= j < |es[1..]| && es[1..][j] == Break;
      assert es[0].Data? && es[j + 1] == Break;
    } else {
      forall i | 0 <= i < |es| ensures es[i].Data? {
        if i > 0 { assert es[i] in es[1..]; }
      }
      DeliveredPlain([], es);
      assert AsData([]) + es == es;
    }
  }

  /** What the line gets from one call after the other. */
  function DeliveredChunks(cook: bool, esc: bool, chunks: seq<seq<byte>>): seq<Event>
    decreases |chunks|
  {
    if chunks == [] then []
    else
      var first := Decode(cook, esc, chunks[0]);
      Delivered([], first.events) + DeliveredChunks(cook, first.esc, chunks[1..])
  }

  /** In every call the breaks come before the bytes. */
  predicate ChunksLead(cook: bool, esc: bool, chunks: seq<seq<byte>>)
    decreases |chunks|
  {
    chunks != [] ==>
      var first := Decode(cook, esc, chunks[0]);
      BreaksLead(first.events) && ChunksLead(cook, first.esc, chunks[1..])
  }

  lemma {:induction false} DeliveredLength(pending: seq<byte>, es: seq<Event>)
    ensures |Delivered(pending, es)| == |pending| + |es|
    decreases |es|
  {
    if es != [] {
      match es[0]
      case Break => DeliveredLength(pending, es[1..]);
      case Data(b) => DeliveredLength(if |pending| >= PC_LEN then [b] else pending + [b], es[1..]);
    }
  }

  /** Over many calls, too: all breaks keep their place among the bytes, iff in every call they lead. */
  lemma {:induction false} OrderKeptThroughoutIff(cook: bool, esc: bool, chunks: seq<seq<byte>>)
    ensures DeliveredChunks(cook, esc, chunks) == DecodeChunks(cook, esc, chunks).events
            <==> ChunksLead(cook, esc, chunks)
    decreases |chunks|
  {
    hide Decode, Delivered, BreaksLead;
    if chunks != [] {
      var first := Decode(cook, esc, chunks[0]);
      OrderKeptIff(first.events);
      OrderKeptThroughoutIff(cook, first.esc, chunks[1..]);
      DeliveredLength([], first.events);
      SameParts(Delivered([], first.events), DeliveredChunks(cook, first.esc, chunks[1..]),
                first.events, DecodeChunks(cook, first.esc, chunks[1..]).events);
    }
  }

  lemma SameParts(a: seq<Event>, b: seq<Event>, c: seq<Event>, d: seq<Event>)
    requires |a| == |c|
    ensures a + b == c + d <==> a == c && b == d
  {
    assert (a + b)[..|a|] == a && (c + d)[..|c|] == c;
    assert (a + b)[|a|..] == b && (c + d)[|c|..] == d;
  }

  /** One more call. */
  lemma {:induction false} DeliveredMore(cook: bool, esc: bool, chunks: seq<seq<byte>>, chunk: seq<byte>)
    ensures var next := Decode(cook, DecodeChunks(cook, esc, chunks).esc, chunk);
            DeliveredChunks(cook, esc, chunks + [chunk]) == DeliveredChunks(cook, esc, chunks) + Delivered([], next.events)
            && DecodeChunks(cook, esc, chunks + [chunk]).esc == next.esc
    decreases |chunks|
  {
    hide Decode, Delivered;
    var more := chunks + [chunk];
    if chunks == [] {
      assert more[1..] == [] && more[0] == chunk;
    } else {
      assert more[1..] == chunks[1..] + [chunk] && more[0] == chunks[0];
      DeliveredMore(cook, Decode(cook, esc, chunks[0]).esc, chunks[1..], chunk);
    }
  }

  /** No byte is lost, duplicated or reordered, and no break is lost or added. */
  lemma {:induction false} DeliveredChunksContents(cook: bool, esc: bool, chunks: seq<seq<byte>>)
    ensures DataOf(DeliveredChunks(cook, esc, chunks)) == DataOf(DecodeChunks(cook, esc, chunks).events)
    ensures BreaksIn(DeliveredChunks(cook, esc, chunks)) == BreaksIn(DecodeChunks(cook, esc, chunks).events)
    decreases |chunks|
  {
    hide Decode, Delivered;
    if chunks != [] {
      var first := Decode(cook, esc, chunks[0]);
      DeliveredContents([], first.events);
      DeliveredChunksContents(cook, first.esc, chunks[1..]);
      ProjectConcat(Delivered([], first.events), DeliveredChunks(cook, first.esc, chunks[1..]));
      ProjectConcat(first.events, DecodeChunks(cook, first.esc, chunks[1..]).events);
    }
  }

  /** How many of `n` bytes have left the buffer: the whole 1024s that lie before the last byte. */
  function Flushed(n: nat): (f: nat)
    ensures f <= n
  {
    if n == 0 then 0 else (n - 1) / 1024 * 1024
  }

  lemma FlushedMore(n: nat)
    ensures n <= 1024 ==> Flushed(n) == 0
    ensures n > 0 ==> Flushed(n + 1024) == Flushed(n) + 1024
  {
  }

  /** What is on the line, and in which order, after bytes and a break. */
  function BreakAt(all: seq<byte>): seq<Event> {
    AsData(all[..Flushed(|all|)]) + [Break] + AsData(all[Flushed(|all|)..])
  }

  lemma BreakAtMore(pending: seq<byte>, rest: seq<byte>)
    requires |pending| == 1024 && rest != []
    ensures BreakAt(pending + rest) == AsData(pending) + BreakAt(rest)
  {
    var all, sent := pending + rest, Flushed(|rest|);
    FlushedMore(|rest|);
    hide Flushed;
    assert all[..sent + 1024] == pending + rest[..sent] && all[sent + 1024..] == rest[sent..];
  }

  /**
    A break behind the bytes `bs` of one call overtakes those still in the buffer: all but the whole
    1024s that lie before the last byte.
   */
  lemma {:induction false} BreakOvertakesPending(pending: seq<byte>, bs: seq<byte>)
    requires |pending| <= 1024
    ensures Delivered(pending, AsData(bs) + [Break]) == BreakAt(pending + bs)
    decreases |bs|
  {
    var es := AsData(bs) + [Break];
    if bs == [] {
      FlushedMore(|pending|);
      assert es == [Break] && es[1..] == [] && pending + bs == pending;
      assert BreakAt(pending) == [Break] + AsData(pending);
    } else {
      hide BreakAt, Flushed;
      var first, others := [bs[0]], bs[1..];
      assert es[0] == Data(bs[0]) && es[1..] == AsData(others) + [Break] && first + others == bs;
      if |pending| >= PC_LEN {
        BreakOvertakesPending(first, others);
        BreakAtMore(pending, bs);
      } else {
        BreakOvertakesPending(pending + first, others);
        assert pending + first + others == pending + bs;
      }
    }
  }

  /** The wire form: a break is `\b`, a backslash is doubled, any other escaped byte stands for itself. */
  lemma WireForm(b: byte)
    requires b != 92 && b != 98
    ensures Encode([Break]) == [92, 98] && Encode([Data(92)]) == [92, 92] && Encode([Data(b)]) == [b]
    ensures Decode(false, false, [92, b]) == Decoded(false, [Data(b)])
    ensures Decode(false, false, [92]) == Decoded(true, [])
  {
    assert Encode([Break]) == EncodeEvent(Break) + Encode([]);
    assert Encode([Data(92)]) == EncodeEvent(Data(92)) + Encode([]);
    assert Encode([Data(b)]) == EncodeEvent(Data(b)) + Encode([]);
    assert [92, b][1..] == [b] && [b][1..] == [];
    assert Decode(false, true, [b]) == Decoded(false, [Data(b)] + []);
    assert [92][1..] == [];
  }

  /** Cooking puts a carriage return in front of a newline, unless the newline was escaped. */
  lemma CookedForm(esc: bool)
    ensures Decode(true, esc, [10]) == Decoded(false, if esc then [Data(10)] else [Data(13), Data(10)])
    ensures Decode(false, esc, [10]) == Decoded(false, [Data(10)])
  {
    assert [10][1..] == [];
    assert Decode(true, false, []) == Decoded(false, []) == Decode(false, false, []);
  }

  /** A byte and then a break, in one call: the break reaches the line first. */
  lemma BreakOvertakesByte()
    ensures var es := [Data(Ascii('a')), Break];
            Decode(false, false, Encode(es)).events == es &&
            Delivered([], es) == [Break, Data(Ascii('a'))]
  {
    var es := [Data(Ascii('a')), Break];
    RoundTrip(false, es);
    Uncooked(es);
    assert es[1..] == [Break];
    assert Delivered([Ascii('a')], [Break]) == [Break] + Delivered([Ascii('a')], []);
    assert [] + [Ascii('a')] == [Ascii('a')];
  }

  // ----- the keys a user presses ---------------------------------------------------------

  /** Ordinary typing; the command menu that NUL opens; a session that is over. */
  datatype Mode = Typing | Menu | Ended

  /** `calls` counts the menu commands that have run a helper connection so far. */
  datatype Keyboard = Keyboard(mode: Mode, calls: nat)

  datatype Pressed = Pressed(keyboard: Keyboard, events: seq<Event>)

  /** One key. `outcomes(k)` tells whether the k-th helper connection succeeds. */
  function Press(outcomes: nat -> bool, k: Keyboard, key: byte): Pressed {
    var m := Mask7(key);
    match k.mode
    case Ended => Pressed(k, [])
    case Typing =>
      if m == NUL then Pressed(k.(mode := Menu), []) else Pressed(k, [Data(m)])
    case Menu =>
      if m == Ascii('b') then Pressed(k.(mode := Typing), [Break])
      else if m == Ascii('c') then Pressed(k.(mode := Typing), [])
      else if m == Ascii('x') then Pressed(k.(mode := Ended), [])
      else if m == EOT || m == Ascii('q') then
        Pressed(Keyboard(if outcomes(k.calls) then Typing else Ended, k.calls + 1), [])
      else if m == Ascii('d') || m == Ascii('p') || m == Ascii('f') || m == Ascii('n') then
        Pressed(Keyboard(if outcomes(k.calls) then Typing else Menu, k.calls + 1), [])
      else Pressed(k, [])
  }

  function PressAll(outcomes: nat -> bool, k: Keyboard, keys: seq<byte>): Pressed
    decreases |keys|
  {
    if keys == [] then Pressed(k, [])
    else
      var first := Press(outcomes, k, keys[0]);
      var rest := PressAll(outcomes, first.keyboard, keys[1..]);
      Pressed(rest.keyboard, first.events + rest.events)
  }

  /** The wire form of a key followed by more keys. */
  lemma {:induction false} EncodePress(outcomes: nat -> bool, k: Keyboard, key: byte, later: seq<byte>)
    ensures var first := Press(outcomes, k, key);
            Encode(PressAll(outcomes, k, [key] + later).events)
            == Encode(first.events) + Encode(PressAll(outcomes, first.keyboard, later).events)
  {
    var first := Press(outcomes, k, key);
    assert ([key] + later)[1..] == later;
    EncodeConcat(first.events, PressAll(outcomes, first.keyboard, later).events);
  }

  lemma {:induction false} EndedSilent(outcomes: nat -> bool, k: Keyboard, keys: seq<byte>)
    requires k.mode == Ended
    ensures PressAll(outcomes, k, keys) == Pressed(k, [])
  {
    if keys != [] {
      EndedSilent(outcomes, k, keys[1..]);
    }
  }

  /** The wire form of a key typed outside the menu. */
  lemma {:induction false} EncodeTyped(outcomes: nat -> bool, calls: nat, key: byte, later: seq<byte>)
    ensures var now := Encode(PressAll(outcomes, Keyboard(Typing, calls), [key] + later).events);
            var m := Mask7(key);
            now == if m == NUL then Encode(PressAll(outcomes, Keyboard(Menu, calls), later).events)
                   else EncodeEvent(Data(m)) + Encode(PressAll(outcomes, Keyboard(Typing, calls), later).events)
  {
    EncodePress(outcomes, Keyboard(Typing, calls), key, later);
    var m := Mask7(key);
    assert Encode([Data(m)]) == EncodeEvent(Data(m)) + Encode([]);
  }

  /** The wire form of a key pressed in the menu. */
  lemma {:induction false} EncodeMenu(outcomes: nat -> bool, calls: nat, key: byte, later: seq<byte>)
    ensures var now := Encode(PressAll(outcomes, Keyboard(Menu, calls), [key] + later).events);
            var next := Press(outcomes, Keyboard(Menu, calls), key).keyboard;
            var rest := Encode(PressAll(outcomes, next, later).events);
            if next.mode == Ended then now == []
            else if Mask7(key) == Ascii('b') then now == [BACKSLASH, Ascii('b')] + rest
            else now == rest
  {
    EncodePress(outcomes, Keyboard(Menu, calls), key, later);
    var next := Press(outcomes, Keyboard(Menu, calls), key);
    if next.keyboard.mode == Ended {
      EndedSilent(outcomes, next.keyboard, later);
    }
    assert Encode([Break]) == [BACKSLASH, Ascii('b')] + Encode([]);
  }

  /** Keys that are all typed (no NUL among them) are sent as they are, masked to 7 bits. */
  lemma {:induction false} TypingIsData(outcomes: nat -> bool, k: Keyboard, keys: seq<byte>)
    requires k.mode == Typing
    requires forall i :: 0 <= i < |keys| ==> Mask7(keys[i]) != NUL
    ensures PressAll(outcomes, k, keys) ==
            Pressed(k, AsData(seq(|keys|, i requires 0 <= i < |keys| => Mask7(keys[i]))))
  {
    if keys != [] {
      TypingIsData(outcomes, k, keys[1..]);
    }
  }

  /** The keys NUL and `b` ask for one break. */
  lemma {:induction false} MenuBreak(outcomes: nat -> bool, k: Keyboard, keys: seq<byte>)
    requires k.mode == Typing
    ensures PressAll(outcomes, k, [NUL, Ascii('b')] + keys) ==
            Pressed(PressAll(outcomes, k, keys).keyboard,
                    [Break] + PressAll(outcomes, k, keys).events)
  {
    var all := [NUL, Ascii('b')] + keys;
    assert all[1..] == [Ascii('b')] + keys && all[1..][1..] == keys;
    assert Press(outcomes, k.(mode := Menu), Ascii('b')) == Pressed(k, [Break]);
  }

  /** NUL opens the menu, and `c` closes it again: the keys go on as if nothing had been pressed. */
  lemma {:induction false} MenuContinue(outcomes: nat -> bool, calls: nat, keys: seq<byte>)
    ensures PressAll(outcomes, Keyboard(Typing, calls), [NUL, Ascii('c')] + keys)
            == PressAll(outcomes, Keyboard(Typing, calls), keys)
  {
    MenuKeys(outcomes, calls, Ascii('c'), keys);
  }

  /** NUL and `x` end the session: no later key means anything. */
  lemma {:induction false} MenuExit(outcomes: nat -> bool, calls: nat, keys: seq<byte>)
    ensures PressAll(outcomes, Keyboard(Typing, calls), [NUL, Ascii('x')] + keys) == Pressed(Keyboard(Ended, calls), [])
  {
    MenuKeys(outcomes, calls, Ascii('x'), keys);
    EndedSilent(outcomes, Keyboard(Ended, calls), keys);
  }

  /** NUL and `q` (or EOT) resume the session if the helper connection succeeds, and end it otherwise. */
  lemma {:induction false} MenuQuit(outcomes: nat -> bool, calls: nat, key: byte, keys: seq<byte>)
    requires key == Ascii('q') || key == 4
    ensures PressAll(outcomes, Keyboard(Typing, calls), [NUL, key] + keys)
            == if outcomes(calls) then PressAll(outcomes, Keyboard(Typing, calls + 1), keys)
               else Pressed(Keyboard(Ended, calls + 1), [])
  {
    MenuKeys(outcomes, calls, key, keys);
    EndedSilent(outcomes, Keyboard(Ended, calls + 1), keys);
  }

  /** NUL and `d`, `p`, `f` or `n` resume the session if the helper connection succeeds, and leave the menu open otherwise. */
  lemma {:induction false} MenuHelper(outcomes: nat -> bool, calls: nat, key: byte, keys: seq<byte>)
    requires key == Ascii('d') || key == Ascii('p') || key == Ascii('f') || key == Ascii('n')
    ensures PressAll(outcomes, Keyboard(Typing, calls), [NUL, key] + keys)
            == if outcomes(calls) then PressAll(outcomes, Keyboard(Typing, calls + 1), keys)
               else PressAll(outcomes, Keyboard(Menu, calls + 1), keys)
  {
    MenuKeys(outcomes, calls, key, keys);
  }

  /** Any other key leaves the menu open, and nothing else happens. */
  lemma {:induction false} MenuOther(outcomes: nat -> bool, calls: nat, key: byte, keys: seq<byte>)
    requires key < 128 && key != 4
    requires key != Ascii('b') && key != Ascii('c') && key != Ascii('x') && key != Ascii('q')
    requires key != Ascii('d') && key != Ascii('p') && key != Ascii('f') && key != Ascii('n')
    ensures PressAll(outcomes, Keyboard(Menu, calls), [key] + keys) == PressAll(outcomes, Keyboard(Menu, calls), keys)
  {
    assert Press(outcomes, Keyboard(Menu, calls), key) == Pressed(Keyboard(Menu, calls), []);
    hide Press;
    FirstKey(outcomes, Keyboard(Menu, calls), key, keys);
  }

  /** NUL opens the menu. */
  lemma {:induction false} MenuOpens(outcomes: nat -> bool, calls: nat, keys: seq<byte>)
    ensures PressAll(outcomes, Keyboard(Typing, calls), [NUL] + keys) == PressAll(outcomes, Keyboard(Menu, calls), keys)
  {
    assert Press(outcomes, Keyboard(Typing, calls), NUL) == Pressed(Keyboard(Menu, calls), []);
    hide Press;
    FirstKey(outcomes, Keyboard(Typing, calls), NUL, keys);
  }

  lemma {:induction false} FirstKey(outcomes: nat -> bool, k: Keyboard, key: byte, keys: seq<byte>)
    ensures var first := Press(outcomes, k, key);
            var rest := PressAll(outcomes, first.keyboard, keys);
            PressAll(outcomes, k, [key] + keys) == Pressed(rest.keyboard, first.events + rest.events)
  {
    hide Press;
    assert ([key] + keys)[1..] == keys;
  }

  /** The menu takes one key. */
  lemma {:induction false} MenuKeys(outcomes: nat -> bool, calls: nat, key: byte, keys: seq<byte>)
    ensures var pressed := Press(outcomes, Keyboard(Menu, calls), key);
            var later := PressAll(outcomes, pressed.keyboard, keys);
            PressAll(outcomes, Keyboard(Typing, calls), [NUL, key] + keys)
            == Pressed(later.keyboard, pressed.events + later.events)
  {
    hide Press;
    assert [NUL, key] + keys == [NUL] + ([key] + keys);
    MenuOpens(outcomes, calls, [key] + keys);
    FirstKey(outcomes, Keyboard(Menu, calls), key, keys);
  }

  /** The top bit of a key does not matter. */
  lemma {:induction false} TopBitIgnored(outcomes: nat -> bool, k: Keyboard, key: byte, keys: seq<byte>)
    requires key < 128
    ensures PressAll(outcomes, k, [key + 128] + keys) == PressAll(outcomes, k, [key] + keys)
  {
    assert ([key + 128] + keys)[1..] == keys == ([key] + keys)[1..];
    assert Mask7(key + 128) == Mask7(key);
    assert Press(outcomes, k, key + 128) == Press(outcomes, k, key);
  }

  /** The keys that type the events `es`: a byte is typed as it is, a break from the menu. */
  function KeysFor(es: seq<Event>): seq<byte> {
    if es == [] then []
    else (match es[0] case Break => [NUL, Ascii('b')] case Data(b) => [b]) + KeysFor(es[1..])
  }

  /** Any sequence of 7-bit bytes other than NUL, and breaks, can be typed. */
  lemma {:induction false} KeysTypeEvents(outcomes: nat -> bool, k: Keyboard, es: seq<Event>)
    requires k.mode == Typing
    requires forall i :: 0 <= i < |es| && es[i].Data? ==> 0 < es[i].b < 128
    ensures PressAll(outcomes, k, KeysFor(es)) == Pressed(k, es)
    decreases |es|
  {
    if es != [] {
      KeysTypeEvents(outcomes, k, es[1..]);
      match es[0]
      case Break =>
        MenuBreak(outcomes, k, KeysFor(es[1..]));
      case Data(b) =>
        assert ([b] + KeysFor(es[1..]))[1..] == KeysFor(es[1..]);
    }
  }
}
