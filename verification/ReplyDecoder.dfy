/** How a client receives a reply: sget and recvfromReply of lib/connectUtils.c, on their buffers. */
module ReplyDecoder {
  import opened Bytes
  import opened Config
  import opened StatusCodec
  import opened Elapsed

  const MAXHOSTNAME := 64
  /** sizeof(struct reply) - MAXDETAILS */
  const HEADER := 2 + MAXHOSTNAME + MAXNCONNECTIONS

  // ----- sget -----------------------------------------------------------------------------

  lemma {:induction false} GetShort(s: seq<byte>, k: nat, max: nat)
    requires k <= |s| && k <= max && NUL !in s[..k] && (k == |s| || k == max)
    ensures Get(s, max) == Short
    decreases k
  {
    if k > 0 {
      assert s[0] == s[..k][0] && s[1..][..k - 1] == s[..k][1..];
      GetShort(s[1..], k - 1, max - 1);
    }
  }

  lemma GetAt(s: seq<byte>, k: nat, max: nat)
    requires k < |s| && k < max && NUL !in s[..k] && s[k] == NUL
    ensures Get(s, max) == Got(s[..k], s[k + 1..])
  {
    assert s == Terminated(s[..k]) + s[k + 1..];
    GetTerminated(s[..k], s[k + 1..], max);
  }

  /** Of the memory `m`, only the `n` bytes at `at` have changed. */
  predicate OnlyWithin(m: seq<byte>, m': seq<byte>, at: nat, n: nat) {
    |m| == |m'| && at + n <= |m| && m'[..at] == m[..at] && m'[at + n..] == m[at + n..]
  }

  /** A slice of a slice. */
  lemma Within(m: seq<byte>, at: nat, n: nat, i: nat, j: nat)
    requires at + n <= |m| && i <= j <= n
    ensures m[at..at + n][i..j] == m[at + i..at + j]
  {
    var a, b := m[at..at + n][i..j], m[at + i..at + j];
    assert |a| == |b| && forall k :: 0 <= k < |a| ==> a[k] == b[k];
  }

  lemma Unmoved(m: seq<byte>, m': seq<byte>, at: nat, n: nat, i: nat, j: nat)
    requires OnlyWithin(m, m', at, n) && i <= j <= |m| && (j <= at || at + n <= i)
    ensures m'[i..j] == m[i..j]
  {
    if j <= at {
      assert m'[i..j] == m'[..at][i..j] && m[i..j] == m[..at][i..j];
    } else {
      var rest := |m| - at - n;
      assert m'[at + n..at + n + rest] == m'[at + n..] == m[at + n..] == m[at + n..at + n + rest];
      Within(m, at + n, rest, i - at - n, j - at - n);
      Within(m', at + n, rest, i - at - n, j - at - n);
    }
  }

  /** Changes within adjoining areas. */
  lemma WithinBoth(m: seq<byte>, m1: seq<byte>, m2: seq<byte>, at: nat, n1: nat, n2: nat)
    requires OnlyWithin(m, m1, at, n1) && OnlyWithin(m1, m2, at + n1, n2)
    ensures OnlyWithin(m, m2, at, n1 + n2)
  {
    Unmoved(m1, m2, at + n1, n2, 0, at);
    Unmoved(m, m1, at, n1, at + n1 + n2, |m|);
    assert m2[..at] == m2[0..at] == m1[0..at] == m1[..at];
    assert m2[at + n1 + n2..] == m1[at + n1 + n2..|m|] == m[at + n1 + n2..];
  }

  /** Copies a string from the `dlen` bytes at `pos` to the field of `max` bytes at `at`, and nowhere else. */
  method Sget(from: array<byte>, pos: nat, dlen: nat, to: array<byte>, at: nat, max: nat) returns (ok: bool, used: nat)
    requires from != to && pos + dlen <= from.Length && at + max <= to.Length
    modifies to
    ensures used <= dlen && used <= max && OnlyWithin(old(to[..]), to[..], at, max)
    ensures var g := Get(from[pos..pos + dlen], max);
            ok == g.Got? && (ok ==> CStr(to[..][at..at + max]) == g.text && from[pos + used..pos + dlen] == g.rest)
  {
    hide Get, CStr;
    ghost var s := from[pos..pos + dlen];
    used := 0;
    while used < dlen && used < max
      invariant used <= dlen && used <= max
      invariant from[pos..pos + dlen] == s && NUL !in s[..used]
      invariant to[at..at + used] == s[..used]
      invariant to[..at] == old(to[..at]) && to[at + max..] == old(to[at + max..])
    {
      var ch := from[pos + used];
      assert ch == s[used] && s[..used + 1] == s[..used] + [ch];
      to[at + used] := ch;
      used := used + 1;
      assert to[at..at + used] == s[..used];
      if ch == NUL {
        GetAt(s, used - 1, max);
        TextThere(to[..], at, max, s[..used - 1]);
        return true, used;
      }
    }
    GetShort(s, used, max);
    return false, used;
  }

  lemma TextThere(m: seq<byte>, at: nat, max: nat, text: seq<byte>)
    requires at + max <= |m| && |text| < max && NUL !in text
    requires m[at..at + |text| + 1] == text + [NUL]
    ensures CStr(m[at..at + max]) == text
  {
    var tail := m[at + |text| + 1..at + max];
    assert m[at..at + max] == m[at..at + |text| + 1] + tail;
    CStrTerminated(text, tail);
  }

  // ----- one record --------------------------------------------------------------------------

  // Offsets of the fields of `struct statusreplyData`, which is all bytes.
  const AT_CLASS := MAXCONNECTIONNAME
  const AT_ACTIVE := AT_CLASS + MAXCLASSNAME
  const AT_USER := AT_ACTIVE + 1
  const AT_TIME := AT_USER + MAXUSERNAME

  /** The record a client sees in `RECORD_SIZE` bytes of memory. */
  function RecordIn(m: seq<byte>): Record
    requires |m| == RECORD_SIZE
  {
    Record(CStr(m[..AT_CLASS]), CStr(m[AT_CLASS..AT_ACTIVE]), m[AT_ACTIVE] != NUL,
           CStr(m[AT_USER..AT_TIME]), CStr(m[AT_TIME..]))
  }

  /** A record's fields, read off the memory they lie in. */
  lemma FieldsOf(m: seq<byte>, at: nat, r: Record)
    requires at + RECORD_SIZE <= |m|
    requires CStr(m[at..at + AT_CLASS]) == r.conname && CStr(m[at + AT_CLASS..at + AT_ACTIVE]) == r.conclass
    requires r.active == (m[at + AT_ACTIVE] != NUL)
    requires CStr(m[at + AT_USER..at + AT_TIME]) == r.user && CStr(m[at + AT_TIME..at + RECORD_SIZE]) == r.contime
    ensures RecordIn(m[at..at + RECORD_SIZE]) == r
  {
    hide CStr;
    Within(m, at, RECORD_SIZE, 0, AT_CLASS);
    Within(m, at, RECORD_SIZE, AT_CLASS, AT_ACTIVE);
    Within(m, at, RECORD_SIZE, AT_USER, AT_TIME);
    Within(m, at, RECORD_SIZE, AT_TIME, RECORD_SIZE);
    var r' := m[at..at + RECORD_SIZE];
    assert r'[..AT_CLASS] == r'[0..AT_CLASS] && r'[AT_TIME..] == r'[AT_TIME..RECORD_SIZE];
  }

  /** Name and class. */
  method GetNames(from: array<byte>, pos: nat, dlen: nat, to: array<byte>, at: nat) returns (ok: bool, used: nat)
    requires from != to && pos + dlen <= from.Length && at + RECORD_SIZE <= to.Length
    modifies to
    ensures used <= dlen && OnlyWithin(old(to[..]), to[..], at, AT_ACTIVE)
    ensures var s := from[pos..pos + dlen];
            var name := Get(s, MAXCONNECTIONNAME);
            var cls := if name.Short? then Short else Get(name.rest, MAXCLASSNAME);
            ok == cls.Got?
            && (ok ==> CStr(to[..][at..at + AT_CLASS]) == name.text
                       && CStr(to[..][at + AT_CLASS..at + AT_ACTIVE]) == cls.text
                       && from[pos + used..pos + dlen] == cls.rest)
  {
    hide Get, CStr;
    ghost var m := to[..];
    ok, used := Sget(from, pos, dlen, to, at, MAXCONNECTIONNAME);
    ghost var m1 := to[..];
    if !ok {
      WithinBoth(m, m1, m1, at, AT_CLASS, MAXCLASSNAME);
      return;
    }
    var n;
    ok, n := Sget(from, pos + used, dlen - used, to, at + AT_CLASS, MAXCLASSNAME);
    used := used + n;
    WithinBoth(m, m1, to[..], at, AT_CLASS, MAXCLASSNAME);
    Unmoved(m1, to[..], at + AT_CLASS, MAXCLASSNAME, at, at + AT_CLASS);
  }

  /** User and time. */
  method GetSession(from: array<byte>, pos: nat, dlen: nat, to: array<byte>, at: nat) returns (ok: bool, used: nat)
    requires from != to && pos + dlen <= from.Length && at + RECORD_SIZE <= to.Length
    modifies to
    ensures used <= dlen && OnlyWithin(old(to[..]), to[..], at + AT_USER, MAXUSERNAME + MAXTIMELENGTH)
    ensures var s := from[pos..pos + dlen];
            var user := Get(s, MAXUSERNAME);
            var time := if user.Short? then Short else Get(user.rest, MAXTIMELENGTH);
            ok == time.Got?
            && (ok ==> CStr(to[..][at + AT_USER..at + AT_TIME]) == user.text
                       && CStr(to[..][at + AT_TIME..at + RECORD_SIZE]) == time.text
                       && from[pos + used..pos + dlen] == time.rest)
  {
    hide Get, CStr;
    ghost var m := to[..];
    ok, used := Sget(from, pos, dlen, to, at + AT_USER, MAXUSERNAME);
    ghost var m1 := to[..];
    if !ok {
      WithinBoth(m, m1, m1, at + AT_USER, MAXUSERNAME, MAXTIMELENGTH);
      return;
    }
    var n;
    ok, n := Sget(from, pos + used, dlen - used, to, at + AT_TIME, MAXTIMELENGTH);
    used := used + n;
    WithinBoth(m, m1, to[..], at + AT_USER, MAXUSERNAME, MAXTIMELENGTH);
    Unmoved(m1, to[..], at + AT_TIME, MAXTIMELENGTH, at + AT_USER, at + AT_TIME);
  }

  /** The mark of an active connection. */
  method MarkActive(to: array<byte>, at: nat)
    requires at + RECORD_SIZE <= to.Length
    modifies to
    ensures to[at + AT_ACTIVE] == 1 && OnlyWithin(old(to[..]), to[..], at + AT_ACTIVE, 1)
  {
    to[at + AT_ACTIVE] := 1;
  }

  /** A connection that is not active has neither user nor time. */
  method MarkInactive(to: array<byte>, at: nat)
    requires at + RECORD_SIZE <= to.Length
    modifies to
    ensures to[at + AT_ACTIVE] == NUL && OnlyWithin(old(to[..]), to[..], at + AT_ACTIVE, RECORD_SIZE - AT_ACTIVE)
    ensures CStr(to[..][at + AT_USER..at + AT_TIME]) == [] && CStr(to[..][at + AT_TIME..at + RECORD_SIZE]) == []
  {
    to[at + AT_ACTIVE] := NUL;
    to[at + AT_USER] := NUL;
    to[at + AT_TIME] := NUL;
    assert to[..][at + AT_USER..at + AT_TIME][0] == NUL && to[..][at + AT_TIME..at + RECORD_SIZE][0] == NUL;
  }

  /** The mark, and for an active connection user and time. */
  method GetActivity(from: array<byte>, pos: nat, dlen: nat, to: array<byte>, at: nat) returns (ok: bool, used: nat)
    requires from != to && pos + dlen <= from.Length && at + RECORD_SIZE <= to.Length
    modifies to
    ensures used <= dlen && OnlyWithin(old(to[..]), to[..], at + AT_ACTIVE, RECORD_SIZE - AT_ACTIVE)
    ensures var d := DecodeSession(from[pos..pos + dlen]);
            ok == d.Session?
            && (ok ==> d.active == (to[at + AT_ACTIVE] != NUL)
                       && CStr(to[..][at + AT_USER..at + AT_TIME]) == d.user
                       && CStr(to[..][at + AT_TIME..at + RECORD_SIZE]) == d.contime
                       && from[pos + used..pos + dlen] == d.rest)
  {
    hide Get, CStr;
    if dlen <= 0 {
      return false, 0;
    }
    var active := from[pos];
    used := 1;
    assert from[pos..pos + dlen][1..] == from[pos + 1..pos + dlen];
    if active == NUL {
      MarkInactive(to, at);
      return true, used;
    }
    ghost var m := to[..];
    MarkActive(to, at);
    ghost var m1 := to[..];
    var n;
    ok, n := GetSession(from, pos + used, dlen - used, to, at);
    used := used + n;
    WithinBoth(m, m1, to[..], at + AT_ACTIVE, 1, MAXUSERNAME + MAXTIMELENGTH);
    Unmoved(m1, to[..], at + AT_USER, MAXUSERNAME + MAXTIMELENGTH, at + AT_ACTIVE, at + AT_USER);
    assert to[at + AT_ACTIVE] == to[..][at + AT_ACTIVE..at + AT_USER][0] == m1[at + AT_ACTIVE..at + AT_USER][0];
  }

  /** The loop body of recvfromReply: one record, from the `dlen` bytes at `pos` to its place `at`. */
  method GetRecord(from: array<byte>, pos: nat, dlen: nat, to: array<byte>, at: nat) returns (ok: bool, used: nat)
    requires from != to && pos + dlen <= from.Length && at + RECORD_SIZE <= to.Length
    modifies to
    ensures used <= dlen && OnlyWithin(old(to[..]), to[..], at, RECORD_SIZE)
    ensures var d := DecodeRecord(from[pos..pos + dlen]);
            ok == d.DecodedOne?
            && (ok ==> RecordIn(to[..][at..at + RECORD_SIZE]) == d.record && from[pos + used..pos + dlen] == d.rest)
  {
    hide Get, CStr, RecordIn, OnlyWithin, DecodeSession;
    ghost var m := to[..];
    ghost var d := DecodeRecord(from[pos..pos + dlen]);
    ok, used := GetNames(from, pos, dlen, to, at);
    ghost var m1 := to[..];
    if !ok {
      Unchanged(m1, at + AT_ACTIVE, RECORD_SIZE - AT_ACTIVE);
      WithinBoth(m, m1, m1, at, AT_ACTIVE, RECORD_SIZE - AT_ACTIVE);
      return;
    }
    var n;
    ok, n := GetActivity(from, pos + used, dlen - used, to, at);
    used := used + n;
    WithinBoth(m, m1, to[..], at, AT_ACTIVE, RECORD_SIZE - AT_ACTIVE);
    if ok {
      Unmoved(m1, to[..], at + AT_ACTIVE, RECORD_SIZE - AT_ACTIVE, at, at + AT_CLASS);
      Unmoved(m1, to[..], at + AT_ACTIVE, RECORD_SIZE - AT_ACTIVE, at + AT_CLASS, at + AT_ACTIVE);
      FieldsOf(to[..], at, d.record);
    }
  }

  lemma Unchanged(m: seq<byte>, at: nat, n: nat)
    requires at + n <= |m|
    ensures OnlyWithin(m, m, at, n)
  {
  }

  // ----- the reply -----------------------------------------------------------------------------

  /** `struct reply`, apart from its version. */
  class Reply {
    var code: byte
    const hostname: array<byte>
    const numconnections: array<byte>
    const details: array<byte>

    constructor ()
      ensures Valid()
      ensures fresh(hostname) && fresh(numconnections) && fresh(details)
    {
      code := 0;
      hostname := new byte[MAXHOSTNAME];
      numconnections := new byte[MAXNCONNECTIONS];
      details := new byte[MAXDETAILS];
    }

    ghost predicate Valid()
    {
      hostname != numconnections && hostname != details && numconnections != details
      && hostname.Length == MAXHOSTNAME && numconnections.Length == MAXNCONNECTIONS && details.Length == MAXDETAILS
    }
  }

  /** How many records the header counts, and a client walks. */
  function Walked(packet: seq<byte>): int
    requires |packet| >= HEADER
  {
    Atoi(CStr(packet[2 + MAXHOSTNAME..HEADER - 1]))
  }

  /** How many records the decoder looks for: what the header says, but at most `MAXNCONNECTIONS`. */
  function CountIn(packet: seq<byte>): int
    requires |packet| >= HEADER
  {
    if Walked(packet) > MAXNCONNECTIONS then MAXNCONNECTIONS else Walked(packet)
  }

  /** The decoder accepts a packet with a whole header, of its version, whose records can be taken apart. */
  predicate Accepts(packet: seq<byte>) {
    |packet| >= HEADER && packet[0] == CURVERSION
    && (CountIn(packet) > 0 ==> DecodeRecords(packet[HEADER..], CountIn(packet)).Decoded?)
  }

  /** The records of an accepted packet that a client gets to see. */
  function Shown(packet: seq<byte>): seq<Record>
    requires Accepts(packet) && CountIn(packet) > 0
  {
    DecodeRecords(packet[HEADER..], CountIn(packet)).records
  }

  lemma {:induction false} DecodedLength(s: seq<byte>, n: nat)
    requires DecodeRecords(s, n).Decoded?
    ensures |DecodeRecords(s, n).records| == n
    decreases n
  {
    hide DecodeRecord;
    if n > 0 {
      DecodedLength(DecodeRecord(s).rest, n - 1);
    }
  }

  /** Every record a client walks has been decoded, unless the header counts more than `MAXNCONNECTIONS`. */
  lemma WalkedIffShown(packet: seq<byte>)
    requires Accepts(packet) && CountIn(packet) > 0
    ensures |Shown(packet)| == CountIn(packet) <= Walked(packet)
    ensures |Shown(packet)| == Walked(packet) <==> Walked(packet) <= MAXNCONNECTIONS
  {
    hide DecodeRecords;
    DecodedLength(packet[HEADER..], CountIn(packet));
  }

  lemma {:induction false} CStrWithNul(s: seq<byte>)
    ensures CStr(s + [NUL]) == CStr(s)
  {
    if s == [] || s[0] == NUL {
      assert (s + [NUL])[0] == NUL;
    } else {
      assert (s + [NUL])[1..] == s[1..] + [NUL];
      CStrWithNul(s[1..]);
    }
  }

  /** The copy of the header: the strings in it are terminated at the end of their fields. */
  method CopyHeader(packet: seq<byte>, reply: Reply)
    requires reply.Valid() && HEADER <= |packet|
    modifies reply, reply.hostname, reply.numconnections
    ensures reply.code == packet[1]
    ensures reply.hostname[..] == packet[2..1 + MAXHOSTNAME] + [NUL]
    ensures reply.numconnections[..] == packet[2 + MAXHOSTNAME..HEADER - 1] + [NUL]
  {
    reply.code := packet[1];
    forall i | 0 <= i < MAXHOSTNAME {
      reply.hostname[i] := packet[2 + i];
    }
    reply.hostname[MAXHOSTNAME - 1] := NUL;
    forall i | 0 <= i < MAXNCONNECTIONS {
      reply.numconnections[i] := packet[2 + MAXHOSTNAME + i];
    }
    reply.numconnections[MAXNCONNECTIONS - 1] := NUL;
  }

  /** The `i`-th record of the reply's details. */
  function RecordAt(details: seq<byte>, i: nat): Record
    requires RECORD_SIZE * (i + 1) <= |details|
  {
    RecordIn(details[RECORD_SIZE * i..RECORD_SIZE * (i + 1)])
  }

  /** The details begin with the records, and are as they were behind them. */
  predicate HoldsRecords(details: seq<byte>, before: seq<byte>, records: seq<Record>) {
    RECORD_SIZE * |records| <= |details| == |before|
    && (forall i :: 0 <= i < |records| ==> RecordAt(details, i) == records[i])
    && details[RECORD_SIZE * |records|..] == before[RECORD_SIZE * |records|..]
  }

  /** What is decoded in all, after the records `rs`. */
  function Onward(rs: seq<Record>, rest: Decoded): Decoded {
    match rest case Rejected => Rejected case Decoded(more, tail) => Decoded(rs + more, tail)
  }

  lemma NextRecord(rs: seq<Record>, s: seq<byte>, n: nat)
    requires n > 0
    ensures var d := DecodeRecord(s);
            Onward(rs, DecodeRecords(s, n))
            == if d.RejectedOne? then Rejected else Onward(rs + [d.record], DecodeRecords(d.rest, n - 1))
  {
    var d := DecodeRecord(s);
    hide DecodeRecord;
    if d.DecodedOne? && DecodeRecords(d.rest, n - 1).Decoded? {
      var more := DecodeRecords(d.rest, n - 1).records;
      assert rs + ([d.record] + more) == rs + [d.record] + more;
    }
  }

  lemma NoMoreRecords(rs: seq<Record>, s: seq<byte>)
    ensures Onward(rs, DecodeRecords(s, 0)) == Decoded(rs, s)
  {
    assert rs + [] == rs;
  }

  lemma AllRecords(s: seq<byte>, n: nat)
    ensures Onward([], DecodeRecords(s, n)) == DecodeRecords(s, n)
  {
    hide DecodeRecords;
    var d := DecodeRecords(s, n);
    if d.Decoded? {
      assert [] + d.records == d.records;
    }
  }

  lemma EarlierRecords(m: seq<byte>, m': seq<byte>, i: nat, j: nat)
    requires j < i && OnlyWithin(m, m', RECORD_SIZE * i, RECORD_SIZE)
    ensures RecordAt(m', j) == RecordAt(m, j)
  {
    hide RecordIn;
    Unmoved(m, m', RECORD_SIZE * i, RECORD_SIZE, RECORD_SIZE * j, RECORD_SIZE * (j + 1));
  }

  /** Writing one record changes nothing behind the last. */
  lemma Behind(m: seq<byte>, m': seq<byte>, i: nat, n: nat)
    requires i < n && RECORD_SIZE * n <= |m| && OnlyWithin(m, m', RECORD_SIZE * i, RECORD_SIZE)
    ensures |m'| == |m| && m'[RECORD_SIZE * n..] == m[RECORD_SIZE * n..]
  {
    Unmoved(m, m', RECORD_SIZE * i, RECORD_SIZE, RECORD_SIZE * n, |m|);
    assert m'[RECORD_SIZE * n..] == m'[RECORD_SIZE * n..|m|] && m[RECORD_SIZE * n..] == m[RECORD_SIZE * n..|m|];
  }

  /** The records, one after the other, into their places. */
  method GetRecords(from: array<byte>, pos0: nat, dlen0: nat, numc: nat, to: array<byte>) returns (ok: bool)
    requires from != to && pos0 + dlen0 <= from.Length && RECORD_SIZE * numc <= to.Length
    modifies to
    ensures var d := DecodeRecords(from[pos0..pos0 + dlen0], numc);
            ok == d.Decoded? && (ok ==> |d.records| == numc && HoldsRecords(to[..], old(to[..]), d.records))
  {
    hide DecodeRecord, DecodeRecords, RecordIn, RecordAt, OnlyWithin;
    var pos: nat, dlen: nat := pos0, dlen0;
    ghost var all := DecodeRecords(from[pos0..pos0 + dlen0], numc);
    ghost var rs: seq<Record> := [];
    AllRecords(from[pos0..pos0 + dlen0], numc);
    var i: nat := 0;
    while i < numc
      invariant i <= numc && |rs| == i && pos + dlen <= from.Length
      invariant all == Onward(rs, DecodeRecords(from[pos..pos + dlen], numc - i))
      invariant forall j :: 0 <= j < i ==> RecordAt(to[..], j) == rs[j]
      invariant to[RECORD_SIZE * numc..] == old(to[RECORD_SIZE * numc..])
    {
      ghost var m := to[..];
      ghost var s := from[pos..pos + dlen];
      NextRecord(rs, s, numc - i);
      var used;
      ok, used := GetRecord(from, pos, dlen, to, RECORD_SIZE * i);
      Behind(m, to[..], i, numc);
      if !ok {
        return;
      }
      ghost var r := DecodeRecord(s).record;
      RecordPlace(to[..], i, r);
      forall j | 0 <= j < i ensures RecordAt(to[..], j) == rs[j] {
        EarlierRecords(m, to[..], i, j);
      }
      rs := rs + [r];
      pos, dlen := pos + used, dlen - used;
      i := i + 1;
    }
    NoMoreRecords(rs, from[pos..pos + dlen]);
    ok := true;
  }

  lemma RecordPlace(m: seq<byte>, i: nat, r: Record)
    requires RECORD_SIZE * i + RECORD_SIZE <= |m|
    requires RecordIn(m[RECORD_SIZE * i..RECORD_SIZE * i + RECORD_SIZE]) == r
    ensures RecordAt(m, i) == r
  {
  }

  /** A reply that holds no records holds a text; at most the last byte of a full one is lost. */
  function TextIn(packet: seq<byte>): seq<byte>
    requires HEADER <= |packet| <= HEADER + MAXDETAILS
  {
    if |packet| == HEADER + MAXDETAILS then packet[HEADER..|packet| - 1] else packet[HEADER..]
  }

  /** The text of a reply without records. */
  method CopyText(packet: seq<byte>, replycopy: array<byte>, details: array<byte>)
    requires HEADER <= |packet| <= HEADER + MAXDETAILS && replycopy != details
    requires replycopy.Length == details.Length == MAXDETAILS && replycopy[..|packet| - HEADER] == packet[HEADER..]
    modifies replycopy, details
    ensures |TextIn(packet)| < MAXDETAILS && details[..|TextIn(packet)| + 1] == TextIn(packet) + [NUL]
  {
    var dlen: nat := |packet| - HEADER;
    if dlen == MAXDETAILS {
      dlen := dlen - 1;
    }
    assert replycopy[..dlen] == TextIn(packet);
    replycopy[dlen] := NUL;
    forall i | 0 <= i < dlen + 1 {
      details[i] := replycopy[i];
    }
    assert details[..dlen + 1] == replycopy[..dlen + 1];
  }

  /** The details: records, or a text. What lies behind the last decoded record stays as it was. */
  method GetDetails(packet: seq<byte>, numc: int, replycopy: array<byte>, details: array<byte>) returns (ok: bool)
    requires HEADER <= |packet| <= HEADER + MAXDETAILS && numc == CountIn(packet) && replycopy != details
    requires replycopy.Length == details.Length == MAXDETAILS && replycopy[..|packet| - HEADER] == packet[HEADER..]
    modifies replycopy, details
    ensures ok <==> (numc > 0 ==> DecodeRecords(packet[HEADER..], numc).Decoded?)
    ensures numc <= 0 ==> |TextIn(packet)| < MAXDETAILS && details[..|TextIn(packet)| + 1] == TextIn(packet) + [NUL]
    ensures ok && numc > 0 ==>
              |DecodeRecords(packet[HEADER..], numc).records| == numc
              && HoldsRecords(details[..], old(details[..]), DecodeRecords(packet[HEADER..], numc).records)
  {
    hide Walked, TextIn, HoldsRecords, DecodeRecords;
    if numc <= 0 {
      CopyText(packet, replycopy, details);
      return true;
    }
    assert replycopy[0..0 + (|packet| - HEADER)] == packet[HEADER..];
    ok := GetRecords(replycopy, 0, |packet| - HEADER, numc, details);
  }

  /**
    recvfromReply, on a packet that has been received. It accepts exactly what can be taken
    apart, reads nothing past the packet and writes nothing past a field or behind the last
    record it decodes.
   */
  method RecvFromReply(packet: seq<byte>, reply: Reply) returns (ok: bool)
    requires reply.Valid() && |packet| <= HEADER + MAXDETAILS
    modifies reply, reply.hostname, reply.numconnections, reply.details
    ensures ok <==> Accepts(packet)
    ensures ok ==> reply.code == packet[1] && reply.hostname[..] == packet[2..1 + MAXHOSTNAME] + [NUL]
    ensures ok ==> reply.numconnections[..] == packet[2 + MAXHOSTNAME..HEADER - 1] + [NUL]
    ensures ok && CountIn(packet) <= 0 ==>
              |TextIn(packet)| < MAXDETAILS && reply.details[..|TextIn(packet)| + 1] == TextIn(packet) + [NUL]
    ensures ok && CountIn(packet) > 0 ==>
              |Shown(packet)| == CountIn(packet) && HoldsRecords(reply.details[..], old(reply.details[..]), Shown(packet))
  {
    hide DecodeRecords, HoldsRecords, CStr, TextIn;
    if |packet| - HEADER < 0 {
      return false;
    }
    if packet[0] != CURVERSION {
      return false;
    }
    var replycopy := new byte[MAXDETAILS];
    forall i | 0 <= i < |packet| - HEADER {
      replycopy[i] := packet[HEADER + i];
    }
    assert replycopy[..|packet| - HEADER] == packet[HEADER..];
    CopyHeader(packet, reply);
    assert reply.details[..] == old(reply.details[..]);
    CStrWithNul(packet[2 + MAXHOSTNAME..HEADER - 1]);
    var numc := Atoi(CStr(reply.numconnections[..]));
    if numc > MAXNCONNECTIONS {
      numc := MAXNCONNECTIONS;
    }
    ok := GetDetails(packet, numc, replycopy, reply.details);
  }

  // ----- the two ends together ---------------------------------------------------------------------

  /**
    The packet the server sends: initReply's header, and `details`. What lies behind the
    terminator of the count in its field is not initialised.
   */
  function PacketOf(code: byte, hostname: seq<byte>, count: nat, junk: seq<byte>, details: seq<byte>): (p: seq<byte>)
    requires |hostname| == MAXHOSTNAME && |Digits(count)| < MAXNCONNECTIONS && |junk| == MAXNCONNECTIONS
    ensures |p| == HEADER + |details|
  {
    [CURVERSION, code] + hostname + (Digits(count) + [NUL] + junk)[..MAXNCONNECTIONS] + details
  }

  /** Where things lie in a packet. */
  lemma PacketLayout(code: byte, hostname: seq<byte>, count: nat, junk: seq<byte>, details: seq<byte>)
    requires |hostname| == 64 && |junk| == 4 && |Digits(count)| < 4
    ensures var p := PacketOf(code, hostname, count, junk, details);
            p[0] == Ascii('C') && p[1] == code && p[2..66] == hostname
            && p[66..66 + |Digits(count)| + 1] == Digits(count) + [0] && p[70..] == details
  {
    var field := (Digits(count) + [NUL] + junk)[..MAXNCONNECTIONS];
    var p := PacketOf(code, hostname, count, junk, details);
    assert p == [CURVERSION, code] + hostname + (field + details);
    assert p[66..] == field + details;
    assert field[..|Digits(count)| + 1] == Digits(count) + [NUL];
    assert p[66..66 + |Digits(count)| + 1] == p[66..][..|Digits(count)| + 1];
  }

  /** Packets of another version are rejected, and such as are too short for a header. */
  lemma OthersRejected(packet: seq<byte>)
    requires |packet| < 70 || packet[0] != Ascii('C')
    ensures !Accepts(packet)
  {
  }

  /** The bytes of a record: name, class, a mark, and for an active one user and time, each string terminated. */
  lemma RecordBytes(name: seq<byte>, cls: seq<byte>, user: seq<byte>, time: seq<byte>)
    ensures EncodeRecord(Record(name, cls, true, user, time)) == name + [0] + cls + [0, 1] + user + [0] + time + [0]
    ensures EncodeRecord(Record(name, cls, false, [], [])) == name + [0] + cls + [0, 0]
  {
  }

  lemma CountArrives(code: byte, hostname: seq<byte>, count: nat, junk: seq<byte>, details: seq<byte>)
    requires |hostname| == MAXHOSTNAME && |Digits(count)| < MAXNCONNECTIONS && |junk| == MAXNCONNECTIONS
    ensures var p := PacketOf(code, hostname, count, junk, details);
            p[0] == CURVERSION && p[HEADER..] == details && Walked(p) == count
            && CountIn(p) == if count > MAXNCONNECTIONS then MAXNCONNECTIONS else count
  {
    var p := PacketOf(code, hostname, count, junk, details);
    var digits := Digits(count);
    var field := (digits + [NUL] + junk)[..MAXNCONNECTIONS];
    var seen := p[2 + MAXHOSTNAME..HEADER - 1];
    assert seen == field[..MAXNCONNECTIONS - 1];
    if |digits| == MAXNCONNECTIONS - 1 {
      assert seen == digits;
      CStrWhole(digits);
    } else {
      assert seen == digits + [NUL] + seen[|digits| + 1..];
      CStrTerminated(digits, seen[|digits| + 1..]);
    }
    AtoiDigits(count);
  }

  /** Records under a header that counts `count`: as many as the decoder looks for are shown. */
  lemma PacketShows(code: byte, hostname: seq<byte>, count: nat, junk: seq<byte>, rs: seq<Record>)
    requires |hostname| == MAXHOSTNAME && |junk| == MAXNCONNECTIONS
    requires AllFit(rs) && 0 < count && |Digits(count)| < MAXNCONNECTIONS
    requires |rs| >= MAXNCONNECTIONS || |rs| >= count
    ensures var p := PacketOf(code, hostname, count, junk, EncodeRecords(rs));
            var n := if count > MAXNCONNECTIONS then MAXNCONNECTIONS else count;
            Accepts(p) && Walked(p) == count && CountIn(p) == n > 0 && Shown(p) == rs[..n]
  {
    hide PacketOf, DecodeRecords, EncodeRecords, Walked, CountIn, AllFit, Digits;
    CountArrives(code, hostname, count, junk, EncodeRecords(rs));
    RoundTrip(rs, if count > MAXNCONNECTIONS then MAXNCONNECTIONS else count);
  }

  /** A status reply of any fitting listing is accepted, and the client sees its first four records as they were sent. */
  lemma {:induction false} PacketRoundTrip(code: byte, hostname: seq<byte>, junk: seq<byte>, rs: seq<Record>)
    requires |hostname| == MAXHOSTNAME && |junk| == MAXNCONNECTIONS
    requires AllFit(rs) && rs != [] && |Digits(|rs|)| < MAXNCONNECTIONS
    ensures var p := PacketOf(code, hostname, |rs|, junk, EncodeRecords(rs));
            var n := if |rs| > MAXNCONNECTIONS then MAXNCONNECTIONS else |rs|;
            Accepts(p) && Walked(p) == |rs| && CountIn(p) == n > 0 && Shown(p) == rs[..n]
  {
    hide *;
    PacketShows(code, hostname, |rs|, junk, rs);
  }

  /** A connection in use. */
  const BUSY := Record([Ascii('c')], [Ascii('m')], true, [Ascii('u')], [Ascii('0')])

  /** Five records: the packet is accepted, the header counts five, and the client sees four. */
  lemma FiveRecords(code: byte, hostname: seq<byte>, junk: seq<byte>)
    requires |hostname| == MAXHOSTNAME && |junk| == MAXNCONNECTIONS
    ensures var rs := [BUSY, BUSY, BUSY, BUSY, BUSY];
            AllFit(rs) && |Digits(5)| < MAXNCONNECTIONS
            && var p := PacketOf(code, hostname, 5, junk, EncodeRecords(rs));
               Accepts(p) && Walked(p) == 5 && CountIn(p) == 4 && Shown(p) == rs[..4] != rs
  {
    hide PacketOf, EncodeRecords, CountIn, Walked, Shown, Accepts;
    PacketRoundTrip(code, hostname, junk, [BUSY, BUSY, BUSY, BUSY, BUSY]);
  }

  /** A listing no longer than the client decodes is rejected when it arrives cut short. */
  lemma CutPacketRejected(code: byte, hostname: seq<byte>, junk: seq<byte>, rs: seq<Record>, cut: nat)
    requires |hostname| == MAXHOSTNAME && |junk| == MAXNCONNECTIONS
    requires AllFit(rs) && 0 < |rs| <= MAXNCONNECTIONS && |Digits(|rs|)| < MAXNCONNECTIONS
    requires cut < |EncodeRecords(rs)|
    ensures !Accepts(PacketOf(code, hostname, |rs|, junk, EncodeRecords(rs)[..cut]))
  {
    hide PacketOf, DecodeRecords, EncodeRecords, CountIn, AllFit, Digits;
    CountArrives(code, hostname, |rs|, junk, EncodeRecords(rs)[..cut]);
    PrefixRejected(rs, cut);
  }

  /** ServerReplyMesg: a text that fits the details comes back unchanged. */
  lemma MessageRoundTrip(code: byte, hostname: seq<byte>, junk: seq<byte>, text: seq<byte>)
    requires |hostname| == MAXHOSTNAME && |junk| == MAXNCONNECTIONS && NUL !in text && |text| < MAXDETAILS
    ensures var p := PacketOf(code, hostname, 0, junk, Terminated(text));
            Accepts(p) && CountIn(p) == 0 && |p| <= HEADER + MAXDETAILS
            && CStr(TextIn(p) + [NUL]) == text
  {
    var p := PacketOf(code, hostname, 0, junk, Terminated(text));
    CountArrives(code, hostname, 0, junk, Terminated(text));
    hide PacketOf, CountIn;
    if |p| == HEADER + MAXDETAILS {
      assert TextIn(p) == p[HEADER..][..|text|] == text;
      assert TextIn(p) + [NUL] + [] == TextIn(p) + [NUL];
      CStrTerminated(text, []);
    } else {
      assert TextIn(p) + [NUL] == text + [NUL] + [NUL];
      CStrTerminated(text, [NUL]);
    }
  }
}
