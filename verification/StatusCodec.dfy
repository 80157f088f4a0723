/**
  The status reply: the records the server writes one after the other, and how a client
  takes them apart again: src/xinu-consoled.c writes them, lib/connectUtils.c reads them.
 */
module StatusCodec {
  import opened Bytes
  import opened Config
  import opened Elapsed

  const CURVERSION: byte := 67
  const MAXTIMELENGTH := 12
  const RECORD_SIZE := MAXCONNECTIONNAME + MAXCLASSNAME + 1 + MAXUSERNAME + MAXTIMELENGTH
  const MAXDETAILS := RECORD_SIZE * MAXCONNECTIONS
  /** The digits of the record count, with a terminator; the decoder also takes it for the most records a reply holds. */
  const MAXNCONNECTIONS := (MAXCONNECTIONS / 1000) * 3 + 3 + 1

  /** `struct statusreplyData`, as strings. */
  datatype Record = Record(conname: seq<byte>, conclass: seq<byte>, active: bool, user: seq<byte>, contime: seq<byte>)

  /** What the server tells about a connection at time `now`. */
  function RecordOf(c: Condata, now: int): Record {
    if c.conpid == BADPID then Record(c.info.conname, c.info.conclass, false, [], [])
    else Record(c.info.conname, c.info.conclass, true, CStr(c.user), TimeText(now - c.contime))
  }

  function RecordsOf(table: seq<Condata>, now: int): (rs: seq<Record>)
    ensures |rs| == |table|
  {
    seq(|table|, i requires 0 <= i < |table| => RecordOf(table[i], now))
  }

  // ----- encoding -------------------------------------------------------------------------

  function Terminated(s: seq<byte>): seq<byte> {
    s + [NUL]
  }

  function EncodeRecord(r: Record): seq<byte> {
    Terminated(r.conname) + (Terminated(r.conclass)
                             + if r.active then [1] + (Terminated(r.user) + Terminated(r.contime)) else [NUL])
  }

  function EncodeRecords(rs: seq<Record>): seq<byte> {
    if rs == [] then [] else EncodeRecord(rs[0]) + EncodeRecords(rs[1..])
  }

  lemma {:induction false} EncodeMore(rs: seq<Record>, r: Record)
    ensures EncodeRecords(rs + [r]) == EncodeRecords(rs) + EncodeRecord(r)
  {
    if rs == [] {
      assert [r][1..] == [];
    } else {
      assert (rs + [r])[1..] == rs[1..] + [r];
      EncodeMore(rs[1..], r);
      assert EncodeRecord(rs[0]) + (EncodeRecords(rs[1..]) + EncodeRecord(r))
          == EncodeRecord(rs[0]) + EncodeRecords(rs[1..]) + EncodeRecord(r);
    }
  }

  // ----- decoding -------------------------------------------------------------------------

  datatype Got = Short | Got(text: seq<byte>, rest: seq<byte>)

  /** sget: the string before the first NUL, which must be among the first `max` bytes. */
  function Get(s: seq<byte>, max: nat): (g: Got)
    ensures g.Got? ==> |g.text| < max && NUL !in g.text && s == Terminated(g.text) + g.rest
  {
    if max == 0 || s == [] then Short
    else if s[0] == NUL then Got([], s[1..])
    else
      var g := Get(s[1..], max - 1);
      if g.Short? then Short else Got([s[0]] + g.text, g.rest)
  }

  datatype Session = RejectedSession | Session(active: bool, user: seq<byte>, contime: seq<byte>, rest: seq<byte>)
  datatype DecodedOne = RejectedOne | DecodedOne(record: Record, rest: seq<byte>)
  datatype Decoded = Rejected | Decoded(records: seq<Record>, rest: seq<byte>)

  /** The part of a record behind the name and the class. */
  function DecodeSession(s: seq<byte>): Session {
    if s == [] then RejectedSession
    else if s[0] == NUL then Session(false, [], [], s[1..])
    else
      var user := Get(s[1..], MAXUSERNAME);
      if user.Short? then RejectedSession
      else
        var time := Get(user.rest, MAXTIMELENGTH);
        if time.Short? then RejectedSession else Session(true, user.text, time.text, time.rest)
  }

  function DecodeRecord(s: seq<byte>): DecodedOne {
    var name := Get(s, MAXCONNECTIONNAME);
    if name.Short? then RejectedOne
    else
      var cls := Get(name.rest, MAXCLASSNAME);
      if cls.Short? then RejectedOne
      else match DecodeSession(cls.rest)
        case RejectedSession => RejectedOne
        case Session(active, user, contime, rest) => DecodedOne(Record(name.text, cls.text, active, user, contime), rest)
  }

  function DecodeRecords(s: seq<byte>, n: nat): Decoded
    decreases n
  {
    if n == 0 then Decoded([], s)
    else
      var first := DecodeRecord(s);
      if first.RejectedOne? then Rejected
      else
        var others := DecodeRecords(first.rest, n - 1);
        if others.Rejected? then Rejected else Decoded([first.record] + others.records, others.rest)
  }

  // ----- limits ---------------------------------------------------------------------------

  /** The record's strings fit their fields, and an inactive record has neither user nor time. */
  predicate Fits(r: Record) {
    |r.conname| < MAXCONNECTIONNAME && NUL !in r.conname
    && |r.conclass| < MAXCLASSNAME && NUL !in r.conclass
    && |r.user| < MAXUSERNAME && NUL !in r.user
    && |r.contime| < MAXTIMELENGTH && NUL !in r.contime
    && (!r.active ==> r.user == [] && r.contime == [])
  }

  predicate AllFit(rs: seq<Record>) {
    forall i :: 0 <= i < |rs| ==> Fits(rs[i])
  }

  lemma {:induction false} EncodedSize(rs: seq<Record>)
    requires AllFit(rs)
    ensures |EncodeRecords(rs)| <= RECORD_SIZE * |rs|
  {
    if rs != [] {
      EncodedSize(rs[1..]);
    }
  }

  // ----- the round trip -------------------------------------------------------------------

  lemma {:induction false} GetTerminated(text: seq<byte>, rest: seq<byte>, max: nat)
    requires NUL !in text && |text| < max
    ensures Get(Terminated(text) + rest, max) == Got(text, rest)
    decreases |text|
  {
    var s := Terminated(text) + rest;
    if text == [] {
      assert s[1..] == rest;
    } else {
      assert s[1..] == Terminated(text[1..]) + rest;
      GetTerminated(text[1..], rest, max - 1);
    }
  }

  lemma {:induction false} GetCut(text: seq<byte>, cut: nat, max: nat)
    requires NUL !in text && cut <= |text|
    ensures Get(text[..cut], max) == Short
    decreases cut
  {
    if cut > 0 && max > 0 {
      assert text[..cut][1..] == text[1..][..cut - 1];
      GetCut(text[1..], cut - 1, max - 1);
    }
  }

  lemma RecordRoundTrip(r: Record, rest: seq<byte>)
    requires Fits(r)
    ensures DecodeRecord(EncodeRecord(r) + rest) == DecodedOne(r, rest)
  {
    hide Get, Terminated;
    var activity := if r.active then [1] + (Terminated(r.user) + Terminated(r.contime)) else [NUL];
    var afterClass := activity + rest;
    assert EncodeRecord(r) + rest == Terminated(r.conname) + (Terminated(r.conclass) + afterClass);
    GetTerminated(r.conname, Terminated(r.conclass) + afterClass, MAXCONNECTIONNAME);
    GetTerminated(r.conclass, afterClass, MAXCLASSNAME);
    if r.active {
      assert afterClass[1..] == Terminated(r.user) + (Terminated(r.contime) + rest);
      GetTerminated(r.user, Terminated(r.contime) + rest, MAXUSERNAME);
      GetTerminated(r.contime, rest, MAXTIMELENGTH);
    } else {
      assert afterClass[1..] == rest;
    }
  }

  /** Decoding the first `n` of the records that were encoded gives them back, and stops right behind them. */
  lemma {:induction false} RoundTrip(rs: seq<Record>, n: nat)
    requires AllFit(rs) && n <= |rs|
    ensures DecodeRecords(EncodeRecords(rs), n) == Decoded(rs[..n], EncodeRecords(rs[n..]))
    decreases n
  {
    hide EncodeRecord, DecodeRecord;
    if n == 0 {
      assert rs[..0] == [] && rs[0..] == rs;
    } else {
      RecordRoundTrip(rs[0], EncodeRecords(rs[1..]));
      RoundTrip(rs[1..], n - 1);
      assert rs[..n] == [rs[0]] + rs[1..][..n - 1] && rs[1..][n - 1..] == rs[n..];
    }
  }

  /** Which is the whole listing exactly when it is no longer than what is decoded. */
  lemma {:induction false} CompleteIff(rs: seq<Record>, clamp: nat)
    requires AllFit(rs)
    ensures var n := if |rs| > clamp then clamp else |rs|;
            DecodeRecords(EncodeRecords(rs), n) == Decoded(rs, []) <==> |rs| <= clamp
  {
    hide DecodeRecords, EncodeRecord;
    var n := if |rs| > clamp then clamp else |rs|;
    RoundTrip(rs, n);
    assert n == |rs| ==> rs[..n] == rs && rs[n..] == [];
  }

  // ----- cut-off replies --------------------------------------------------------------------

  /** A prefix of `a + b` is a prefix of `a`, or `a` and a prefix of `b`. */
  lemma CutConcat(a: seq<byte>, b: seq<byte>, cut: nat)
    requires cut <= |a| + |b|
    ensures (a + b)[..cut] == if cut <= |a| then a[..cut] else a + b[..cut - |a|]
  {
  }

  /** Cut within a terminated string, or behind it. */
  lemma CutField(text: seq<byte>, later: seq<byte>, cut: nat, max: nat)
    requires NUL !in text && |text| < max && cut < |text| + 1 + |later|
    ensures var s := (Terminated(text) + later)[..cut];
            if cut <= |text| then Get(s, max) == Short
            else Get(s, max) == Got(text, later[..cut - |text| - 1])
  {
    CutConcat(Terminated(text), later, cut);
    if cut <= |text| {
      assert Terminated(text)[..cut] == text[..cut];
      GetCut(text, cut, max);
    } else {
      assert cut == |text| + 1 ==> Terminated(text)[..cut] + [] == Terminated(text)[..cut] == Terminated(text);
      GetTerminated(text, later[..cut - |text| - 1], max);
    }
  }

  lemma RecordCut(r: Record, cut: nat)
    requires Fits(r) && cut < |EncodeRecord(r)|
    ensures DecodeRecord(EncodeRecord(r)[..cut]) == RejectedOne
  {
    hide Get;
    var activity := if r.active then [1] + (Terminated(r.user) + Terminated(r.contime)) else [NUL];
    CutField(r.conname, Terminated(r.conclass) + activity, cut, MAXCONNECTIONNAME);
    var cut1 := cut - |r.conname| - 1;
    if cut1 >= 0 {
      CutField(r.conclass, activity, cut1, MAXCLASSNAME);
      var cut2 := cut1 - |r.conclass| - 1;
      if cut2 > 0 {
        var cut3 := cut2 - 1;
        assert activity[..cut2][1..] == (Terminated(r.user) + Terminated(r.contime))[..cut3];
        CutField(r.user, Terminated(r.contime), cut3, MAXUSERNAME);
        var cut4 := cut3 - |r.user| - 1;
        if cut4 >= 0 {
          assert Terminated(r.contime) + [] == Terminated(r.contime);
          CutField(r.contime, [], cut4, MAXTIMELENGTH);
        }
      }
    }
  }

  /** Every strict prefix of an encoding is rejected by a decoder that wants all its records. */
  lemma {:induction false} PrefixRejected(rs: seq<Record>, cut: nat)
    requires AllFit(rs) && cut < |EncodeRecords(rs)|
    ensures DecodeRecords(EncodeRecords(rs)[..cut], |rs|) == Rejected
    decreases |rs|
  {
    var first, others := EncodeRecord(rs[0]), EncodeRecords(rs[1..]);
    CutConcat(first, others, cut);
    if cut < |first| {
      RecordCut(rs[0], cut);
    } else {
      RecordRoundTrip(rs[0], others[..cut - |first|]);
      assert cut == |first| ==> first[..cut] == first + others[..0];
      PrefixRejected(rs[1..], cut - |first|);
    }
  }

  /** Only encodings are accepted: what was decoded is what was consumed, up to the mark of an active record. */
  lemma AcceptedIsEncoding(s: seq<byte>)
    requires DecodeRecord(s).DecodedOne?
    ensures var d := DecodeRecord(s);
            Fits(d.record)
            && exists mark: byte :: (mark != NUL <==> d.record.active) && s == MarkedRecord(d.record, mark) + d.rest
  {
    hide Get;
    var d := DecodeRecord(s);
    var name := Get(s, MAXCONNECTIONNAME);
    var cls := Get(name.rest, MAXCLASSNAME);
    var mark := cls.rest[0];
    if mark == NUL {
      assert cls.rest == [mark] + d.rest;
    } else {
      var user := Get(cls.rest[1..], MAXUSERNAME);
      assert cls.rest == [mark] + (Terminated(user.text) + (Terminated(d.record.contime) + d.rest));
    }
    assert s == MarkedRecord(d.record, mark) + d.rest;
  }

  /** The encoding of a record, with any byte as its mark. */
  function MarkedRecord(r: Record, mark: byte): seq<byte> {
    Terminated(r.conname) + (Terminated(r.conclass)
                             + ([mark] + if r.active then Terminated(r.user) + Terminated(r.contime) else []))
  }
}
