/** From the configuration file to the client: what every status reply of every run looks like. */
module Service {
  import opened Bytes
  import opened Config
  import opened StatusCodec
  import opened Reservations
  import opened Elapsed
  import ConfigParser
  import Lexicon
  import ClientProbe
  import ReplyDecoder

  const MAXELAPSED := 360000000

  predicate TableWithinLimits(table: seq<Condata>) {
    |table| <= MAXCONNECTIONS && forall i :: 0 <= i < |table| ==> WithinLimits(table[i].info)
  }

  /** No connection was made in the future, or has lasted 100000 hours. */
  predicate ClockOk(table: seq<Condata>, now: int) {
    forall i :: 0 <= i < |table| && table[i].conpid != BADPID ==> 0 <= now - table[i].contime < MAXELAPSED
  }

  lemma {:induction false} CStrEnds(s: seq<byte>, n: nat)
    requires n < |s| && s[n] == NUL
    ensures |CStr(s)| <= n
  {
    if s[0] != NUL {
      CStrEnds(s[1..], n - 1);
    }
  }

  lemma RecordFits(c: Condata, now: int)
    requires WithinLimits(c.info) && |c.user| == MAXUSERNAME && c.user[MAXUSERNAME - 1] == NUL
    requires c.conpid != BADPID ==> 0 <= now - c.contime < MAXELAPSED
    ensures Fits(RecordOf(c, now))
  {
    CStrEnds(c.user, MAXUSERNAME - 1);
    if c.conpid != BADPID {
      TimeTextFits(now - c.contime);
    }
  }

  lemma {:induction false} FilterMembers(table: seq<Condata>, name: seq<byte>, cls: seq<byte>)
    ensures |Filter(table, name, cls)| <= |table|
    ensures forall k :: 0 <= k < |Filter(table, name, cls)| ==> Filter(table, name, cls)[k] in table
  {
    hide Listed;
    if table != [] {
      FilterMembers(table[..|table| - 1], name, cls);
    }
  }

  lemma CountFits(n: nat)
    requires n <= MAXCONNECTIONS
    ensures |Digits(n)| + 1 <= MAXNCONNECTIONS && RECORD_SIZE * n <= MAXDETAILS
  {
    assert Power10(1) == 10 && Power10(2) == 100 && Power10(3) == 1000;
    DigitsLength(n, 3, 1000);
  }

  /** Whatever is asked for, the records fit their fields, the reply and the count. */
  lemma ListingFits(s: Server, name: seq<byte>, cls: seq<byte>, now: int)
    requires Inv(s) && TableWithinLimits(s.table) && ClockOk(s.table, now)
    ensures var listed := Filter(s.table, name, cls);
            var details := EncodeRecords(RecordsOf(listed, now));
            AllFit(RecordsOf(listed, now)) && |listed| <= MAXCONNECTIONS
            && |details| <= RECORD_SIZE * |listed| <= MAXDETAILS
            && |Digits(|listed|)| + 1 <= MAXNCONNECTIONS
  {
    hide Fits, Filter, EncodeRecord, RecordOf;
    var listed := Filter(s.table, name, cls);
    FilterMembers(s.table, name, cls);
    var rs := RecordsOf(listed, now);
    forall k | 0 <= k < |listed| ensures Fits(rs[k]) {
      var i :| 0 <= i < |s.table| && s.table[i] == listed[k];
      RecordFits(s.table[i], now);
    }
    EncodedSize(rs);
    CountFits(|listed|);
  }

  // ----- what a status reply says ----------------------------------------------------------------

  /** The record shows the connection: its names, whether it is in use, and if so by whom and for how long. */
  ghost predicate Describes(r: Record, c: Condata, now: int) {
    r.conname == c.info.conname && r.conclass == c.info.conclass && (r.active <==> c.conpid != -1)
    && if r.active then r.user == CStr(c.user) && ShowsTime(r.contime, now - c.contime)
       else r.user == [] && r.contime == []
  }

  /** Hours, minutes and seconds, of at least two digits each. */
  ghost predicate ShowsTime(text: seq<byte>, e: int) {
    0 <= e
    && exists hours: seq<byte> ::
         |hours| >= 2 && Atoi(hours) == e / 3600
         && text == hours + [58] + TwoDigitText(e / 60 % 60) + [58] + TwoDigitText(e % 60)
  }

  lemma TimeShown(e: int)
    requires 0 <= e
    ensures ShowsTime(TimeText(e), e)
  {
    TimeTextIs(e);
    var hours := Pad2(e / 3600);
    hide TimeText, Pad2, TwoDigitText, Atoi;
    assert |hours| >= 2 && Atoi(hours) == e / 3600
           && TimeText(e) == hours + [58] + TwoDigitText(e / 60 % 60) + [58] + TwoDigitText(e % 60);
  }

  lemma RecordDescribes(c: Condata, now: int)
    requires c.conpid != BADPID ==> 0 <= now - c.contime
    ensures Describes(RecordOf(c, now), c, now)
  {
    hide ShowsTime, TimeText, CStr;
    if c.conpid != BADPID {
      TimeShown(now - c.contime);
    }
  }

  /** The records decoded from the details, one for each of the entries listed. */
  ghost predicate Shows(details: seq<byte>, listed: seq<Condata>, now: int) {
    var d := DecodeRecords(details, |listed|);
    d.Decoded? && d.rest == [] && |d.records| == |listed|
    && forall k :: 0 <= k < |listed| ==> Describes(d.records[k], listed[k], now)
  }

  lemma EncodedShows(listed: seq<Condata>, now: int)
    requires AllFit(RecordsOf(listed, now))
    requires forall k :: 0 <= k < |listed| && listed[k].conpid != BADPID ==> 0 <= now - listed[k].contime
    ensures Shows(EncodeRecords(RecordsOf(listed, now)), listed, now)
  {
    var rs := RecordsOf(listed, now);
    RoundTrip(rs, |rs|);
    assert rs[..|rs|] == rs && rs[|rs|..] == [];
    hide DecodeRecords, AllFit, Describes, RecordOf;
    forall k | 0 <= k < |listed| ensures Describes(rs[k], listed[k], now) {
      RecordDescribes(listed[k], now);
    }
  }

  /**
    The answer to a status request: once the dead are collected, it counts exactly the entries that
    have the name and the class asked for, and shows each of them, in the order of the table.
   */
  lemma {:induction false} StatusAnswer(s: Server, req: Request, now: int, pid: int) returns (at: seq<nat>, listed: seq<Condata>)
    requires Inv(s) && TableWithinLimits(s.table) && WellFormed(req) && req.version == 67 && req.code == 4
    requires UsersStored(s.table) && ClockOk(Collect(s).table, now)
    ensures ListedAt(Collect(s).table, req.conname, req.conclass, at, listed)
    ensures var reply := ReplyOf(s, Event.Serve(req, now, pid));
            reply.Listing? && reply.count == |listed| && Shows(reply.details, listed, now)
  {
    CollectInv(s);
    CollectedLimits(s);
    StatusReplyIs(s, req, now, pid);
    hide Consistent, Collect, ReplyOf, Shows, ListedAt, Filter;
    var c := Collect(s);
    listed := Filter(c.table, req.conname, req.conclass);
    at := FilterIs(c.table, req.conname, req.conclass);
    ListingFits(c, req.conname, req.conclass, now);
    ListingClock(c.table, req.conname, req.conclass, now);
    EncodedShows(listed, now);
  }

  lemma StatusReplyIs(s: Server, req: Request, now: int, pid: int)
    requires UsersStored(s.table) && req.version == 67 && req.code == 4
    ensures var listed := Filter(Collect(s).table, req.conname, req.conclass);
            ReplyOf(s, Event.Serve(req, now, pid)) == Listing(|listed|, EncodeRecords(RecordsOf(listed, now)))
  {
    hide Collect, Filter, EncodeRecords, RecordsOf;
  }

  lemma ListingClock(table: seq<Condata>, name: seq<byte>, cls: seq<byte>, now: int)
    requires ClockOk(table, now)
    ensures var listed := Filter(table, name, cls);
            forall k :: 0 <= k < |listed| && listed[k].conpid != BADPID ==> 0 <= now - listed[k].contime
  {
    hide Filter;
    var listed := Filter(table, name, cls);
    FilterMembers(table, name, cls);
    forall k | 0 <= k < |listed| && listed[k].conpid != BADPID ensures 0 <= now - listed[k].contime {
      var i :| 0 <= i < |table| && table[i] == listed[k];
    }
  }

  lemma CollectedLimits(s: Server)
    requires UsersStored(s.table) && TableWithinLimits(s.table)
    ensures TableWithinLimits(Collect(s).table)
  {
    assert forall i :: 0 <= i < |s.table| ==> Collect(s).table[i].info == s.table[i].info;
  }

  /**
    The server reads a configuration file and runs; at any time a client asks for its status.
    The reply fits its buffer, and the client gets back, in order, the records of the first
    `clamp` connections asked for, with the names of the file and the minutes in use.
   */
  lemma StatusEndToEnd(text: seq<byte>, mine: seq<byte> -> bool, table: seq<Condata>, es: seq<Event>,
                       name: seq<byte>, cls: seq<byte>, now: int, clamp: nat)
    requires Meaning(Lexicon.Tokens(text), mine) == Table(ConfigParser.Infos(table))
    requires forall i :: 0 <= i < |table| ==> ConfigParser.Unused(table[i])
    requires UsersStored(table) && Run(Started(table), es)
    requires ClockOk(After(Started(table), es).table, now)
    ensures var s := After(Started(table), es);
            var listed := Filter(s.table, name, cls);
            var details := EncodeRecords(RecordsOf(listed, now));
            var n := if |listed| > clamp then clamp else |listed|;
            |details| <= RECORD_SIZE * |listed| <= MAXDETAILS
            && |Digits(|listed|)| + 1 <= MAXNCONNECTIONS && Atoi(Digits(|listed|)) == |listed|
            && DecodeRecords(details, n).Decoded?
            && DecodeRecords(details, n).records == RecordsOf(listed, now)[..n]
            && (forall k :: 0 <= k < n ==> Describes(RecordsOf(listed, now)[k], listed[k], now))
            && ConfigParser.Infos(s.table) == ConfigParser.Infos(table)
  {
    hide EncodeRecords, DecodeRecords, Run, After, Filter;
    StartInv(table);
    RunInv(Started(table), es);
    RunKeepsInfos(Started(table), es);
    var s := After(Started(table), es);
    MeaningWithinLimits(text, mine);
    assert forall i :: 0 <= i < |s.table| ==> s.table[i].info == ConfigParser.Infos(s.table)[i];
    ListingFits(s, name, cls, now);
    var listed := Filter(s.table, name, cls);
    AtoiDigits(|listed|);
    ListingClock(s.table, name, cls, now);
    forall k | 0 <= k < |listed| ensures Describes(RecordsOf(listed, now)[k], listed[k], now) {
      RecordDescribes(listed[k], now);
    }
    hide Describes, RecordOf;
    RoundTrip(RecordsOf(listed, now), if |listed| > clamp then clamp else |listed|);
  }

  /** The client's ten-minute test on a received record is the server's clock. */
  lemma StealEndToEnd(c: Condata, now: int)
    requires c.conpid != BADPID && 0 <= now - c.contime
    ensures var minutes := GetMinutes(RecordOf(c, now).contime);
            minutes.Some? && (minutes.value >= RESERVETIME <==> now - c.contime >= 600)
  {
    StealIff(now - c.contime);
  }

  /** A client can read every time in a listing, and what it may take is decided by the server's clock. */
  lemma ListingReadable(s: Server, name: seq<byte>, cls: seq<byte>, now: int)
    requires Inv(s) && ClockOk(s.table, now)
    ensures var listed := Filter(s.table, name, cls);
            var rs := RecordsOf(listed, now);
            ClientProbe.Readable(rs)
            && forall k :: 0 <= k < |listed| ==>
                 (ClientProbe.IsCandidate(rs[k], false) <==> listed[k].conpid == BADPID)
                 && (ClientProbe.IsCandidate(rs[k], true)
                     <==> listed[k].conpid == BADPID || now - listed[k].contime >= 600)
  {
    hide Filter, TimeText, GetMinutes;
    var listed := Filter(s.table, name, cls);
    FilterMembers(s.table, name, cls);
    forall k | 0 <= k < |listed| && listed[k].conpid != BADPID
      ensures var minutes := GetMinutes(RecordOf(listed[k], now).contime);
              minutes.Some? && (minutes.value >= RESERVETIME <==> now - listed[k].contime >= 600)
    {
      var i :| 0 <= i < |s.table| && s.table[i] == listed[k];
      StealEndToEnd(listed[k], now);
    }
  }

  /** A connection a client may take: free, or when stealing in use for ten minutes. */
  predicate Takeable(c: Condata, now: int, steal: bool) {
    c.conpid == BADPID || (steal && now - c.contime >= 600)
  }

  /** The packet is the server's reply to a status request. */
  ghost predicate Answers(s: Server, name: seq<byte>, cls: seq<byte>, now: int, packet: seq<byte>)
    requires Inv(s) && TableWithinLimits(s.table) && ClockOk(s.table, now)
  {
    var rs := RecordsOf(Filter(s.table, name, cls), now);
    ListingFits(s, name, cls, now);
    exists hostname: seq<byte>, junk: seq<byte> ::
      |hostname| == ReplyDecoder.MAXHOSTNAME && |junk| == MAXNCONNECTIONS
      && packet == ReplyDecoder.PacketOf(1, hostname, |rs|, junk, EncodeRecords(rs))
  }

  /**
    What the walk makes of a listing of any length: it goes through as many records. Of the first
    four it tries those that can be taken; the others it judges by what memory held in their place.
   */
  predicate Sees(listed: seq<Condata>, now: int, memory: seq<byte>, stats: seq<Record>, steal: bool) {
    |stats| == |listed| <= MAXCONNECTIONS && |memory| == ClientProbe.ROOM
    && (|listed| <= MAXNCONNECTIONS ==> stats == RecordsOf(listed, now) && ClientProbe.Readable(stats))
    && forall k :: 0 <= k < |listed| ==>
         (ClientProbe.IsCandidate(stats[k], steal)
          <==> if k < MAXNCONNECTIONS then Takeable(listed[k], now, steal)
               else ClientProbe.IsCandidate(ReplyDecoder.RecordAt(memory, k), steal))
  }

  lemma SeesListed(listed: seq<Condata>, now: int, memory: seq<byte>, steal: bool)
    requires |listed| <= MAXCONNECTIONS && |memory| == ClientProbe.ROOM
    requires var rs := RecordsOf(listed, now);
             ClientProbe.Readable(rs)
             && forall k :: 0 <= k < |listed| ==>
                  (ClientProbe.IsCandidate(rs[k], steal) <==> Takeable(listed[k], now, steal))
    ensures var rs := RecordsOf(listed, now);
            var shown := if |rs| > MAXNCONNECTIONS then rs[..MAXNCONNECTIONS] else rs;
            Sees(listed, now, memory, ClientProbe.Seen(shown, memory, |rs|), steal)
  {
    hide ReplyDecoder.RecordAt, ClientProbe.IsCandidate, ClientProbe.Readable, Takeable, RecordOf;
    var rs := RecordsOf(listed, now);
    assert |rs| <= MAXNCONNECTIONS ==> ClientProbe.Seen(rs, memory, |rs|) == rs;
  }

  /** From the server's table through its packet to the client's walk. */
  lemma {:induction false} ProbeEndToEnd(s: Server, name: seq<byte>, cls: seq<byte>, now: int, packet: seq<byte>,
                                         memory: seq<byte>, steal: bool)
    requires Inv(s) && TableWithinLimits(s.table) && ClockOk(s.table, now)
    requires Answers(s, name, cls, now, packet) && |memory| == ClientProbe.ROOM
    ensures ReplyDecoder.Accepts(packet) && |packet| <= ReplyDecoder.HEADER + MAXDETAILS
    ensures ClientProbe.CountOf(packet) == |Filter(s.table, name, cls)|
    ensures Sees(Filter(s.table, name, cls), now, memory, ClientProbe.StatsSeen(packet, memory), steal)
  {
    ListingFits(s, name, cls, now);
    ListingReadable(s, name, cls, now);
    var listed := Filter(s.table, name, cls);
    var rs := RecordsOf(listed, now);
    var hostname: seq<byte>, junk: seq<byte> :|
      |hostname| == ReplyDecoder.MAXHOSTNAME && |junk| == MAXNCONNECTIONS
      && packet == ReplyDecoder.PacketOf(1, hostname, |rs|, junk, EncodeRecords(rs));
    hide Filter, EncodeRecords, AllFit, Consistent, TableWithinLimits, ClockOk, Digits, RecordsOf, Answers, Sees;
    hide ReplyDecoder.PacketOf, ReplyDecoder.Accepts, ClientProbe.CountOf;
    hide ClientProbe.StatsSeen, ClientProbe.IsCandidate, ClientProbe.Readable, ClientProbe.Seen;
    ClientProbe.SeenOfListing(1, hostname, junk, rs, memory);
    SeesListed(listed, now, memory, steal);
  }

  /** The walk finds something free: among the first four listed, or in old memory in place of the others. */
  predicate Offers(listed: seq<Condata>, memory: seq<byte>)
    requires |listed| <= MAXCONNECTIONS && |memory| == ClientProbe.ROOM
  {
    exists k :: 0 <= k < |listed|
                && if k < MAXNCONNECTIONS then listed[k].conpid == BADPID
                   else ClientProbe.IsCandidate(ReplyDecoder.RecordAt(memory, k), false)
  }

  lemma OffersIff(listed: seq<Condata>, now: int, memory: seq<byte>, stats: seq<Record>)
    requires Sees(listed, now, memory, stats, false)
    ensures ClientProbe.Candidates(stats, false) != [] <==> Offers(listed, memory)
  {
    hide ClientProbe.Candidates, ClientProbe.IsCandidate, ReplyDecoder.RecordAt, ClientProbe.Readable, RecordsOf;
    var cs := ClientProbe.Candidates(stats, false);
    if cs != [] {
      assert ClientProbe.IsCandidate(stats[cs[0]], false);
    }
    if Offers(listed, memory) {
      var k :| 0 <= k < |listed|
               && if k < MAXNCONNECTIONS then listed[k].conpid == BADPID
                  else ClientProbe.IsCandidate(ReplyDecoder.RecordAt(memory, k), false);
      assert ClientProbe.IsCandidate(stats[k], false);
    }
  }

  /** A server in good order, and its reply. */
  ghost predicate Replies(s: Server, name: seq<byte>, cls: seq<byte>, now: int, packet: seq<byte>) {
    Inv(s) && TableWithinLimits(s.table) && ClockOk(s.table, now) && Answers(s, name, cls, now, packet)
  }

  lemma OneOffers(s: Server, name: seq<byte>, cls: seq<byte>, now: int, packet: seq<byte>, memory: seq<byte>)
    requires Replies(s, name, cls, now, packet) && |memory| == ClientProbe.ROOM
    ensures |Filter(s.table, name, cls)| <= MAXCONNECTIONS && ReplyDecoder.Accepts(packet)
    ensures ClientProbe.Candidates(ClientProbe.StatsSeen(packet, memory), false) != []
            <==> Offers(Filter(s.table, name, cls), memory)
  {
    ProbeEndToEnd(s, name, cls, now, packet, memory, false);
    hide Filter, Answers, Consistent, TableWithinLimits, ClockOk, ClientProbe.StatsSeen, ReplyDecoder.Accepts;
    hide ClientProbe.Candidates, Offers;
    OffersIff(Filter(s.table, name, cls), now, memory, ClientProbe.StatsSeen(packet, memory));
  }

  /**
    Many servers: whatever they grant, the client's first pass does not divide by zero, iff every
    one of them offers something free. One that lists nothing of the class asked for does not.
   */
  lemma {:induction false} FirstPassSafeIff(servers: seq<Server>, name: seq<byte>, cls: seq<byte>, now: int,
                                            packets: seq<seq<byte>>, memories: seq<seq<byte>>)
    requires |servers| == |packets| && ClientProbe.Received(packets, memories)
    requires forall k :: 0 <= k < |servers| ==> Replies(servers[k], name, cls, now, packets[k])
    ensures forall k :: 0 <= k < |servers| ==> |Filter(servers[k].table, name, cls)| <= MAXCONNECTIONS
    ensures (forall ws, r :: ClientProbe.Probed(ClientProbe.RepliesSeen(packets, memories), false, ws, r) ==> r.Ended?)
            <==> forall k :: 0 <= k < |servers| ==> Offers(Filter(servers[k].table, name, cls), memories[k])
  {
    hide Filter, Replies, Offers, ReplyDecoder.Accepts, ClientProbe.StatsSeen, ClientProbe.Accepted;
    hide ClientProbe.Candidates, ClientProbe.Probed;
    forall k | 0 <= k < |servers|
      ensures ReplyDecoder.Accepts(packets[k]) && |Filter(servers[k].table, name, cls)| <= MAXCONNECTIONS
      ensures ClientProbe.Candidates(ClientProbe.StatsSeen(packets[k], memories[k]), false) != []
              <==> Offers(Filter(servers[k].table, name, cls), memories[k])
    {
      OneOffers(servers[k], name, cls, now, packets[k], memories[k]);
    }
    ClientProbe.AcceptedIs(packets, |packets|);
    var replies := ClientProbe.RepliesSeen(packets, memories);
    assert forall k :: 0 <= k < |replies| ==> replies[k] == ClientProbe.StatsSeen(packets[k], memories[k]);
    ClientProbe.FirstPassSafeIff(replies);
  }

  /**
    The whole exchange, in packets: any listing of a consistent server that is not empty is
    accepted by the client, which sees its first four records; it sees them all iff there are no more.
   */
  lemma StatusReceived(s: Server, name: seq<byte>, cls: seq<byte>, now: int, hostname: seq<byte>, junk: seq<byte>)
    requires Inv(s) && TableWithinLimits(s.table) && ClockOk(s.table, now)
    requires |hostname| == ReplyDecoder.MAXHOSTNAME && |junk| == MAXNCONNECTIONS
    requires Filter(s.table, name, cls) != []
    ensures var rs := RecordsOf(Filter(s.table, name, cls), now);
            |Digits(|rs|)| < MAXNCONNECTIONS
            && var p := ReplyDecoder.PacketOf(1, hostname, |rs|, junk, EncodeRecords(rs));
               var n := if |rs| > MAXNCONNECTIONS then MAXNCONNECTIONS else |rs|;
               |p| <= ReplyDecoder.HEADER + MAXDETAILS && ReplyDecoder.Accepts(p) && ReplyDecoder.CountIn(p) == n
               && ReplyDecoder.Shown(p) == rs[..n] && (rs[..n] == rs <==> |rs| <= 4)
  {
    hide Filter, EncodeRecords, DecodeRecords, AllFit, Consistent, TableWithinLimits, ClockOk, Digits;
    hide ReplyDecoder.PacketOf, ReplyDecoder.CountIn, ReplyDecoder.Shown, ReplyDecoder.Accepts, RecordsOf;
    ListingFits(s, name, cls, now);
    ReplyDecoder.PacketRoundTrip(1, hostname, junk, RecordsOf(Filter(s.table, name, cls), now));
  }
}
