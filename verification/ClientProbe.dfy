/** How a client picks a connection from a status reply: lib/makeConnection.c. */
module ClientProbe {
  import opened Bytes
  import opened Config
  import opened StatusCodec
  import opened Elapsed
  import opened ReplyDecoder

  /** A record of one of the replies. */
  datatype Slot = Slot(reply: nat, index: nat)

  /** The requests a client sends about a record. */
  datatype Ask = Break(slot: Slot) | Make(slot: Slot)

  /** The minutes of every connection in use can be read; otherwise the source acts on garbage. */
  predicate Readable(stats: seq<Record>) {
    forall i :: 0 <= i < |stats| && stats[i].active ==> GetMinutes(stats[i].contime).Some?
  }

  /** A connection that has been in use for the reserved time. */
  predicate Expired(r: Record) {
    r.active && GetMinutes(r.contime).Some? && GetMinutes(r.contime).value >= RESERVETIME
  }

  predicate IsCandidate(r: Record, steal: bool) {
    !r.active || (steal && Expired(r))
  }

  function Candidates(stats: seq<Record>, steal: bool): (cs: seq<nat>)
    ensures |cs| <= |stats|
    ensures forall k :: 0 <= k < |cs| ==> cs[k] < |stats| && IsCandidate(stats[cs[k]], steal)
    ensures forall k, l :: 0 <= k < l < |cs| ==> cs[k] < cs[l]
    ensures forall i :: 0 <= i < |stats| && IsCandidate(stats[i], steal) ==> i in cs
  {
    if stats == [] then []
    else
      var n := |stats| - 1;
      var before := Candidates(stats[..n], steal);
      if IsCandidate(stats[n], steal) then before + [n] else before
  }

  lemma CandidatesNext(stats: seq<Record>, steal: bool, j: nat)
    requires j < |stats|
    ensures Candidates(stats[..j + 1], steal)
            == Candidates(stats[..j], steal) + if IsCandidate(stats[j], steal) then [j] else []
  {
    assert stats[..j + 1][..j] == stats[..j];
  }

  lemma NoCandidates(steal: bool)
    ensures Candidates([], steal) == []
  {
  }

  /** `k` places on from `start`, in a circle of `n`. */
  function Place(start: nat, k: nat, n: nat): (p: nat)
    requires n > 0
    ensures p < n
  {
    (start + k) % n
  }

  /** `cs` read cyclically from `start`, `n` elements. */
  function Cycle(cs: seq<nat>, start: nat, n: nat): (r: seq<nat>)
    requires start < |cs| && n <= |cs|
    ensures |r| == n
  {
    seq(n, k requires 0 <= k < n => cs[Place(start, k, |cs|)])
  }

  /** One round visits every candidate once. */
  lemma {:induction false} CycleVisitsAll(cs: seq<nat>, start: nat)
    requires start < |cs| && forall k, l :: 0 <= k < l < |cs| ==> cs[k] != cs[l]
    ensures forall k, l :: 0 <= k < l < |cs| ==> Cycle(cs, start, |cs|)[k] != Cycle(cs, start, |cs|)[l]
    ensures forall c :: c in cs ==> c in Cycle(cs, start, |cs|)
    ensures multiset(Cycle(cs, start, |cs|)) == multiset(cs)
  {
    hide Cycle;
    var r := Cycle(cs, start, |cs|);
    CycleIsRotation(cs, start);
    RotationDistinct(cs, start);
    assert cs == cs[..start] + cs[start..];
    forall c | c in cs ensures c in r {
      var i :| 0 <= i < |cs| && cs[i] == c;
      assert r[if i >= start then i - start else i + |cs| - start] == c;
    }
  }

  /** Part of a round visits no candidate twice, and a whole one visits all. */
  lemma PartVisitsOnce(cs: seq<nat>, start: nat, n: nat)
    requires start < |cs| && n <= |cs| && forall k, l :: 0 <= k < l < |cs| ==> cs[k] != cs[l]
    ensures forall k, l :: 0 <= k < l < n ==> Cycle(cs, start, n)[k] != Cycle(cs, start, n)[l]
    ensures n == |cs| ==> multiset(Cycle(cs, start, n)) == multiset(cs)
  {
    CycleVisitsAll(cs, start);
    assert forall k :: 0 <= k < n ==> Cycle(cs, start, n)[k] == Cycle(cs, start, |cs|)[k];
  }

  lemma RotationDistinct(cs: seq<nat>, start: nat)
    requires start < |cs| && forall k, l :: 0 <= k < l < |cs| ==> cs[k] != cs[l]
    ensures var r := cs[start..] + cs[..start];
            forall k, l :: 0 <= k < l < |cs| ==> r[k] != r[l]
  {
    var r := cs[start..] + cs[..start];
    forall k, l | 0 <= k < l < |cs| ensures r[k] != r[l] {
      var i := if k < |cs| - start then start + k else start + k - |cs|;
      var j := if l < |cs| - start then start + l else start + l - |cs|;
      assert r[k] == cs[i] && r[l] == cs[j] && i != j;
    }
  }

  lemma CycleIsRotation(cs: seq<nat>, start: nat)
    requires start < |cs|
    ensures Cycle(cs, start, |cs|) == cs[start..] + cs[..start]
  {
    var r := Cycle(cs, start, |cs|);
    forall k | 0 <= k < |cs| ensures r[k] == (cs[start..] + cs[..start])[k] {
      Turn(start + k, |cs|);
    }
  }

  lemma Turn(x: nat, n: nat)
    requires x < 2 * n
    ensures x % n == if x < n then x else x - n
  {
    if x >= n {
      assert x == n * 1 + (x - n);
    }
  }

  /** The first loop of getTCPConnection: the array of candidate indices never overflows. */
  method FindCandidates(stats: seq<Record>, steal: bool) returns (indeces: array<nat>, free: nat)
    requires steal ==> Readable(stats)
    ensures free <= indeces.Length == |stats| && indeces[..free] == Candidates(stats, steal)
  {
    hide Candidates, GetMinutes;
    indeces := new nat[|stats|];
    free := 0;
    NoCandidates(steal);
    assert stats[..0] == [];
    for j := 0 to |stats|
      invariant free <= j && indeces[..free] == Candidates(stats[..j], steal)
    {
      CandidatesNext(stats, steal, j);
      if steal && stats[j].active {
        if GetMinutes(stats[j].contime).value >= RESERVETIME {
          indeces[free] := j;
          free := free + 1;
        }
      }
      if !stats[j].active {
        indeces[free] := j;
        free := free + 1;
      }
    }
    assert stats[..|stats|] == stats;
  }

  // ----- one attempt --------------------------------------------------------------------------

  /** The servers a client talks to: what it asks, and which of its requests they grant. */
  class Network {
    var asked: seq<Ask>
    const grants: nat -> bool

    constructor (grants: nat -> bool)
      ensures asked == [] && this.grants == grants
    {
      asked := [];
      this.grants := grants;
    }

    method Request(a: Ask) returns (ok: bool)
      modifies this
      ensures asked == old(asked) + [a] && ok == grants(|old(asked)|)
    {
      ok := grants(|asked|);
      asked := asked + [a];
    }
  }

  /** What one attempt asks. */
  predicate Asks(r: Record, slot: Slot, steal: bool, asked: seq<Ask>) {
    if r.active != steal then asked == []
    else if !steal then asked == [Make(slot)]
    else if !Expired(r) then asked == []
    else asked == [Break(slot)] || asked == [Break(slot), Make(slot)]
  }

  /** reqTCPConnection: a free one is made; one in use for the reserved time is broken, and made if that was granted. */
  method TryConnection(net: Network, r: Record, slot: Slot, steal: bool) returns (connected: bool)
    requires steal && r.active ==> GetMinutes(r.contime).Some?
    modifies net
    ensures old(net.asked) <= net.asked && Asks(r, slot, steal, net.asked[|old(net.asked)|..])
    ensures net.asked == old(net.asked) + if !steal && !r.active then [Make(slot)]
                                          else if steal && Expired(r) then
                                            if net.grants(|old(net.asked)|) then [Break(slot), Make(slot)] else [Break(slot)]
                                          else []
    ensures connected ==> net.asked != old(net.asked) && net.asked[|net.asked| - 1] == Make(slot)
                          && net.grants(|net.asked| - 1)
  {
    if (!steal && r.active) || (steal && !r.active) {
      return false;
    }
    if steal {
      if GetMinutes(r.contime).value < RESERVETIME {
        return false;
      }
      var broken := net.Request(Break(slot));
      if !broken {
        return false;
      }
    }
    var made := net.Request(Make(slot));
    if made {
      // connectTCP
      connected :| true;
      return;
    }
    return false;
  }

  /**
    From `from` on: without stealing there are only makes; with stealing every make comes directly
    after a break of the same connection that was granted, and every such break is followed by it.
   */
  predicate Proper(asked: seq<Ask>, from: nat, grants: nat -> bool, steal: bool) {
    forall i :: from <= i < |asked| ==> ProperAt(asked, from, grants, steal, i)
  }

  predicate ProperAt(asked: seq<Ask>, from: nat, grants: nat -> bool, steal: bool, i: nat)
    requires from <= i < |asked|
  {
    match asked[i]
    case Make(slot) => steal ==> i > from && asked[i - 1] == Break(slot) && grants(i - 1)
    case Break(slot) => steal && (grants(i) ==> i + 1 < |asked| && asked[i + 1] == Make(slot))
  }

  lemma ProperMore(before: seq<Ask>, more: seq<Ask>, from: nat, grants: nat -> bool, steal: bool, slot: Slot)
    requires from <= |before| && Proper(before, from, grants, steal)
    requires more == [] || (!steal && more == [Make(slot)])
             || (steal && more == if grants(|before|) then [Break(slot), Make(slot)] else [Break(slot)])
    ensures Proper(before + more, from, grants, steal)
  {
    var after := before + more;
    forall i | from <= i < |after| ensures ProperAt(after, from, grants, steal, i) {
      if i < |before| {
        assert ProperAt(before, from, grants, steal, i);
      } else {
        assert after[i] == more[i - |before|];
      }
    }
  }

  // ----- the candidates of one reply ------------------------------------------------------------

  /** Only when stealing is a break asked for, and only of connections reported in use for the reserved time. */
  predicate BreaksExpired(stats: seq<Record>, reply: nat, steal: bool, asked: seq<Ask>) {
    forall i :: 0 <= i < |asked| && asked[i].Break? ==>
      steal && asked[i].slot.reply == reply && asked[i].slot.index < |stats| && Expired(stats[asked[i].slot.index])
  }

  /** A walk over the candidates of a reply: what was found, where it began, the records tried, and what each try asked. */
  datatype Walk = Walk(reply: nat, found: Option<nat>, start: nat, tried: seq<nat>, asks: seq<seq<Ask>>)

  /** So far, records were tried in cyclic order, and every try asked what it should. */
  predicate Walking(stats: seq<Record>, cs: seq<nat>, steal: bool, w: Walk) {
    w.start < |cs| && |w.tried| <= |cs| && w.tried == Cycle(cs, w.start, |w.tried|) && |w.asks| == |w.tried|
    && (forall k :: 0 <= k < |w.tried| ==>
          w.tried[k] < |stats| && Asks(stats[w.tried[k]], Slot(w.reply, w.tried[k]), steal, w.asks[k]))
    && BreaksExpired(stats, w.reply, steal, Flatten(w.asks))
  }

  /** A whole walk: each candidate at most once, all if none succeeds, and else the last one was made. */
  predicate IsWalk(stats: seq<Record>, steal: bool, w: Walk) {
    var cs := Candidates(stats, steal);
    Walking(stats, cs, steal, w)
    && (forall k, l :: 0 <= k < l < |w.tried| ==> w.tried[k] != w.tried[l])
    && (w.found.None? ==> multiset(w.tried) == multiset(cs))
    && (w.found.Some? ==> |w.tried| > 0 && w.found.value == w.tried[|w.tried| - 1] && EndsWithMake(w))
  }

  predicate EndsWithMake(w: Walk)
    requires w.found.Some?
  {
    var asked := Flatten(w.asks);
    asked != [] && asked[|asked| - 1] == Make(Slot(w.reply, w.found.value))
  }

  lemma WalkStarts(stats: seq<Record>, cs: seq<nat>, steal: bool, reply: nat, start: nat)
    requires start < |cs|
    ensures Walking(stats, cs, steal, Walk(reply, None, start, [], []))
  {
    CycleStart(cs, start);
  }

  lemma WalkMore(stats: seq<Record>, cs: seq<nat>, steal: bool, w: Walk, slot: nat, more: seq<Ask>)
    requires Walking(stats, cs, steal, w) && |w.tried| < |cs| && slot == cs[Place(w.start, |w.tried|, |cs|)]
    requires slot < |stats| && Asks(stats[slot], Slot(w.reply, slot), steal, more)
    ensures Walking(stats, cs, steal, Walk(w.reply, None, w.start, w.tried + [slot], w.asks + [more]))
    ensures Flatten(w.asks + [more]) == Flatten(w.asks) + more
  {
    hide Flatten, Cycle, Expired;
    FlattenMore(w.asks, more);
    CycleMore(cs, w.start, |w.tried|);
    BreaksMore(stats, Flatten(w.asks), Flatten(w.asks) + more, Slot(w.reply, slot), steal);
  }

  lemma WalkEnds(stats: seq<Record>, steal: bool, w: Walk, found: Option<nat>)
    requires Walking(stats, Candidates(stats, steal), steal, w)
    requires found.None? ==> |w.tried| == |Candidates(stats, steal)|
    requires found.Some? ==> |w.tried| > 0 && found.value == w.tried[|w.tried| - 1] && EndsWithMake(w.(found := found))
    ensures IsWalk(stats, steal, w.(found := found))
  {
    hide Cycle, Asks, Flatten, Candidates;
    PartVisitsOnce(Candidates(stats, steal), w.start, |w.tried|);
  }

  /** The walk over the candidates of one reply, from a random one. */
  method TryCandidates(net: Network, stats: seq<Record>, reply: nat, steal: bool, indeces: array<nat>, free: nat)
    returns (found: Option<nat>, ghost w: Walk)
    requires steal ==> Readable(stats)
    requires 0 < free <= indeces.Length && indeces[..free] == Candidates(stats, steal)
    modifies net
    ensures IsWalk(stats, steal, w) && w.found == found && w.reply == reply
    ensures net.asked == old(net.asked) + Flatten(w.asks)
    ensures Proper(net.asked, |old(net.asked)|, net.grants, steal) && AllAsked(stats, steal, w)
    ensures found.Some? ==> net.asked != [] && net.grants(|net.asked| - 1)
  {
    hide Candidates, Expired, Asks, Flatten, IsWalk, Walking, Place, Proper, AllAsked;
    ProperStart(net.asked, net.grants, steal);
    ghost var cs := Candidates(stats, steal);
    var randgrab: nat :| randgrab < free;
    w := Walk(reply, None, randgrab, [], []);
    WalkStarts(stats, cs, steal, reply, randgrab);
    CycleStart(cs, randgrab);
    NoAsks(net.asked);
    for j := 0 to free
      invariant indeces[..free] == cs && 0 <= free == |cs|
      invariant |w.tried| == j && w.found == None && w.reply == reply && Walking(stats, cs, steal, w)
      invariant w.start < free && randgrab == Place(w.start, j, free)
      invariant net.asked == old(net.asked) + Flatten(w.asks)
      invariant Proper(net.asked, |old(net.asked)|, net.grants, steal)
    {
      var slot := indeces[randgrab];
      assert slot == cs[randgrab];
      ghost var before := net.asked;
      var fd := TryConnection(net, stats[slot], Slot(reply, slot), steal);
      ghost var more := net.asked[|before|..];
      ProperMore(before, more, |old(net.asked)|, net.grants, steal, Slot(reply, slot));
      WalkMore(stats, cs, steal, w, slot, more);
      CycleMore(cs, w.start, j);
      AskedInAll(old(net.asked), Flatten(w.asks), more);
      ghost var w' := w;
      w := Walk(reply, None, w.start, w.tried + [slot], w.asks + [more]);
      if fd {
        MadeLast(w, before, net.asked, Flatten(w'.asks), more, slot);
        WalkEnds(stats, steal, w, Some(slot));
        WalkAsksAll(stats, steal, w.(found := Some(slot)));
        return Some(slot), w.(found := Some(slot));
      }
      randgrab := (randgrab + 1) % free;
    }
    WalkEnds(stats, steal, w, None);
    WalkAsksAll(stats, steal, w);
    return None, w;
  }

  lemma ProperStart(asked: seq<Ask>, grants: nat -> bool, steal: bool)
    ensures Proper(asked, |asked|, grants, steal)
  {
  }

  /**
    Nothing is left out: when stealing, every tried record in use for the reserved time is asked a break; else
    what is asked is exactly one make for each tried record, in their order.
   */
  predicate AllAsked(stats: seq<Record>, steal: bool, w: Walk) {
    (forall k :: 0 <= k < |w.tried| ==> w.tried[k] < |stats|)
    && if steal then
         forall k :: 0 <= k < |w.tried| && Expired(stats[w.tried[k]]) ==>
           Break(Slot(w.reply, w.tried[k])) in Flatten(w.asks)
       else
         Flatten(w.asks) == seq(|w.tried|, k requires 0 <= k < |w.tried| => Make(Slot(w.reply, w.tried[k])))
  }

  lemma WalkAsksAll(stats: seq<Record>, steal: bool, w: Walk)
    requires IsWalk(stats, steal, w)
    ensures AllAsked(stats, steal, w)
  {
    var cs := Candidates(stats, steal);
    hide Candidates;
    forall k | 0 <= k < |w.tried| ensures IsCandidate(stats[w.tried[k]], steal) {
      assert w.tried[k] == cs[Place(w.start, k, |cs|)];
    }
    hide Cycle, Flatten;
    if steal {
      forall k | 0 <= k < |w.tried| && Expired(stats[w.tried[k]])
        ensures Break(Slot(w.reply, w.tried[k])) in Flatten(w.asks)
      {
        assert w.asks[k][0] == Break(Slot(w.reply, w.tried[k]));
        InFlatten(w.asks, k, w.asks[k][0]);
      }
    } else {
      var makes := seq(|w.tried|, k requires 0 <= k < |w.tried| => Make(Slot(w.reply, w.tried[k])));
      assert forall k :: 0 <= k < |w.asks| ==> w.asks[k] == [makes[k]];
      FlattenSingles(w.asks, makes);
    }
  }

  lemma {:induction false} InFlatten(asks: seq<seq<Ask>>, k: nat, a: Ask)
    requires k < |asks| && a in asks[k]
    ensures a in Flatten(asks)
  {
    if k > 0 {
      InFlatten(asks[1..], k - 1, a);
    }
  }

  lemma {:induction false} FlattenSingles(asks: seq<seq<Ask>>, singles: seq<Ask>)
    requires |asks| == |singles| && forall k :: 0 <= k < |asks| ==> asks[k] == [singles[k]]
    ensures Flatten(asks) == singles
  {
    if asks != [] {
      FlattenSingles(asks[1..], singles[1..]);
    }
  }

  lemma NoAsks(asked: seq<Ask>)
    ensures asked + Flatten<Ask>([]) == asked
  {
  }

  lemma AskedInAll(before: seq<Ask>, asked: seq<Ask>, more: seq<Ask>)
    ensures before + asked + more == before + (asked + more)
  {
  }

  /** The last request of a try that succeeded is the last of the walk. */
  lemma MadeLast(w: Walk, before: seq<Ask>, after: seq<Ask>, earlier: seq<Ask>, more: seq<Ask>, slot: nat)
    requires after == before + more && after != before && after[|after| - 1] == Make(Slot(w.reply, slot))
    requires Flatten(w.asks) == earlier + more
    ensures EndsWithMake(w.(found := Some(slot)))
  {
    assert more != [] && after[|after| - 1] == more[|more| - 1];
  }

  lemma CycleStart(cs: seq<nat>, start: nat)
    requires start < |cs|
    ensures Cycle(cs, start, 0) == [] && Place(start, 0, |cs|) == start
  {
    Turn(start, |cs|);
  }

  lemma CycleMore(cs: seq<nat>, start: nat, j: nat)
    requires start < |cs| && j < |cs|
    ensures Cycle(cs, start, j + 1) == Cycle(cs, start, j) + [cs[Place(start, j, |cs|)]]
    ensures (Place(start, j, |cs|) + 1) % |cs| == Place(start, j + 1, |cs|)
  {
    var n := |cs|;
    Turn(start + j, n);
    Turn((start + j) % n + 1, n);
    Turn(start + j + 1, n);
  }

  lemma BreaksMore(stats: seq<Record>, before: seq<Ask>, after: seq<Ask>, slot: Slot, steal: bool)
    requires BreaksExpired(stats, slot.reply, steal, before) && before <= after && slot.index < |stats|
    requires Asks(stats[slot.index], slot, steal, after[|before|..])
    ensures BreaksExpired(stats, slot.reply, steal, after)
  {
    hide Expired;
    var more := after[|before|..];
    forall i | 0 <= i < |after| && after[i].Break?
      ensures steal && after[i].slot.reply == slot.reply
              && after[i].slot.index < |stats| && Expired(stats[after[i].slot.index])
    {
      if i < |before| {
        assert after[i] == before[i];
      } else {
        assert after[i] == more[i - |before|];
      }
    }
  }

  // ----- a pass over all replies ------------------------------------------------------------------

  /**
    How a pass ends: with a connection or without; or in front of a reply without candidates, by
    whose number the source divides; or, when stealing, in front of one with times that cannot be
    read, where the source acts on uninitialised numbers.
   */
  datatype Outcome = Ended(found: Option<Slot>) | DividesByZero(reply: nat) | Unread(reply: nat)

  function AskedBy(ws: seq<Walk>): seq<Ask> {
    if ws == [] then [] else AskedBy(ws[..|ws| - 1]) + Flatten(ws[|ws| - 1].asks)
  }

  lemma AskedByMore(ws: seq<Walk>, w: Walk)
    ensures AskedBy(ws + [w]) == AskedBy(ws) + Flatten(w.asks)
  {
    assert (ws + [w])[..|ws|] == ws;
  }

  /** The first replies have been walked, and nothing was found. */
  predicate Passed(replies: seq<seq<Record>>, steal: bool, ws: seq<Walk>) {
    |ws| <= |replies|
    && forall k :: 0 <= k < |ws| ==>
         ws[k].reply == k && ws[k].found.None? && IsWalk(replies[k], steal, ws[k]) && (steal ==> Readable(replies[k]))
  }

  lemma NothingPassed(replies: seq<seq<Record>>, steal: bool)
    ensures Passed(replies, steal, [])
  {
  }

  lemma PassedMore(replies: seq<seq<Record>>, steal: bool, ws: seq<Walk>, w: Walk)
    requires Passed(replies, steal, ws) && |ws| < |replies| && w.reply == |ws| && w.found.None?
    requires IsWalk(replies[|ws|], steal, w) && (steal ==> Readable(replies[|ws|]))
    ensures Passed(replies, steal, ws + [w])
  {
    hide IsWalk, Readable;
  }

  /** A pass over the replies: `ws` are the walks over those it reached. */
  predicate Probed(replies: seq<seq<Record>>, steal: bool, ws: seq<Walk>, r: Outcome) {
    match r
    case Ended(None) => Passed(replies, steal, ws) && |ws| == |replies|
    case Ended(Some(slot)) =>
      |ws| > 0 && slot.reply == |ws| - 1 < |replies| && Passed(replies, steal, ws[..slot.reply])
      && ws[slot.reply].reply == slot.reply && ws[slot.reply].found == Some(slot.index)
      && IsWalk(replies[slot.reply], steal, ws[slot.reply]) && (steal ==> Readable(replies[slot.reply]))
    case DividesByZero(k) =>
      Passed(replies, steal, ws) && k == |ws| < |replies| && Candidates(replies[k], steal) == []
      && (steal ==> Readable(replies[k]))
    case Unread(k) => Passed(replies, steal, ws) && steal && k == |ws| < |replies| && !Readable(replies[k])
  }

  /** In every walk of a pass nothing is left out. */
  lemma ProbedAsksAll(replies: seq<seq<Record>>, steal: bool, ws: seq<Walk>, r: Outcome)
    requires Probed(replies, steal, ws, r)
    ensures |ws| <= |replies| && forall k :: 0 <= k < |ws| ==> AllAsked(replies[k], steal, ws[k])
  {
    hide IsWalk, AllAsked, Readable, Candidates;
    forall k | 0 <= k < |ws| ensures AllAsked(replies[k], steal, ws[k]) {
      if r.Ended? && r.found.Some? && k < r.found.value.reply {
        assert ws[..r.found.value.reply][k] == ws[k];
      }
      WalkAsksAll(replies[k], steal, ws[k]);
    }
  }

  /** getTCPConnection: one reply after the other, until a connection is found. */
  method GetTCPConnection(net: Network, replies: seq<seq<Record>>, steal: bool) returns (r: Outcome, ghost ws: seq<Walk>)
    modifies net
    ensures Probed(replies, steal, ws, r)
    ensures net.asked == old(net.asked) + AskedBy(ws)
    ensures Proper(net.asked, |old(net.asked)|, net.grants, steal)
    ensures |ws| <= |replies| && forall k :: 0 <= k < |ws| ==> AllAsked(replies[k], steal, ws[k])
    ensures r.Ended? && r.found.Some? ==> net.asked != [] && net.grants(|net.asked| - 1)
  {
    r, ws := ProbeReplies(net, replies, steal);
    ProbedAsksAll(replies, steal, ws, r);
  }

  method ProbeReplies(net: Network, replies: seq<seq<Record>>, steal: bool) returns (r: Outcome, ghost ws: seq<Walk>)
    modifies net
    ensures Probed(replies, steal, ws, r)
    ensures net.asked == old(net.asked) + AskedBy(ws)
    ensures Proper(net.asked, |old(net.asked)|, net.grants, steal)
    ensures r.Ended? && r.found.Some? ==> net.asked != [] && net.grants(|net.asked| - 1)
  {
    hide Candidates, IsWalk, Readable, Flatten, Proper, AllAsked, Passed, AskedBy;
    ws := [];
    ProperStart(net.asked, net.grants, steal);
    NothingPassed(replies, steal);
    NoneAsked(net.asked);
    for i := 0 to |replies|
      invariant |ws| == i && Passed(replies, steal, ws) && net.asked == old(net.asked) + AskedBy(ws)
      invariant Proper(net.asked, |old(net.asked)|, net.grants, steal)
    {
      if steal && !Readable(replies[i]) {
        return Unread(i), ws;
      }
      var indeces, free := FindCandidates(replies[i], steal);
      if free == 0 {
        return DividesByZero(i), ws;
      }
      ghost var asked := net.asked;
      var found;
      ghost var w;
      found, w := TryCandidates(net, replies[i], i, steal, indeces, free);
      ProperBoth(asked, net.asked, |old(net.asked)|, net.grants, steal);
      AskedByMore(ws, w);
      AskedInAll(old(net.asked), AskedBy(ws), Flatten(w.asks));
      assert (ws + [w])[..i] == ws;
      if found.Some? {
        return Ended(Some(Slot(i, found.value))), ws + [w];
      }
      PassedMore(replies, steal, ws, w);
      ws := ws + [w];
    }
    return Ended(None), ws;
  }

  lemma ProperBoth(before: seq<Ask>, after: seq<Ask>, from: nat, grants: nat -> bool, steal: bool)
    requires from <= |before| && before <= after
    requires Proper(before, from, grants, steal) && Proper(after, |before|, grants, steal)
    ensures Proper(after, from, grants, steal)
  {
    forall i | from <= i < |after| ensures ProperAt(after, from, grants, steal, i) {
      if i < |before| {
        assert ProperAt(before, from, grants, steal, i);
      } else {
        assert ProperAt(after, |before|, grants, steal, i);
      }
    }
  }

  /** A walk begins only over a reply with candidates. */
  lemma WalkedSome(stats: seq<Record>, steal: bool, w: Walk)
    requires IsWalk(stats, steal, w)
    ensures Candidates(stats, steal) != []
  {
  }

  /** A pass that finds nothing gets through all replies, iff each of them has a candidate. */
  lemma RefusedEndsIff(replies: seq<seq<Record>>, ws: seq<Walk>, r: Outcome)
    requires Probed(replies, false, ws, r) && (r.Ended? ==> r.found.None?)
    ensures r.Ended? <==> forall k :: 0 <= k < |replies| ==> Candidates(replies[k], false) != []
  {
    hide Candidates, IsWalk;
    if r.Ended? {
      forall k | 0 <= k < |replies| ensures Candidates(replies[k], false) != [] {
        WalkedSome(replies[k], false, ws[k]);
      }
    }
  }

  /** One walk on which every request is refused. */
  lemma RefusedWalking(stats: seq<Record>, cs: seq<nat>, steal: bool, reply: nat, n: nat) returns (w: Walk)
    requires cs == Candidates(stats, steal) && cs != [] && n <= |cs|
    ensures Walking(stats, cs, steal, w) && |w.tried| == n && w.reply == reply && w.found.None?
  {
    hide Candidates, Walking, Expired;
    if n == 0 {
      WalkStarts(stats, cs, steal, reply, 0);
      w := Walk(reply, None, 0, [], []);
    } else {
      var before := RefusedWalking(stats, cs, steal, reply, n - 1);
      StartsInside(stats, cs, steal, before);
      var slot := cs[Place(before.start, n - 1, |cs|)];
      var at := Slot(reply, slot);
      var more := if stats[slot].active != steal || (steal && !Expired(stats[slot])) then []
                  else if steal then [Break(at)] else [Make(at)];
      WalkMore(stats, cs, steal, before, slot, more);
      w := Walk(reply, None, before.start, before.tried + [slot], before.asks + [more]);
    }
  }

  lemma StartsInside(stats: seq<Record>, cs: seq<nat>, steal: bool, w: Walk)
    requires Walking(stats, cs, steal, w)
    ensures w.start < |cs|
  {
  }

  /** And a pass over replies that all have candidates. */
  lemma RefusedPass(replies: seq<seq<Record>>, n: nat) returns (ws: seq<Walk>)
    requires n <= |replies| && forall k :: 0 <= k < n ==> Candidates(replies[k], false) != []
    ensures Passed(replies, false, ws) && |ws| == n
  {
    hide Candidates, IsWalk, Walking;
    if n == 0 {
      ws := [];
    } else {
      ws := RefusedPass(replies, n - 1);
      var cs := Candidates(replies[n - 1], false);
      var w := RefusedWalking(replies[n - 1], cs, false, n - 1, |cs|);
      WalkEnds(replies[n - 1], false, w, None);
      ws := ws + [w.(found := None)];
    }
  }

  /**
    The first pass, which does not steal: whatever the servers grant, it does not divide by zero,
    iff every reply has a free connection.
   */
  lemma {:induction false} FirstPassSafeIff(replies: seq<seq<Record>>)
    ensures (forall ws, r :: Probed(replies, false, ws, r) ==> r.Ended?)
            <==> forall k :: 0 <= k < |replies| ==> Candidates(replies[k], false) != []
  {
    hide Candidates, IsWalk;
    if forall k :: 0 <= k < |replies| ==> Candidates(replies[k], false) != [] {
      forall ws, r | Probed(replies, false, ws, r) ensures r.Ended? {
      }
    } else {
      var k := FirstWithout(replies);
      var ws := RefusedPass(replies, k);
      assert Probed(replies, false, ws, DividesByZero(k));
    }
  }

  lemma FirstWithout(replies: seq<seq<Record>>) returns (k: nat)
    requires exists i :: 0 <= i < |replies| && Candidates(replies[i], false) == []
    ensures k < |replies| && Candidates(replies[k], false) == []
    ensures forall i :: 0 <= i < k ==> Candidates(replies[i], false) != []
  {
    hide Candidates;
    k := 0;
    while Candidates(replies[k], false) != []
      invariant k < |replies| && forall i :: 0 <= i < k ==> Candidates(replies[i], false) != []
      invariant exists i :: k <= i < |replies| && Candidates(replies[i], false) == []
      decreases |replies| - k
    {
      k := k + 1;
    }
  }

  // ----- what is walked -------------------------------------------------------------------------

  /** The bytes, from the details of a reply on, that a count of three digits can make a client look at: 999 records. */
  const ROOM := 60939

  lemma CountHasRoom(packet: seq<byte>)
    requires |packet| >= HEADER
    ensures Walked(packet) <= 999
  {
    AtoiThreeBytes(CStr(packet[2 + MAXHOSTNAME..HEADER - 1]));
  }

  /** The records that were decoded, and behind them what memory holds, `count` in all. */
  function Seen(shown: seq<Record>, memory: seq<byte>, count: nat): (stats: seq<Record>)
    requires |shown| <= count <= 999 && |memory| == ROOM
    ensures |stats| == count
  {
    shown + seq(count - |shown|, i requires 0 <= i < count - |shown| => RecordAt(memory, |shown| + i))
  }

  lemma ShownCounted(packet: seq<byte>)
    requires Accepts(packet) && CountIn(packet) > 0
    ensures |Shown(packet)| == CountIn(packet) <= Walked(packet) <= 999
  {
    CountHasRoom(packet);
    WalkedIffShown(packet);
  }

  /**
    The records getTCPConnection walks: as many as the header counts. Those that were not decoded
    are whatever `memory` holds, which begins with the details of the reply.
   */
  function StatsSeen(packet: seq<byte>, memory: seq<byte>): seq<Record>
    requires Accepts(packet) && |memory| == ROOM
  {
    if CountIn(packet) <= 0 then []
    else
      ShownCounted(packet);
      Seen(Shown(packet), memory, Walked(packet))
  }

  /** The walk sees decoded records only, iff the header counts at most `MAXNCONNECTIONS` of them. */
  lemma SeenIffShown(packet: seq<byte>, memory: seq<byte>)
    requires Accepts(packet) && CountIn(packet) > 0 && |memory| == ROOM
    ensures |StatsSeen(packet, memory)| == Walked(packet) && Shown(packet) <= StatsSeen(packet, memory)
    ensures StatsSeen(packet, memory) == Shown(packet) <==> Walked(packet) <= MAXNCONNECTIONS
  {
    ShownCounted(packet);
    hide Shown, RecordAt, Walked, Accepts;
  }

  function Filled(b: byte, n: nat): (memory: seq<byte>)
    ensures |memory| == n
  {
    seq(n, _ => b)
  }

  lemma FilledActive(memory: seq<byte>, i: nat, b: byte)
    requires RECORD_SIZE * (i + 1) <= |memory|
    requires forall j :: RECORD_SIZE * i <= j < RECORD_SIZE * (i + 1) ==> memory[j] == b
    ensures RecordAt(memory, i).active == (b != NUL)
  {
    hide CStr;
  }

  /** A record that was not decoded may look free or busy. */
  lemma SeenEitherWay(shown: seq<Record>, m0: seq<byte>, m1: seq<byte>, count: nat, i: nat)
    requires |shown| <= i < count <= 999 && |m0| == |m1| == ROOM
    requires forall j :: RECORD_SIZE * i <= j < RECORD_SIZE * (i + 1) ==> m0[j] == 0 && m1[j] == 1
    ensures Seen(shown, m0, count) != Seen(shown, m1, count)
  {
    hide RecordAt;
    FilledActive(m0, i, 0);
    FilledActive(m1, i, 1);
    assert Seen(shown, m0, count)[i] == RecordAt(m0, i) && Seen(shown, m1, count)[i] == RecordAt(m1, i);
  }

  /** Of any listing the walk sees the first four records, and what memory held in place of the others. */
  lemma SeenOfListing(code: byte, hostname: seq<byte>, junk: seq<byte>, rs: seq<Record>, memory: seq<byte>)
    requires |hostname| == MAXHOSTNAME && |junk| == MAXNCONNECTIONS && |memory| == ROOM
    requires AllFit(rs) && |rs| <= 999 && |Digits(|rs|)| < MAXNCONNECTIONS
    ensures var p := PacketOf(code, hostname, |rs|, junk, EncodeRecords(rs));
            Accepts(p) && CountOf(p) == |rs|
            && StatsSeen(p, memory) == Seen(if |rs| > MAXNCONNECTIONS then rs[..MAXNCONNECTIONS] else rs, memory, |rs|)
  {
    var p := PacketOf(code, hostname, |rs|, junk, EncodeRecords(rs));
    if rs == [] {
      EmptyListing(code, hostname, junk, memory);
    } else {
      hide PacketOf, EncodeRecords, Walked, CountIn, Shown, Accepts, Digits, AllFit, Seen;
      PacketRoundTrip(code, hostname, junk, rs);
      assert rs[..|rs|] == rs;
    }
  }

  /**
    Whatever memory held before, the walk sees the listing that was sent, iff it has at most
    `MAXNCONNECTIONS` records.
   */
  lemma {:induction false} WalkSeesListingIff(code: byte, hostname: seq<byte>, junk: seq<byte>, rs: seq<Record>)
    requires |hostname| == MAXHOSTNAME && |junk| == MAXNCONNECTIONS
    requires AllFit(rs) && 0 < |rs| && |Digits(|rs|)| < MAXNCONNECTIONS
    ensures var p := PacketOf(code, hostname, |rs|, junk, EncodeRecords(rs));
            Accepts(p) && CountIn(p) > 0 && Walked(p) == |rs|
            && ((forall memory: seq<byte> :: |memory| == ROOM ==> StatsSeen(p, memory) == rs)
                <==> |rs| <= MAXNCONNECTIONS)
  {
    hide PacketOf, EncodeRecords, CountIn, Walked, Shown, Accepts, RecordAt, Digits, AllFit, Seen;
    PacketRoundTrip(code, hostname, junk, rs);
    var p := PacketOf(code, hostname, |rs|, junk, EncodeRecords(rs));
    ShownCounted(p);
    if |rs| <= MAXNCONNECTIONS {
      forall memory: seq<byte> | |memory| == ROOM ensures StatsSeen(p, memory) == rs {
        SeenIffShown(p, memory);
        assert rs[..|rs|] == rs;
      }
    } else {
      SeenEitherWay(Shown(p), Filled(0, ROOM), Filled(1, ROOM), |rs|, 4);
      assert StatsSeen(p, Filled(0, ROOM)) != StatsSeen(p, Filled(1, ROOM));
    }
  }

  /** The walk depends only on what the reply itself holds, iff the header counts at most `MAXCONNECTIONS` records. */
  lemma {:induction false} WalkStaysInsideIff(packet: seq<byte>, held: seq<byte>)
    requires Accepts(packet) && |held| == MAXDETAILS
    ensures (forall b1: seq<byte>, b2: seq<byte> :: |b1| == |b2| == ROOM - MAXDETAILS ==>
               StatsSeen(packet, held + b1) == StatsSeen(packet, held + b2))
            <==> Walked(packet) <= MAXCONNECTIONS
  {
    CountHasRoom(packet);
    if CountIn(packet) > 0 {
      ShownCounted(packet);
      hide Walked, Shown, Accepts, RecordAt, Seen;
      if Walked(packet) <= MAXCONNECTIONS {
        forall b1: seq<byte>, b2: seq<byte> | |b1| == |b2| == ROOM - MAXDETAILS
          ensures StatsSeen(packet, held + b1) == StatsSeen(packet, held + b2)
        {
          SeesInside(Shown(packet), held, b1, b2, Walked(packet));
        }
      } else {
        var zeros, ones := Filled(0, ROOM - MAXDETAILS), Filled(1, ROOM - MAXDETAILS);
        SeenEitherWay(Shown(packet), held + zeros, held + ones, Walked(packet), MAXCONNECTIONS);
        assert StatsSeen(packet, held + zeros) != StatsSeen(packet, held + ones);
      }
    }
  }

  lemma SeesInside(shown: seq<Record>, held: seq<byte>, b1: seq<byte>, b2: seq<byte>, count: nat)
    requires |shown| <= count <= MAXCONNECTIONS && |held| == MAXDETAILS && |held + b1| == |held + b2| == ROOM
    ensures Seen(shown, held + b1, count) == Seen(shown, held + b2, count)
  {
    hide RecordAt;
    forall i | 0 <= i < count ensures RecordAt(held + b1, i) == RecordAt(held, i) == RecordAt(held + b2, i) {
      RecordsBefore(held, b1, i);
      RecordsBefore(held, b2, i);
    }
  }

  lemma RecordsBefore(held: seq<byte>, behind: seq<byte>, i: nat)
    requires RECORD_SIZE * (i + 1) <= |held|
    ensures RecordAt(held + behind, i) == RecordAt(held, i)
  {
    hide RecordIn;
    assert (held + behind)[RECORD_SIZE * i..RECORD_SIZE * (i + 1)] == held[RECORD_SIZE * i..RECORD_SIZE * (i + 1)];
  }

  lemma ThreeDigits(count: nat)
    requires count <= 999
    ensures |Digits(count)| <= 3
  {
    assert Power10(1) == 10 && Power10(2) == 100 && Power10(3) == 1000;
    DigitsLength(count, 3, 1000);
  }

  lemma BeyondDetails(count: nat)
    ensures RECORD_SIZE * count > MAXDETAILS <==> count > MAXCONNECTIONS
  {
  }

  /** Any four records under a header that counts from 513 to 999: accepted, and the walk leaves the reply. */
  lemma FourUnderMore(code: byte, hostname: seq<byte>, junk: seq<byte>, rs: seq<Record>, count: nat)
    requires |hostname| == MAXHOSTNAME && |junk| == MAXNCONNECTIONS
    requires AllFit(rs) && |rs| == 4 && MAXCONNECTIONS < count <= 999
    ensures |Digits(count)| < MAXNCONNECTIONS
    ensures var p := PacketOf(code, hostname, count, junk, EncodeRecords(rs));
            Accepts(p) && CountIn(p) == 4 && Shown(p) == rs
            && Walked(p) == count && RECORD_SIZE * Walked(p) > MAXDETAILS
  {
    ThreeDigits(count);
    BeyondDetails(count);
    hide PacketOf, EncodeRecords, Walked, CountIn, Shown, Accepts, Digits, AllFit;
    PacketShows(code, hostname, count, junk, rs);
    assert rs[..4] == rs;
  }

  lemma BlankRecord(m: seq<byte>)
    requires |m| == RECORD_SIZE && forall i :: 0 <= i < |m| ==> m[i] == NUL
    ensures RecordIn(m) == Record([], [], false, [], [])
  {
  }

  /** Five connections, all in use: in a reply of zeroed memory the fifth slot looks free, and is the only candidate. */
  lemma FifthLooksFree(code: byte, hostname: seq<byte>, junk: seq<byte>, memory: seq<byte>)
    requires |hostname| == MAXHOSTNAME && |junk| == MAXNCONNECTIONS
    requires |memory| == ROOM && forall i :: 0 <= i < MAXDETAILS ==> memory[i] == NUL
    ensures var rs := [BUSY, BUSY, BUSY, BUSY, BUSY];
            |Digits(5)| < MAXNCONNECTIONS
            && var p := PacketOf(code, hostname, 5, junk, EncodeRecords(rs));
               Accepts(p) && Candidates(rs, false) == [] && Candidates(StatsSeen(p, memory), false) == [4]
  {
    hide PacketOf, EncodeRecords, CountIn, Walked, Shown, Accepts, RecordIn, Digits;
    FiveRecords(code, hostname, junk);
    var rs := [BUSY, BUSY, BUSY, BUSY, BUSY];
    var p := PacketOf(code, hostname, 5, junk, EncodeRecords(rs));
    SeenIffShown(p, memory);
    var seen := StatsSeen(p, memory);
    BlankRecord(memory[RECORD_SIZE * 4..RECORD_SIZE * 5]);
    assert seen[4] == RecordAt(memory, 4);
    assert seen[..4] == rs[..4];
    OnlyCandidate(seen, 4);
  }

  lemma OnlyCandidate(stats: seq<Record>, k: nat)
    requires k < |stats| && forall i :: 0 <= i < |stats| ==> stats[i].active == (i != k)
    ensures Candidates(stats, false) == [k]
  {
    hide Candidates;
    var cs := Candidates(stats, false);
    assert IsCandidate(stats[k], false);
    assert forall j :: 0 <= j < |cs| ==> IsCandidate(stats[cs[j]], false) && cs[j] == k;
    assert cs[0] == cs[|cs| - 1];
  }

  // ----- from the packets to the passes -----------------------------------------------------------

  /** A reply once it has been received: the count in its header, and its details with what lies behind them. */
  datatype Answer = Answer(count: int, memory: seq<byte>)

  /** The first `n` records of the details. */
  function RecordsIn(details: seq<byte>, n: nat): (rs: seq<Record>)
    requires RECORD_SIZE * n <= |details|
    ensures |rs| == n
  {
    seq(n, i requires 0 <= i < n => RecordAt(details, i))
  }

  /** What a walk finds in a received reply. */
  function StatsOf(a: Answer): seq<Record>
    requires a.count <= 999 && |a.memory| == ROOM
  {
    if a.count <= 0 then [] else RecordsIn(a.memory, a.count)
  }

  predicate Holds(a: Answer, packet: seq<byte>, memory: seq<byte>)
    requires Accepts(packet) && |memory| == ROOM
  {
    a.count == Walked(packet) <= 999 && |a.memory| == ROOM && StatsOf(a) == StatsSeen(packet, memory)
  }

  lemma RecordsBehind(held: seq<byte>, memory: seq<byte>, n: nat, i: nat)
    requires |held| == |memory| && n <= i && RECORD_SIZE * (i + 1) <= |memory|
    requires held[RECORD_SIZE * n..] == memory[RECORD_SIZE * n..]
    ensures RecordAt(held, i) == RecordAt(memory, i)
  {
    hide RecordIn;
    var from, to := RECORD_SIZE * i, RECORD_SIZE * (i + 1);
    forall j | from <= j < to ensures held[j] == memory[j] {
      assert held[j] == held[RECORD_SIZE * n..][j - RECORD_SIZE * n];
    }
    assert held[from..to] == memory[from..to];
  }

  lemma SameBehind(details: seq<byte>, memory: seq<byte>, from: nat)
    requires |memory| == ROOM && |details| == MAXDETAILS && from <= MAXDETAILS
    requires details[from..] == memory[..MAXDETAILS][from..]
    ensures (details + memory[MAXDETAILS..])[from..] == memory[from..]
  {
    forall j | from <= j < MAXDETAILS ensures details[j] == memory[j] {
      assert details[j] == details[from..][j - from] == memory[..MAXDETAILS][from..][j - from];
    }
  }

  /** Records are decoded in front of what memory held. */
  lemma SeenInMemory(shown: seq<Record>, memory: seq<byte>, details: seq<byte>, count: nat)
    requires |memory| == ROOM && |details| == MAXDETAILS && |shown| <= count <= 999
    requires HoldsRecords(details, memory[..MAXDETAILS], shown)
    ensures RecordsIn(details + memory[MAXDETAILS..], count) == Seen(shown, memory, count)
  {
    hide RecordIn, RecordAt;
    var n, all := |shown|, details + memory[MAXDETAILS..];
    SameBehind(details, memory, RECORD_SIZE * n);
    forall i | 0 <= i < count ensures RecordAt(all, i) == if i < n then shown[i] else RecordAt(memory, i) {
      if i < n {
        RecordsBefore(details, memory[MAXDETAILS..], i);
      } else {
        RecordsBehind(all, memory, n, i);
      }
    }
  }

  /** So the client holds what it is to see. */
  lemma HoldsSeen(packet: seq<byte>, memory: seq<byte>, details: seq<byte>)
    requires Accepts(packet) && CountIn(packet) > 0 && |memory| == ROOM && |details| == MAXDETAILS
    requires HoldsRecords(details, memory[..MAXDETAILS], Shown(packet))
    ensures Holds(Answer(Walked(packet), details + memory[MAXDETAILS..]), packet, memory)
  {
    ShownCounted(packet);
    hide Shown, Walked, Accepts, HoldsRecords, Seen, RecordsIn;
    SeenInMemory(Shown(packet), memory, details, Walked(packet));
  }

  /** The count a client reads from the terminated field is that of the header. */
  lemma HeaderCount(packet: seq<byte>)
    requires Accepts(packet)
    ensures Atoi(CStr(packet[2 + MAXHOSTNAME..HEADER - 1] + [NUL])) == Walked(packet)
    ensures CountIn(packet) > 0 <==> Walked(packet) > 0
  {
    CStrWithNul(packet[2 + MAXHOSTNAME..HEADER - 1]);
  }

  /** statusrecv, of one packet into memory that held `memory`. */
  method Receive(packet: seq<byte>, memory: seq<byte>) returns (ok: bool, a: Answer)
    requires |packet| <= HEADER + MAXDETAILS && |memory| == ROOM
    ensures ok <==> Accepts(packet)
    ensures ok ==> Holds(a, packet, memory)
  {
    hide CStr, Accepts, Shown, HoldsRecords, Holds, CountIn, Walked, TextIn;
    var reply := new Reply();
    forall i | 0 <= i < MAXDETAILS {
      reply.details[i] := memory[i];
    }
    assert reply.details[..] == memory[..MAXDETAILS];
    ok := RecvFromReply(packet, reply);
    if !ok {
      return false, Answer(0, []);
    }
    HeaderCount(packet);
    a := Answer(Atoi(CStr(reply.numconnections[..])), reply.details[..] + memory[MAXDETAILS..]);
    if a.count > 0 {
      HoldsSeen(packet, memory, reply.details[..]);
    } else {
      NothingSeen(packet, memory, a);
    }
  }

  lemma NothingSeen(packet: seq<byte>, memory: seq<byte>, a: Answer)
    requires Accepts(packet) && |memory| == ROOM && Walked(packet) <= 0
    requires a.count == Walked(packet) && |a.memory| == ROOM
    ensures Holds(a, packet, memory)
  {
  }

  /** The packets before the first that is rejected. */
  function Accepted(packets: seq<seq<byte>>): (n: nat)
    ensures n <= |packets|
  {
    if packets == [] || !Accepts(packets[0]) then 0 else 1 + Accepted(packets[1..])
  }

  lemma {:induction false} AcceptedAre(packets: seq<seq<byte>>)
    ensures var n := Accepted(packets);
            (forall i :: 0 <= i < n ==> Accepts(packets[i])) && (n < |packets| ==> !Accepts(packets[n]))
  {
    hide Accepts;
    if packets != [] && Accepts(packets[0]) {
      AcceptedAre(packets[1..]);
      forall i | 0 <= i < Accepted(packets) ensures Accepts(packets[i]) {
        assert i > 0 ==> packets[i] == packets[1..][i - 1];
      }
    }
  }

  lemma AcceptedIs(packets: seq<seq<byte>>, n: nat)
    requires n <= |packets| && (forall i :: 0 <= i < n ==> Accepts(packets[i]))
    requires n < |packets| ==> !Accepts(packets[n])
    ensures Accepted(packets) == n
  {
    hide Accepts, Accepted;
    AcceptedAre(packets);
  }

  /** Packets no longer than a reply, and what memory held where each of them is received. */
  predicate Received(packets: seq<seq<byte>>, memories: seq<seq<byte>>) {
    |memories| == |packets|
    && forall i :: 0 <= i < |packets| ==> |packets[i]| <= HEADER + MAXDETAILS && |memories[i]| == ROOM
  }

  /** What the walks find in the replies received. */
  function RepliesSeen(packets: seq<seq<byte>>, memories: seq<seq<byte>>): (replies: seq<seq<Record>>)
    requires Received(packets, memories)
    ensures |replies| == Accepted(packets)
  {
    hide Accepts, StatsSeen, Accepted;
    AcceptedAre(packets);
    seq(Accepted(packets), i requires 0 <= i < Accepted(packets) => StatsSeen(packets[i], memories[i]))
  }

  function CountOf(packet: seq<byte>): int {
    if |packet| >= HEADER then Walked(packet) else 0
  }

  /** totalAnswers: all that the headers count. */
  function Total(packets: seq<seq<byte>>): int {
    if packets == [] then 0 else Total(packets[..|packets| - 1]) + CountOf(packets[|packets| - 1])
  }

  /** obtainStatus: packets are received, each into new memory, until one is rejected or none is left. */
  method ObtainStatus(packets: seq<seq<byte>>, memories: seq<seq<byte>>) returns (answers: seq<Answer>)
    requires Received(packets, memories)
    ensures |answers| == Accepted(packets)
    ensures forall i :: 0 <= i < |answers| ==> Accepts(packets[i]) && Holds(answers[i], packets[i], memories[i])
  {
    hide Accepts, Holds;
    answers := [];
    for i := 0 to |packets|
      invariant |answers| == i && forall k :: 0 <= k < i ==> Accepts(packets[k]) && Holds(answers[k], packets[k], memories[k])
    {
      var ok, a := Receive(packets[i], memories[i]);
      if !ok {
        AcceptedIs(packets, i);
        return;
      }
      answers := answers + [a];
    }
    AcceptedIs(packets, |packets|);
  }

  /** A pass that does not steal, and if it ends without a connection, one that does. */
  predicate TwoPasses(replies: seq<seq<Record>>, first: seq<Walk>, second: seq<Walk>, r: Outcome) {
    || (Probed(replies, false, first, r) && r != Ended(None) && second == [])
    || (Probed(replies, false, first, Ended(None)) && Probed(replies, true, second, r))
  }

  /**
    makeConnection, when no server is named: status replies are received, and unless they count no
    connections at all, a pass over the free ones is made, and if that finds none, one that steals.
   */
  method MakeConnection(net: Network, packets: seq<seq<byte>>, memories: seq<seq<byte>>)
    returns (answered: bool, r: Outcome, ghost first: seq<Walk>, ghost second: seq<Walk>)
    requires Received(packets, memories)
    modifies net
    ensures answered <==> Total(packets[..Accepted(packets)]) > 0
    ensures !answered ==> r == Ended(None) && first == second == []
    ensures answered ==> TwoPasses(RepliesSeen(packets, memories), first, second, r)
    ensures net.asked == old(net.asked) + AskedBy(first) + AskedBy(second)
    ensures var middle := |old(net.asked) + AskedBy(first)|;
            Proper(net.asked[..middle], |old(net.asked)|, net.grants, false)
            && Proper(net.asked, middle, net.grants, true)
    ensures r.Ended? && r.found.Some? ==> net.asked != [] && net.grants(|net.asked| - 1)
  {
    hide Accepts, Probed, CountOf, Holds, StatsOf, StatsSeen, AskedBy, Accepted, Proper, AllAsked;
    ProperStart(net.asked, net.grants, false);
    ProperStart(net.asked, net.grants, true);
    assert net.asked[..|net.asked|] == net.asked;
    first, second := [], [];
    NoneAsked(net.asked);
    var answers := ObtainStatus(packets, memories);
    var n := |answers|;
    var total, replies := 0, [];
    NoTotal(packets[..0]);
    for i := 0 to n
      invariant total == Total(packets[..i]) && |replies| == i && net.asked == old(net.asked)
      invariant forall k :: 0 <= k < i ==> replies[k] == StatsSeen(packets[k], memories[k])
    {
      HoldsStats(answers[i], packets[i], memories[i]);
      TotalMore(packets, i);
      total := total + answers[i].count;
      replies := replies + [StatsOf(answers[i])];
    }
    if total <= 0 {
      return false, Ended(None), [], [];
    }
    assert replies == RepliesSeen(packets, memories);
    answered := true;
    r, first := GetTCPConnection(net, replies, false);
    NoneAsked(old(net.asked) + AskedBy(first));
    ghost var middle := net.asked;
    assert net.asked[..|middle|] == middle;
    ProperStart(net.asked, net.grants, true);
    if r == Ended(None) {
      r, second := GetTCPConnection(net, replies, true);
    }
  }

  lemma NoneAsked(asked: seq<Ask>)
    ensures asked + AskedBy([]) == asked
  {
  }

  lemma NoTotal(packets: seq<seq<byte>>)
    requires packets == []
    ensures Total(packets) == 0
  {
  }

  lemma TotalMore(packets: seq<seq<byte>>, i: nat)
    requires i < |packets|
    ensures Total(packets[..i + 1]) == Total(packets[..i]) + CountOf(packets[i])
  {
    hide CountOf;
    assert packets[..i + 1][..i] == packets[..i];
  }

  lemma HoldsStats(a: Answer, packet: seq<byte>, memory: seq<byte>)
    requires Accepts(packet) && |memory| == ROOM && Holds(a, packet, memory)
    ensures a.count == CountOf(packet) <= 999 && |a.memory| == ROOM && StatsOf(a) == StatsSeen(packet, memory)
  {
  }

  // ----- a free connection that is not reached --------------------------------------------------------

  /** A connection nobody uses. */
  const FREE := Record([Ascii('c')], [Ascii('m')], false, [], [])

  /** A pass divides by zero if the first reply has no candidate, whatever the others have. */
  lemma FirstReplyFails(replies: seq<seq<Record>>, steal: bool, ws: seq<Walk>, r: Outcome)
    requires replies != [] && Candidates(replies[0], steal) == [] && (steal ==> Readable(replies[0]))
    requires Probed(replies, steal, ws, r)
    ensures r == DividesByZero(0)
  {
    hide Candidates, IsWalk;
    if ws != [] {
      if r.Ended? && r.found.Some? && r.found.value.reply > 0 {
        assert ws[..r.found.value.reply][0] == ws[0];
      }
      WalkedSome(replies[0], steal, ws[0]);
    }
  }

  lemma TotalOfTwo(packets: seq<seq<byte>>)
    requires |packets| == 2
    ensures Total(packets) == CountOf(packets[0]) + CountOf(packets[1])
  {
    hide CountOf;
    TotalMore(packets, 0);
    TotalMore(packets, 1);
    assert packets[..2] == packets && packets[..0] == [];
  }

  lemma AcceptedOfTwo(packets: seq<seq<byte>>)
    requires |packets| == 2 && Accepts(packets[0]) && Accepts(packets[1])
    ensures Accepted(packets) == 2
  {
    hide Accepts;
    AcceptedIs(packets, 2);
  }

  lemma SeenOfTwo(packets: seq<seq<byte>>, memories: seq<seq<byte>>)
    requires |packets| == 2 && Received(packets, memories) && Accepts(packets[0]) && Accepts(packets[1])
    ensures RepliesSeen(packets, memories) == [StatsSeen(packets[0], memories[0]), StatsSeen(packets[1], memories[1])]
  {
    AcceptedOfTwo(packets);
    hide Accepts, StatsSeen, Accepted;
  }

  lemma OneFree(hostname: seq<byte>, junk: seq<byte>, packet: seq<byte>, memory: seq<byte>)
    requires |hostname| == MAXHOSTNAME && |junk| == MAXNCONNECTIONS && |memory| == ROOM && |Digits(1)| == 1
    requires packet == PacketOf(1, hostname, 1, junk, EncodeRecords([FREE]))
    ensures Accepts(packet) && CountOf(packet) == 1 && StatsSeen(packet, memory) == [FREE]
  {
    var rs := [FREE];
    assert AllFit(rs);
    hide PacketOf, EncodeRecords, Walked, Accepts, StatsSeen, Digits, AllFit;
    WalkSeesListingIff(1, hostname, junk, rs);
  }

  /** Two servers, of which the first lists nothing and the second a free connection. */
  lemma EmptyThenFree(hostname: seq<byte>, junk: seq<byte>, packets: seq<seq<byte>>, memories: seq<seq<byte>>)
    requires |hostname| == MAXHOSTNAME && |junk| == MAXNCONNECTIONS && |Digits(0)| == |Digits(1)| == 1
    requires |packets| == 2 && Received(packets, memories)
    requires packets[0] == PacketOf(1, hostname, 0, junk, [])
    requires packets[1] == PacketOf(1, hostname, 1, junk, EncodeRecords([FREE]))
    ensures Accepted(packets) == 2 && Total(packets) == 1 && RepliesSeen(packets, memories) == [[], [FREE]]
  {
    hide PacketOf, EncodeRecords, CountOf, Accepts, StatsSeen, Digits, Accepted, Total, RepliesSeen;
    EmptyListing(1, hostname, junk, memories[0]);
    OneFree(hostname, junk, packets[1], memories[1]);
    AcceptedOfTwo(packets);
    TotalOfTwo(packets);
    SeenOfTwo(packets, memories);
  }

  /** A connection is free, and the first pass divides by zero, whatever the servers grant. */
  lemma FreeButNotReached(ws: seq<Walk>, r: Outcome)
    requires Probed([[], [FREE]], false, ws, r)
    ensures Candidates([FREE], false) == [0] && r == DividesByZero(0)
  {
    OnlyCandidate([FREE], 0);
    NoCandidates(false);
    hide Probed;
    FirstReplyFails([[], [FREE]], false, ws, r);
  }

  lemma EmptyListing(code: byte, hostname: seq<byte>, junk: seq<byte>, memory: seq<byte>)
    requires |hostname| == MAXHOSTNAME && |junk| == MAXNCONNECTIONS && |memory| == ROOM
    ensures |Digits(0)| == 1
    ensures var p := PacketOf(code, hostname, 0, junk, []);
            Accepts(p) && CountOf(p) == 0 && StatsSeen(p, memory) == []
  {
    CountArrives(code, hostname, 0, junk, []);
  }

  /** A connection in use for the reserved time could be had by stealing, but there is no free one to begin with. */
  lemma StealNotReached(r: Record, elapsed: nat)
    requires r.active && r.contime == TimeText(elapsed) && elapsed >= 600
    ensures Candidates([r], false) == [] && Candidates([r], true) == [0]
  {
    StealIff(elapsed);
    hide GetMinutes, TimeText;
    assert [r][..0] == [];
    NoCandidates(false);
    NoCandidates(true);
  }
}
