/** The server of src/xinu-consoled.c: its table, updated in place, and the kernel around it. */
module Consoled {
  import opened Bytes
  import opened Config
  import opened StatusCodec
  import opened Reservations
  import opened Service
  import opened Elapsed
  import ConfigParser
  import Lexicon

  /** The server's child processes, and the kills it has sent. */
  class Kernel {
    var running: set<int>
    var zombies: set<int>
    var kills: seq<int>

    constructor ()
      ensures running == {} && zombies == {} && kills == []
    {
      running, zombies, kills := {}, {}, [];
    }

    /** fork(2), in the parent: fails, or starts a child under a pid that is not in use. */
    method Fork() returns (pid: int)
      modifies this
      ensures pid < 0 || (pid > 0 && pid !in old(running) && pid !in old(zombies))
      ensures running == old(running) + (if pid < 0 then {} else {pid})
      ensures zombies == old(zombies) && kills == old(kills)
    {
      pid := *;
      if pid <= 0 || pid in running || pid in zombies {
        return -1;
      }
      running := running + {pid};
    }

    /** kill(pid, SIGKILL): when the child dies of it is up to the kernel. */
    method Kill(pid: int)
      modifies this
      ensures kills == old(kills) + [pid] && running == old(running) && zombies == old(zombies)
    {
      kills := kills + [pid];
    }

    /** wait3 with WNOHANG: one of the children that have exited, in any order. */
    method Wait3() returns (pid: int)
      requires forall p :: p in zombies ==> p > 0
      modifies this
      ensures running == old(running) && kills == old(kills)
      ensures if old(zombies) == {} then pid <= 0 && zombies == {}
              else pid in old(zombies) && zombies == old(zombies) - {pid}
    {
      if !exists p :: p in zombies {
        return 0;
      }
      pid :| pid in zombies;
      zombies := zombies - {pid};
    }

    /** Meanwhile, a child may exit. */
    method Meanwhile() returns (died: Option<int>)
      modifies this
      ensures kills == old(kills)
      ensures died.None? ==> running == old(running) && zombies == old(zombies)
      ensures died.Some? ==> died.value in old(running) && running == old(running) - {died.value}
                             && zombies == old(zombies) + {died.value}
    {
      var any: bool :| true;
      if !any || !exists p :: p in running {
        return None;
      }
      var pid :| pid in running;
      running, zombies := running - {pid}, zombies + {pid};
      return Some(pid);
    }
  }

  /** scopy: the string and its terminator, at `pos`; the number of bytes written. */
  method Scopy(from: seq<byte>, to: array<byte>, pos: nat) returns (n: nat)
    requires NUL !in from && pos + |from| + 1 <= to.Length
    modifies to
    ensures n == |from| + 1
    ensures to[..pos + n] == old(to[..pos]) + Terminated(from)
  {
    forall i | 0 <= i < |from| {
      to[pos + i] := from[i];
    }
    to[pos + |from|] := NUL;
    n := |from| + 1;
    assert to[pos..pos + n] == Terminated(from);
    assert to[..pos + n] == to[..pos] + to[pos..pos + n];
  }

  method PutMark(mark: byte, to: array<byte>, pos: nat)
    requires pos < to.Length
    modifies to
    ensures to[..pos + 1] == old(to[..pos]) + [mark]
  {
    to[pos] := mark;
  }

  /** The part of a record that only a connection in use has. */
  method WriteSession(user: seq<byte>, time: seq<byte>, to: array<byte>, pos: nat) returns (end: nat)
    requires NUL !in user && NUL !in time && pos + |user| + |time| + 3 <= to.Length
    modifies to
    ensures end == pos + |user| + |time| + 3
    ensures to[..end] == old(to[..pos]) + ([1] + (Terminated(user) + Terminated(time)))
  {
    hide Terminated;
    ghost var before := to[..pos];
    PutMark(1, to, pos);
    end := pos + 1;
    var n := Scopy(user, to, end);
    end := end + n;
    n := Scopy(time, to, end);
    end := end + n;
    assert before + [1] + Terminated(user) + Terminated(time) == before + ([1] + (Terminated(user) + Terminated(time)));
  }

  /** The body of Status's loop: one record at `pos`, and where the next one goes. */
  method WriteEntry(c: Condata, now: int, to: array<byte>, pos: nat) returns (end: nat)
    requires Fits(RecordOf(c, now)) && pos + RECORD_SIZE <= to.Length
    modifies to
    ensures end <= pos + RECORD_SIZE && to[..end] == old(to[..pos]) + EncodeRecord(RecordOf(c, now))
  {
    hide Terminated, TimeText, CStr;
    ghost var before := to[..pos];
    var n := Scopy(c.info.conname, to, pos);
    end := pos + n;
    n := Scopy(c.info.conclass, to, end);
    end := end + n;
    ghost var names := to[..end];
    if c.conpid == BADPID {
      PutMark(NUL, to, end);
      end := end + 1;
      assert names + [NUL] == before + (Terminated(c.info.conname) + (Terminated(c.info.conclass) + [NUL]));
    } else {
      ghost var session := [1] + (Terminated(CStr(c.user)) + Terminated(TimeText(now - c.contime)));
      end := WriteSession(CStr(c.user), TimeText(now - c.contime), to, end);
      assert names + session == before + (Terminated(c.info.conname) + (Terminated(c.info.conclass) + session));
    }
  }

  class Daemon {
    const kernel: Kernel
    var config: seq<Condata>
    var verbose: bool

    ghost function State(): Server
      reads this, kernel
    {
      Server(config, kernel.running, kernel.zombies, kernel.kills, verbose)
    }

    constructor (config: seq<Condata>)
      ensures State() == Started(config) && fresh(kernel)
    {
      this.config, verbose := config, false;
      kernel := new Kernel();
    }

    /** The inner loop of findDeadChildren. */
    method Free(childpid: int)
      requires UsersStored(config)
      modifies this`config
      ensures config == Reap(old(config), {childpid})
    {
      for i := 0 to |config|
        invariant |config| == |old(config)| && UsersStored(config)
        invariant forall j :: 0 <= j < i ==> config[j] == Reap(old(config), {childpid})[j]
        invariant forall j :: i <= j < |config| ==> config[j] == old(config)[j]
      {
        if config[i].conpid == childpid {
          config := config[i := Freed(config[i])];
        }
      }
    }

    /** Frees the entries of children that have exited; every one of them is reaped. */
    method FindDeadChildren()
      requires Inv(State())
      modifies this`config, kernel
      ensures old(UsersStored(config)) && State() == Collect(old(State()))
    {
      ghost var s0, gone := State(), {};
      assert Reap(config, {}) == config;
      while true
        invariant UsersStored(s0.table) && gone <= s0.zombies && config == Reap(s0.table, gone)
        invariant State() == s0.(table := config, zombies := s0.zombies - gone)
        decreases kernel.zombies
      {
        var childpid := kernel.Wait3();
        if !(childpid > 0) {
          assert gone == s0.zombies;
          break;
        }
        Free(childpid);
        ReapMore(s0.table, gone, {childpid});
        gone := gone + {childpid};
      }
    }

    /** getcondata: the index of the first entry that matches, or of none. */
    method GetCondata(name: seq<byte>, cls: seq<byte>) returns (k: nat)
      ensures k == Lookup(config, name, cls)
    {
      k := 0;
      while k < |config|
        invariant k <= |config| && LookupFrom(config, k, name, cls) == Lookup(config, name, cls)
      {
        if StrnEq(config[k].info.conname, name, MAXCONNECTIONNAME) {
          if CStr(cls) != [] {
            if StrnEq(config[k].info.conclass, cls, MAXCLASSNAME) {
              return;
            }
          } else {
            return;
          }
        }
        k := k + 1;
      }
    }

    /** The records of the connections asked for, one after the other in the reply's buffer. */
    method Status(req: Request, now: int) returns (numc: nat, len: nat, details: array<byte>)
      requires Inv(State()) && TableWithinLimits(config) && ClockOk(config, now)
      ensures details.Length == MAXDETAILS && len <= RECORD_SIZE * numc <= MAXDETAILS
      ensures numc == |Filter(config, req.conname, req.conclass)|
      ensures details[..len] == EncodeRecords(RecordsOf(Filter(config, req.conname, req.conclass), now))
      ensures fresh(details)
    {
      hide EncodeRecords, EncodeRecord, StrnEq, Pids, Distinct, Fits, Filter, Listed, RecordsOf;
      details := new byte[MAXDETAILS];
      numc, len := 0, 0;
      ghost var listed: seq<Condata> := [];
      NoRecords(now);
      assert config[..0] == [];
      NoneListed(req);
      for i := 0 to |config|
        invariant listed == Filter(config[..i], req.conname, req.conclass)
        invariant numc == |listed| <= i && len <= RECORD_SIZE * numc
        invariant details[..len] == EncodeRecords(RecordsOf(listed, now))
      {
        FilterNext(config, i, req);
        if CStr(req.conname) != [] && !StrnEq(req.conname, config[i].info.conname, MAXCONNECTIONNAME) {
          continue;
        }
        if CStr(req.conclass) != [] && !StrnEq(req.conclass, config[i].info.conclass, MAXCLASSNAME) {
          continue;
        }
        RecordFits(config[i], now);
        numc := numc + 1;
        MoreRecords(listed, config[i], now);
        listed := listed + [config[i]];
        len := WriteEntry(config[i], now, details, len);
      }
      assert config[..|config|] == config;
    }

    /** A child serves the connection, if one can be started. */
    method MakeConnection(req: Request, k: nat, now: int) returns (pid: int)
      requires Inv(State()) && k < |config|
      modifies this`config, kernel
      ensures pid < 0 || (pid > 0 && pid !in old(kernel.running) && pid !in old(kernel.zombies))
      ensures old(UsersStored(config)) && State() == Connect(old(State()), k, req, now, pid)
    {
      pid := kernel.Fork();
      if pid < 0 {
      } else {
        config := config[k := config[k].(conpid := pid)];
        config := config[k := config[k].(contime := now)];
        config := config[k := config[k].(user := StrnCpy(config[k].user, req.user, MAXUSERNAME - 1))];
      }
    }

    method ProcessRequest(req: Request, now: int) returns (reply: Reply, ghost pid: int)
      requires Inv(State()) && TableWithinLimits(config) && ClockOk(config, now)
      modifies this, kernel
      ensures pid < 0 || (pid > 0 && pid !in old(kernel.running) && pid !in old(kernel.zombies))
      ensures old(UsersStored(config)) && (State(), reply) == Process(old(State()), req, now, pid)
    {
      hide LookupFrom, Filter, EncodeRecords, Connect, StrnEq;
      pid := -1;
      if req.version != CURVERSION {
        return Message(RESP_ERR, UnknownVersion), pid;
      }
      if req.code == REQ_VERBOSE_ON {
        verbose := true;
        reply := Message(RESP_OK, VerboseOn);
      } else if req.code == REQ_VERBOSE_OFF {
        verbose := false;
        reply := Message(RESP_OK, VerboseOff);
      } else if req.code == REQ_STATUS {
        var numc, len, details := Status(req, now);
        reply := Listing(numc, details[..len]);
      } else if req.code == REQ_TOUCHCONNECTION {
        var k := GetCondata(req.conname, req.conclass);
        if k < |config| && config[k].conpid != BADPID && StrnEq(config[k].user, req.user, MAXUSERNAME) {
          config := config[k := config[k].(contime := now)];
        }
        reply := NoReply;
      } else if req.code == REQ_MAKECONNECTION {
        var k := GetCondata(req.conname, req.conclass);
        if k == |config| {
          reply := Message(RESP_ERR, NotFound);
        } else if config[k].conpid != BADPID {
          reply := Message(RESP_ERR, Running);
        } else {
          pid := MakeConnection(req, k, now);
          reply := NoReply;
        }
      } else if req.code == REQ_BREAKCONNECTION {
        var k := GetCondata(req.conname, req.conclass);
        if k == |config| {
          reply := Message(RESP_ERR, NotFound);
        } else if config[k].conpid == BADPID {
          reply := Message(RESP_ERR, NotRunning);
        } else {
          kernel.Kill(config[k].conpid);
          reply := Message(RESP_OK, Broken);
        }
      } else {
        reply := Message(RESP_ERR, InvalidCommand);
      }
    }

    /** Meanwhile, a child may exit. */
    method Meanwhile() returns (ghost e: Event)
      requires Inv(State())
      modifies kernel
      ensures e.Idle? || e.Exits?
      ensures e.Idle? ==> State() == old(State())
      ensures e.Exits? ==> Possible(old(State()), e) && old(UsersStored(config)) && State() == Step(old(State()), e)
      ensures Inv(State())
    {
      hide Distinct, Pids;
      ghost var s := State();
      var died := kernel.Meanwhile();
      e := Idle;
      if died.Some? {
        e := Exits(died.value);
        StepInv(s, e);
      }
    }

    /** One turn of the main loop: children that have exited are reaped, then the request is served. */
    method Turn(req: Option<Request>, now: int, ghost start: int, ghost last: int) returns (reply: Reply, ghost e: Event)
      requires Inv(State()) && TableWithinLimits(config)
      requires MadeBetween(config, start, last) && start <= last <= now < start + MAXELAPSED
      requires req.Some? ==> WellFormed(req.value)
      modifies this, kernel
      ensures old(UsersStored(config)) && Possible(old(State()), e)
      ensures State() == Step(old(State()), e) && reply == ReplyOf(old(State()), e) && Inv(State())
      ensures TableWithinLimits(config)
      ensures req.None? ==> e == Idle
      ensures req.Some? ==> e.Serve? && e.req == req.value && e.now == now
      ensures MadeBetween(config, start, if e.Serve? then now else last)
    {
      ghost var s := State();
      FindDeadChildren();
      CollectInv(s);
      reply, e := NoReply, Idle;
      if req.Some? {
        ghost var pid;
        assert TableWithinLimits(config) && ClockOk(config, now);
        reply, pid := ProcessRequest(req.value, now);
        e := Event.Serve(req.value, now, pid);
      }
      StepInv(s, e);
      StepMade(s, e, start, last);
      StepKeepsInfos(s, e);
      SameLimits(s.table, config);
    }

    method CleanUp()
      modifies kernel
      ensures kernel.kills == old(kernel.kills) + CleanUpKills(config)
      ensures kernel.running == old(kernel.running) && kernel.zombies == old(kernel.zombies)
    {
      for i := 0 to |config|
        invariant kernel.kills == old(kernel.kills) + CleanUpKills(config[..i])
        invariant kernel.running == old(kernel.running) && kernel.zombies == old(kernel.zombies)
      {
        assert config[..i + 1][..i] == config[..i];
        if config[i].conpid != BADPID {
          kernel.Kill(config[i].conpid);
        }
      }
      assert config[..|config|] == config;
    }
  }

  lemma SameLimits(before: seq<Condata>, after: seq<Condata>)
    requires TableWithinLimits(before) && ConfigParser.Infos(after) == ConfigParser.Infos(before)
    ensures TableWithinLimits(after)
  {
    assert |ConfigParser.Infos(after)| == |after|;
    assert forall i :: 0 <= i < |after| ==> after[i].info == ConfigParser.Infos(after)[i] == before[i].info;
  }

  lemma FilterNext(table: seq<Condata>, i: nat, req: Request)
    requires i < |table|
    ensures Filter(table[..i + 1], req.conname, req.conclass)
            == Filter(table[..i], req.conname, req.conclass)
               + if Listed(table[i].info, req.conname, req.conclass) then [table[i]] else []
    ensures Listed(table[i].info, req.conname, req.conclass)
            <==> (CStr(req.conname) != [] ==> StrnEq(req.conname, table[i].info.conname, MAXCONNECTIONNAME))
                 && (CStr(req.conclass) != [] ==> StrnEq(req.conclass, table[i].info.conclass, MAXCLASSNAME))
  {
    assert table[..i + 1][..i] == table[..i];
  }

  lemma NoneListed(req: Request)
    ensures Filter([], req.conname, req.conclass) == []
  {
  }

  lemma NoRecords(now: int)
    ensures EncodeRecords(RecordsOf([], now)) == []
  {
  }

  lemma MoreRecords(listed: seq<Condata>, c: Condata, now: int)
    ensures EncodeRecords(RecordsOf(listed + [c], now))
            == EncodeRecords(RecordsOf(listed, now)) + EncodeRecord(RecordOf(c, now))
  {
    assert RecordsOf(listed + [c], now) == RecordsOf(listed, now) + [RecordOf(c, now)];
    EncodeMore(RecordsOf(listed, now), RecordOf(c, now));
  }

  // ----- the main loop --------------------------------------------------------------------------

  /** Connections in use were made between `from` and `to`. */
  predicate MadeBetween(table: seq<Condata>, from: int, to: int) {
    forall i :: 0 <= i < |table| && table[i].conpid != BADPID ==> from <= table[i].contime <= to
  }

  lemma StepMade(s: Server, e: Event, from: int, to: int)
    requires UsersStored(s.table) && MadeBetween(s.table, from, to) && from <= to
    requires e.Serve? ==> to <= e.now
    ensures MadeBetween(Step(s, e).table, from, if e.Serve? then e.now else to)
  {
    hide Process;
    if e.Serve? {
      var c := Collect(s);
      var t := Process(c, e.req, e.now, e.pid).0.table;
      forall i | 0 <= i < |t| && t[i].conpid != BADPID ensures from <= t[i].contime <= e.now {
        ProcessTime(c, e.req, e.now, e.pid, i);
      }
    }
  }

  lemma ProcessTime(s: Server, req: Request, now: int, pid: int, i: nat)
    requires UsersStored(s.table) && i < |s.table|
    ensures var c := Process(s, req, now, pid).0.table[i];
            c.contime == now || (c.contime == s.table[i].contime && c.conpid == s.table[i].conpid)
  {
    hide StrnEq, EncodeRecords, Filter;
  }

  lemma RunMore(s: Server, es: seq<Event>, e: Event)
    requires UsersStored(s.table) && Run(s, es) && Possible(After(s, es), e)
    ensures Run(s, es + [e]) && After(s, es + [e]) == Step(After(s, es), e)
    ensures RepliesIn(s, es + [e]) == RepliesIn(s, es) + if e.Exits? then [] else [ReplyOf(After(s, es), e)]
  {
    hide Step, Possible;
    var more := es + [e];
    assert more[..|es|] == es;
    forall k | 0 <= k < |more| ensures Possible(After(s, more[..k]), more[k]) {
      assert k < |es| ==> more[..k] == es[..k];
    }
  }

  /** The replies of a run, one for each turn of the main loop. */
  function RepliesIn(s: Server, es: seq<Event>): seq<Reply>
    requires UsersStored(s.table)
  {
    if es == [] then []
    else
      var before, e := es[..|es| - 1], es[|es| - 1];
      RepliesIn(s, before) + if e.Exits? then [] else [ReplyOf(After(s, before), e)]
  }

  /** What arrives from the network in one turn of the main loop, if anything, and when. */
  datatype Arrival = Arrival(req: Option<Request>, now: int)

  /** The turns of the main loop in a run: the events that are not exits of children. */
  function TurnsOf(es: seq<Event>): seq<Event> {
    if es == [] then []
    else
      var e := es[|es| - 1];
      TurnsOf(es[..|es| - 1]) + if e.Exits? then [] else [e]
  }

  lemma TurnsMore(es: seq<Event>, e: Event)
    ensures TurnsOf(es + [e]) == TurnsOf(es) + if e.Exits? then [] else [e]
  {
    assert (es + [e])[..|es|] == es;
  }

  /** The turn serves what arrived, at the time it did; or nothing, if nothing did. */
  predicate Takes(e: Event, a: Arrival) {
    if a.req.None? then e == Idle else e.Serve? && e.req == a.req.value && e.now == a.now
  }

  /** One turn for each arrival, in order. */
  predicate TakesAll(es: seq<Event>, arrivals: seq<Arrival>) {
    var turns := TurnsOf(es);
    |turns| == |arrivals| && forall i :: 0 <= i < |arrivals| ==> Takes(turns[i], arrivals[i])
  }

  lemma TakesMore(es: seq<Event>, e: Event, arrivals: seq<Arrival>, a: Arrival)
    requires TakesAll(es, arrivals) && Takes(e, a)
    ensures TakesAll(es + [e], arrivals + [a])
  {
    TurnsMore(es, e);
  }

  lemma TakesExit(es: seq<Event>, e: Event, arrivals: seq<Arrival>)
    requires TakesAll(es, arrivals) && e.Exits?
    ensures TakesAll(es + [e], arrivals)
  {
    TurnsMore(es, e);
  }

  /** The arrivals are in the order of the clock, which starts at `start`. */
  predicate InOrder(arrivals: seq<Arrival>, start: int) {
    (forall i :: 0 <= i < |arrivals| ==>
       start <= arrivals[i].now < start + MAXELAPSED
       && (arrivals[i].req.Some? ==> WellFormed(arrivals[i].req.value)))
    && forall i, j :: 0 <= i < j < |arrivals| ==> arrivals[i].now <= arrivals[j].now
  }

  /** The run so far led to this state, served exactly what has arrived, and sent these replies. */
  ghost predicate Follows(table: seq<Condata>, es: seq<Event>, s: Server, arrived: seq<Arrival>, replies: seq<Reply>) {
    UsersStored(table) && Run(Started(table), es) && s == After(Started(table), es)
    && TakesAll(es, arrived) && |replies| == |arrived| && replies == RepliesIn(Started(table), es)
  }

  lemma FollowsNothing(table: seq<Condata>, start: int)
    requires forall i :: 0 <= i < |table| ==> ConfigParser.Unused(table[i])
    ensures Follows(table, [], Started(table), [], [])
    ensures Inv(Started(table)) && MadeBetween(table, start, start)
  {
    StartInv(table);
  }

  lemma FollowsExit(table: seq<Condata>, es: seq<Event>, s: Server, arrived: seq<Arrival>, replies: seq<Reply>, e: Event)
    requires Follows(table, es, s, arrived, replies) && e.Exits? && Possible(s, e)
    ensures UsersStored(s.table) && Follows(table, es + [e], Step(s, e), arrived, replies)
  {
    hide Step, Possible, Run, RepliesIn, TakesAll;
    RunMore(Started(table), es, e);
    TakesExit(es, e, arrived);
    assert replies + [] == replies;
  }

  lemma FollowsTurn(table: seq<Condata>, es: seq<Event>, s: Server, arrived: seq<Arrival>, replies: seq<Reply>,
                    e: Event, a: Arrival)
    requires Follows(table, es, s, arrived, replies) && Takes(e, a) && Possible(s, e)
    ensures UsersStored(s.table)
    ensures Follows(table, es + [e], Step(s, e), arrived + [a], replies + [ReplyOf(s, e)])
  {
    hide Step, Possible, Run, RepliesIn, TakesAll, ReplyOf;
    RunMore(Started(table), es, e);
    TakesMore(es, e, arrived, a);
  }

  /** What arrives from the `i`-th on does not arrive before `last`. */
  predicate NotBefore(arrivals: seq<Arrival>, i: nat, last: int) {
    forall j :: i <= j < |arrivals| ==> last <= arrivals[j].now
  }

  lemma StartsInOrder(arrivals: seq<Arrival>, start: int)
    requires InOrder(arrivals, start)
    ensures NotBefore(arrivals, 0, start)
  {
  }

  lemma NextInOrder(arrivals: seq<Arrival>, start: int, i: nat, last: int)
    requires InOrder(arrivals, start) && i < |arrivals| && NotBefore(arrivals, i, last)
    ensures last <= arrivals[i].now < start + MAXELAPSED
    ensures arrivals[i].req.Some? ==> WellFormed(arrivals[i].req.value)
    ensures NotBefore(arrivals, i + 1, last) && NotBefore(arrivals, i + 1, arrivals[i].now)
  {
  }

  /** Any number of children exit. */
  method Elapse(d: Daemon, ghost table: seq<Condata>, ghost es: seq<Event>, ghost arrived: seq<Arrival>,
                ghost replies: seq<Reply>)
    returns (ghost es': seq<Event>)
    requires Inv(d.State()) && Follows(table, es, d.State(), arrived, replies)
    modifies d.kernel
    ensures Inv(d.State()) && Follows(table, es', d.State(), arrived, replies)
  {
    hide Step, Possible, Consistent, Follows;
    es' := es;
    var exits: nat :| true;
    for j := 0 to exits
      invariant Inv(d.State()) && Follows(table, es', d.State(), arrived, replies)
    {
      ghost var s := d.State();
      ghost var e := d.Meanwhile();
      if e.Exits? {
        FollowsExit(table, es', s, arrived, replies, e);
        es' := es' + [e];
      }
    }
  }

  /** Between two turns: the run so far, and when what comes next may arrive. */
  ghost predicate Between(d: Daemon, table: seq<Condata>, es: seq<Event>, arrived: seq<Arrival>, replies: seq<Reply>,
                          start: int, last: int)
    reads d, d.kernel
  {
    Inv(d.State()) && Follows(table, es, d.State(), arrived, replies)
    && TableWithinLimits(d.config) && MadeBetween(d.config, start, last) && start <= last
  }

  /** Children exit, and one turn is taken. */
  method ServeOne(d: Daemon, a: Arrival, ghost table: seq<Condata>, ghost es: seq<Event>, ghost arrived: seq<Arrival>,
                  ghost replies: seq<Reply>, ghost start: int, ghost last: int)
    returns (reply: Reply, ghost es': seq<Event>, ghost last': int)
    requires Between(d, table, es, arrived, replies, start, last)
    requires last <= a.now < start + MAXELAPSED && (a.req.Some? ==> WellFormed(a.req.value))
    modifies d, d.kernel
    ensures last' == last || last' == a.now
    ensures Between(d, table, es', arrived + [a], replies + [reply], start, last')
  {
    hide Step, Possible, ReplyOf, Consistent, Follows, MadeBetween, TableWithinLimits, WellFormed;
    es' := Elapse(d, table, es, arrived, replies);
    ghost var s := d.State();
    ghost var e;
    reply, e := d.Turn(a.req, a.now, start, last);
    FollowsTurn(table, es', s, arrived, replies, e, a);
    es' := es' + [e];
    last' := if e.Serve? then e.now else last;
  }

  /**
    The main loop, for as long as there are arrivals: children exit at any time between them.
    The server goes through a run of the state machine whose turns serve exactly what arrived, in
    order, and sends the replies of that run.
   */
  method Serve(table: seq<Condata>, arrivals: seq<Arrival>, start: int)
    returns (d: Daemon, ghost es: seq<Event>, replies: seq<Reply>)
    requires TableWithinLimits(table) && InOrder(arrivals, start)
    requires forall i :: 0 <= i < |table| ==> ConfigParser.Unused(table[i])
    ensures UsersStored(table) && Run(Started(table), es) && d.State() == After(Started(table), es)
    ensures TakesAll(es, arrivals)
    ensures |replies| == |arrivals| && replies == RepliesIn(Started(table), es)
  {
    hide *;
    StartsInOrder(arrivals, start);
    d := new Daemon(table);
    BetweenNothing(d, table, start);
    es, replies := [], [];
    ghost var last := start;
    assert arrivals[..0] == [];
    for i := 0 to |arrivals|
      invariant fresh(d) && fresh(d.kernel)
      invariant Between(d, table, es, arrivals[..i], replies, start, last) && NotBefore(arrivals, i, last)
    {
      NextInOrder(arrivals, start, i, last);
      var reply;
      reply, es, last := ServeOne(d, arrivals[i], table, es, arrivals[..i], replies, start, last);
      PrefixMore(arrivals, i);
      replies := replies + [reply];
    }
    PrefixAll(arrivals);
    FollowsAll(table, es, d, arrivals, replies, start, last);
  }

  lemma BetweenNothing(d: Daemon, table: seq<Condata>, start: int)
    requires d.State() == Started(table) && TableWithinLimits(table)
    requires forall i :: 0 <= i < |table| ==> ConfigParser.Unused(table[i])
    ensures Between(d, table, [], [], [], start, start)
  {
    FollowsNothing(table, start);
    hide Follows, MadeBetween, TableWithinLimits, Consistent;
  }

  lemma PrefixMore(arrivals: seq<Arrival>, i: nat)
    requires i < |arrivals|
    ensures arrivals[..i + 1] == arrivals[..i] + [arrivals[i]]
  {
  }

  lemma PrefixAll(arrivals: seq<Arrival>)
    ensures arrivals[..|arrivals|] == arrivals
  {
  }

  lemma FollowsAll(table: seq<Condata>, es: seq<Event>, d: Daemon, arrived: seq<Arrival>, replies: seq<Reply>,
                   start: int, last: int)
    requires Between(d, table, es, arrived, replies, start, last)
    ensures UsersStored(table) && Run(Started(table), es) && d.State() == After(Started(table), es)
    ensures TakesAll(es, arrived) && |replies| == |arrived| && replies == RepliesIn(Started(table), es)
  {
  }

  /** The turns and the replies of a run, one by one: what each turn took, and what was sent for it. */
  lemma {:induction false} TurnAndReply(s: Server, es: seq<Event>, k: nat)
    requires UsersStored(s.table) && k < |es| && !es[k].Exits?
    ensures var n := |TurnsOf(es[..k])|;
            n < |TurnsOf(es)| == |RepliesIn(s, es)|
            && TurnsOf(es)[n] == es[k] && RepliesIn(s, es)[n] == ReplyOf(After(s, es[..k]), es[k])
    decreases |es|
  {
    hide ReplyOf, After;
    SameNumber(s, es);
    SameNumber(s, es[..|es| - 1]);
    if k < |es| - 1 {
      assert es[..|es| - 1][..k] == es[..k];
      TurnAndReply(s, es[..|es| - 1], k);
    }
  }

  lemma {:induction false} SameNumber(s: Server, es: seq<Event>)
    requires UsersStored(s.table)
    ensures |TurnsOf(es)| == |RepliesIn(s, es)|
  {
    hide ReplyOf, After;
    if es != [] {
      SameNumber(s, es[..|es| - 1]);
    }
  }

  /**
    The server from its configuration file on. Unless the file is in error, it goes through a
    run of the state machine on the table the file means.
   */
  method Start(text: seq<byte>, mine: seq<byte> -> bool, arrivals: seq<Arrival>, start: int)
    returns (loaded: ConfigParser.Loaded, ghost last: Server, ghost es: seq<Event>, replies: seq<Reply>)
    requires InOrder(arrivals, start)
    ensures loaded.Undefined? <==> !NamesSound(Lexicon.Tokens(text))
    ensures loaded.Failed? <==> NamesSound(Lexicon.Tokens(text)) && Meaning(Lexicon.Tokens(text), mine) == Error
    ensures loaded.Loaded? ==>
              Meaning(Lexicon.Tokens(text), mine) == Table(ConfigParser.Infos(loaded.table))
              && UsersStored(loaded.table) && Run(Started(loaded.table), es)
              && last == After(Started(loaded.table), es) && Inv(last) && TakesAll(es, arrivals)
              && replies == RepliesIn(Started(loaded.table), es) && |replies| == |arrivals|
  {
    hide Lexicon.Tokens, Run, After, RepliesIn, WithinLimits, Consistent, TakesAll;
    loaded := ConfigParser.ReadConfigurationFile(text, mine);
    last, es, replies := Started([]), [], [];
    if loaded.Loaded? {
      var table := loaded.table;
      MeaningWithinLimits(text, mine);
      assert forall i :: 0 <= i < |table| ==> table[i].info == ConfigParser.Infos(table)[i];
      var d;
      d, es, replies := Serve(table, arrivals, start);
      last := d.State();
      StartInv(table);
      RunInv(Started(table), es);
    }
  }
}
