/**
  The reservation server of src/xinu-consoled.c as a state machine over the connection table
  and the server's child processes, and what holds in every run of it.
 */
module Reservations {
  import opened Bytes
  import opened Config
  import opened StatusCodec
  import ConfigParser

  const REQ_STATUS := 4
  const REQ_TOUCHCONNECTION := 8
  const REQ_MAKECONNECTION := 9
  const REQ_BREAKCONNECTION := 10
  const REQ_VERBOSE_ON := 13
  const REQ_VERBOSE_OFF := 14
  const RESP_OK := 1
  const RESP_ERR := 2

  /** `struct request`: the three strings are whole 16-byte fields, which need not hold a terminator. */
  datatype Request = Request(version: byte, code: byte, user: seq<byte>, conname: seq<byte>, conclass: seq<byte>)

  predicate WellFormed(req: Request) {
    |req.user| == MAXUSERNAME && |req.conname| == MAXCONNECTIONNAME && |req.conclass| == MAXCLASSNAME
  }

  datatype Text =
    | UnknownVersion | VerboseOn | VerboseOff | NotFound | Running | NotRunning | Broken | InvalidCommand

  datatype Reply = NoReply | Message(code: int, text: Text) | Listing(count: nat, details: seq<byte>)

  /** The table, the children that run, those that have exited but not been reaped, and the kills sent. */
  datatype Server = Server(table: seq<Condata>, running: set<int>, zombies: set<int>, kills: seq<int>, verbose: bool)

  // ----- C strings ------------------------------------------------------------------------

  function Prefix(s: seq<byte>, n: nat): seq<byte> {
    if |s| <= n then s else s[..n]
  }

  /** strncmp(x, y, n) == 0 */
  predicate StrnEq(x: seq<byte>, y: seq<byte>, n: nat) {
    Prefix(CStr(x), n) == Prefix(CStr(y), n)
  }

  /** strncpy(dst, src, n): what is copied, zeros up to `n` bytes, and the rest of the field. */
  function StrnCpy(dst: seq<byte>, src: seq<byte>, n: nat): (r: seq<byte>)
    requires n <= |dst|
    ensures |r| == |dst| && r[n..] == dst[n..]
  {
    var copied := Prefix(CStr(src), n);
    copied + seq(n - |copied|, _ => NUL) + dst[n..]
  }

  // ----- finding connections --------------------------------------------------------------

  /** getcondata's test of one entry. */
  predicate Matches(info: Info, name: seq<byte>, cls: seq<byte>) {
    StrnEq(info.conname, name, MAXCONNECTIONNAME)
    && (CStr(cls) != [] ==> StrnEq(info.conclass, cls, MAXCLASSNAME))
  }

  /** Status's test of one entry: an empty name stands for all. */
  predicate Listed(info: Info, name: seq<byte>, cls: seq<byte>) {
    (CStr(name) != [] ==> StrnEq(info.conname, name, MAXCONNECTIONNAME))
    && (CStr(cls) != [] ==> StrnEq(info.conclass, cls, MAXCLASSNAME))
  }

  /** The first entry at or after `i` that matches, or the length of the table. */
  function LookupFrom(table: seq<Condata>, i: nat, name: seq<byte>, cls: seq<byte>): (k: nat)
    requires i <= |table|
    ensures i <= k <= |table|
    ensures k < |table| ==> Matches(table[k].info, name, cls)
    ensures forall j :: i <= j < k ==> !Matches(table[j].info, name, cls)
    decreases |table| - i
  {
    if i == |table| || Matches(table[i].info, name, cls) then i else LookupFrom(table, i + 1, name, cls)
  }

  function Lookup(table: seq<Condata>, name: seq<byte>, cls: seq<byte>): nat {
    LookupFrom(table, 0, name, cls)
  }

  function Filter(table: seq<Condata>, name: seq<byte>, cls: seq<byte>): seq<Condata> {
    if table == [] then []
    else
      var last := table[|table| - 1];
      Filter(table[..|table| - 1], name, cls) + if Listed(last.info, name, cls) then [last] else []
  }

  lemma {:induction false} FilterFirst(table: seq<Condata>, k: nat, name: seq<byte>, cls: seq<byte>)
    requires k <= |table|
    requires forall j :: 0 <= j < k ==> !Listed(table[j].info, name, cls)
    requires k < |table| ==> Listed(table[k].info, name, cls)
    ensures var listed := Filter(table, name, cls);
            if k == |table| then listed == [] else listed != [] && listed[0] == table[k]
    decreases |table|
  {
    hide Listed;
    if table != [] {
      var before := table[..|table| - 1];
      FilterFirst(before, if k < |before| then k else |before|, name, cls);
    }
  }

  /** A named request acts on the first entry it would list, and finds none iff it lists none. */
  lemma LookupIsFirstListed(table: seq<Condata>, name: seq<byte>, cls: seq<byte>)
    requires CStr(name) != []
    ensures var k := Lookup(table, name, cls);
            var listed := Filter(table, name, cls);
            if k == |table| then listed == [] else listed != [] && listed[0] == table[k]
  {
    hide StrnEq, Filter;
    var k := Lookup(table, name, cls);
    forall j | 0 <= j < |table| ensures Listed(table[j].info, name, cls) == Matches(table[j].info, name, cls) {
    }
    FilterFirst(table, k, name, cls);
  }

  /** The entry has the name and the class asked for; what is empty asks for nothing. */
  predicate AskedFor(info: Info, name: seq<byte>, cls: seq<byte>) {
    (CStr(name) == [] || info.conname == CStr(name)) && (CStr(cls) == [] || info.conclass == CStr(cls))
  }

  /** For the names of an accepted file and the fields of a request, the tests compare whole strings. */
  lemma TestsAreEqualities(info: Info, name: seq<byte>, cls: seq<byte>)
    requires WithinLimits(info) && |name| == MAXCONNECTIONNAME && |cls| == MAXCLASSNAME
    ensures Listed(info, name, cls) <==> AskedFor(info, name, cls)
    ensures Matches(info, name, cls) <==>
              info.conname == CStr(name) && (CStr(cls) == [] || info.conclass == CStr(cls))
  {
    CStrWhole(info.conname);
    CStrWhole(info.conclass);
  }

  /** `listed` are exactly the entries asked for, at the places `at`, in the order of the table. */
  ghost predicate ListedAt(table: seq<Condata>, name: seq<byte>, cls: seq<byte>, at: seq<nat>, listed: seq<Condata>) {
    |at| == |listed|
    && (forall k :: 0 <= k < |at| ==> at[k] < |table| && listed[k] == table[at[k]] && AskedFor(listed[k].info, name, cls))
    && (forall k, l :: 0 <= k < l < |at| ==> at[k] < at[l])
    && forall i: nat :: i < |table| && AskedFor(table[i].info, name, cls) ==> i in at
  }

  lemma ListedMore(table: seq<Condata>, name: seq<byte>, cls: seq<byte>, at: seq<nat>, listed: seq<Condata>, c: Condata)
    requires ListedAt(table, name, cls, at, listed)
    ensures if AskedFor(c.info, name, cls) then ListedAt(table + [c], name, cls, at + [|table|], listed + [c])
            else ListedAt(table + [c], name, cls, at, listed)
  {
    hide AskedFor;
    assert forall i :: 0 <= i < |table| ==> (table + [c])[i] == table[i];
  }

  lemma NoneListedAt(name: seq<byte>, cls: seq<byte>)
    ensures ListedAt([], name, cls, [], [])
  {
  }

  lemma {:induction false} FilterIs(table: seq<Condata>, name: seq<byte>, cls: seq<byte>) returns (at: seq<nat>)
    requires forall i :: 0 <= i < |table| ==> WithinLimits(table[i].info)
    requires |name| == MAXCONNECTIONNAME && |cls| == MAXCLASSNAME
    ensures ListedAt(table, name, cls, at, Filter(table, name, cls))
  {
    hide Listed, AskedFor, WithinLimits, ListedAt;
    if table == [] {
      NoneListedAt(name, cls);
      return [];
    }
    var n := |table| - 1;
    var before, last := table[..n], table[n];
    at := FilterIs(before, name, cls);
    TestsAreEqualities(last.info, name, cls);
    ListedMore(before, name, cls, at, Filter(before, name, cls), last);
    assert before + [last] == table && Filter(before, name, cls) + [] == Filter(before, name, cls);
    if Listed(last.info, name, cls) {
      at := at + [n];
    }
  }

  // ----- the server's steps ----------------------------------------------------------------

  function Freed(c: Condata): Condata
    requires |c.user| == MAXUSERNAME
  {
    c.(user := c.user[0 := NUL], contime := 0, conpid := BADPID)
  }

  predicate UsersStored(table: seq<Condata>) {
    forall i :: 0 <= i < |table| ==> |table[i].user| == MAXUSERNAME
  }

  /** findDeadChildren: every entry whose child is among `dead` is freed. */
  function Reap(table: seq<Condata>, dead: set<int>): (r: seq<Condata>)
    requires UsersStored(table)
    ensures |r| == |table| && UsersStored(r)
    ensures forall i :: 0 <= i < |table| ==> r[i] == if table[i].conpid in dead then Freed(table[i]) else table[i]
  {
    seq(|table|, i requires 0 <= i < |table| => if table[i].conpid in dead then Freed(table[i]) else table[i])
  }

  function Collect(s: Server): Server
    requires UsersStored(s.table)
  {
    s.(table := Reap(s.table, s.zombies), zombies := {})
  }

  /** A new child `pid` serves the connection of entry `k`, for the user of the request. */
  function Connect(s: Server, k: nat, req: Request, now: int, pid: int): Server
    requires UsersStored(s.table) && k < |s.table|
  {
    if pid < 0 then s
    else
      var c := s.table[k];
      s.(table := s.table[k := c.(conpid := pid, contime := now, user := StrnCpy(c.user, req.user, MAXUSERNAME - 1))],
         running := s.running + {pid})
  }

  /** ProcessRequest at time `now`; `pid` is what fork returns if it is called. */
  function Process(s: Server, req: Request, now: int, pid: int): (r: (Server, Reply))
    requires UsersStored(s.table)
    ensures UsersStored(r.0.table) && |r.0.table| == |s.table|
  {
    if req.version != CURVERSION then (s, Message(RESP_ERR, UnknownVersion))
    else if req.code == REQ_VERBOSE_ON then (s.(verbose := true), Message(RESP_OK, VerboseOn))
    else if req.code == REQ_VERBOSE_OFF then (s.(verbose := false), Message(RESP_OK, VerboseOff))
    else if req.code == REQ_STATUS then
      var listed := Filter(s.table, req.conname, req.conclass);
      (s, Listing(|listed|, EncodeRecords(RecordsOf(listed, now))))
    else
      var k := Lookup(s.table, req.conname, req.conclass);
      if req.code == REQ_TOUCHCONNECTION then
        if k < |s.table| && s.table[k].conpid != BADPID && StrnEq(s.table[k].user, req.user, MAXUSERNAME) then
          (s.(table := s.table[k := s.table[k].(contime := now)]), NoReply)
        else (s, NoReply)
      else if req.code == REQ_MAKECONNECTION then
        if k == |s.table| then (s, Message(RESP_ERR, NotFound))
        else if s.table[k].conpid != BADPID then (s, Message(RESP_ERR, Running))
        else (Connect(s, k, req, now, pid), NoReply)
      else if req.code == REQ_BREAKCONNECTION then
        if k == |s.table| then (s, Message(RESP_ERR, NotFound))
        else if s.table[k].conpid == BADPID then (s, Message(RESP_ERR, NotRunning))
        else (s.(kills := s.kills + [s.table[k].conpid]), Message(RESP_OK, Broken))
      else (s, Message(RESP_ERR, InvalidCommand))
  }

  /** CleanUp: a kill for every entry in use. */
  function CleanUpKills(table: seq<Condata>): seq<int> {
    if table == [] then []
    else
      var last := table[|table| - 1];
      CleanUpKills(table[..|table| - 1]) + if last.conpid != BADPID then [last.conpid] else []
  }

  // ----- runs -------------------------------------------------------------------------------

  /** A child exits; a request arrives; waiting for one times out. */
  datatype Event = Exits(pid: int) | Serve(req: Request, now: int, pid: int) | Idle

  /** What the kernel may do: only running children exit, and fork returns no pid still in use. */
  predicate Possible(s: Server, e: Event) {
    match e
    case Exits(pid) => pid in s.running
    case Serve(req, _, pid) => WellFormed(req) && (pid < 0 || (pid > 0 && pid !in s.running))
    case Idle => true
  }

  function Step(s: Server, e: Event): (r: Server)
    requires UsersStored(s.table)
    ensures UsersStored(r.table) && |r.table| == |s.table|
  {
    hide Process;
    match e
    case Exits(pid) => s.(running := s.running - {pid}, zombies := s.zombies + {pid})
    case Serve(req, now, pid) => Process(Collect(s), req, now, pid).0
    case Idle => Collect(s)
  }

  /** The reply of the step, if it is a request. */
  function ReplyOf(s: Server, e: Event): Reply
    requires UsersStored(s.table)
  {
    match e
    case Serve(req, now, pid) => Process(Collect(s), req, now, pid).1
    case _ => NoReply
  }

  function After(s: Server, es: seq<Event>): (r: Server)
    requires UsersStored(s.table)
    ensures UsersStored(r.table) && |r.table| == |s.table|
  {
    if es == [] then s
    else
      Step(After(s, es[..|es| - 1]), es[|es| - 1])
  }

  /** Every step of the run is possible when it is taken. */
  predicate Run(s: Server, es: seq<Event>)
    requires UsersStored(s.table)
  {
    forall k :: 0 <= k < |es| ==> Possible(After(s, es[..k]), es[k])
  }

  // ----- what every run keeps ---------------------------------------------------------------

  /** The processes the table knows. */
  ghost function Pids(table: seq<Condata>): set<int> {
    set i | 0 <= i < |table| && table[i].conpid != BADPID :: table[i].conpid
  }

  ghost predicate Distinct(table: seq<Condata>) {
    forall i, j :: 0 <= i < j < |table| && table[i].conpid != BADPID ==> table[i].conpid != table[j].conpid
  }

  /** The entries in use and the server's children are in one-to-one correspondence; user names are terminated. */
  ghost predicate Inv(s: Server) {
    Consistent(s.table, s.running, s.zombies)
  }

  ghost predicate Consistent(table: seq<Condata>, running: set<int>, zombies: set<int>) {
    UsersStored(table)
    && (forall i :: 0 <= i < |table| ==> table[i].user[MAXUSERNAME - 1] == NUL)
    && (forall p :: p in running + zombies ==> p > 0)
    && running !! zombies
    && Distinct(table)
    && Pids(table) == running + zombies
  }

  /** A server that has just read its configuration. */
  function Started(table: seq<Condata>): Server {
    Server(table, {}, {}, [], false)
  }

  lemma StartInv(table: seq<Condata>)
    requires forall i :: 0 <= i < |table| ==> ConfigParser.Unused(table[i])
    ensures Inv(Started(table))
  {
  }

  lemma CollectInv(s: Server)
    requires Inv(s)
    ensures Inv(Collect(s))
  {
    var t := Collect(s).table;
    forall p | p in s.running ensures p in Pids(t) {
      var i :| 0 <= i < |s.table| && s.table[i].conpid == p;
      assert t[i].conpid == p;
    }
    forall p | p in Pids(t) ensures p in s.running {
      var i :| 0 <= i < |t| && t[i].conpid != BADPID && t[i].conpid == p;
      assert s.table[i].conpid == p && p in Pids(s.table);
    }
  }

  lemma StrnCpyKeepsEnd(dst: seq<byte>, src: seq<byte>)
    requires |dst| == MAXUSERNAME
    ensures StrnCpy(dst, src, MAXUSERNAME - 1)[MAXUSERNAME - 1] == dst[MAXUSERNAME - 1]
  {
    var r := StrnCpy(dst, src, MAXUSERNAME - 1);
    assert r[MAXUSERNAME - 1..][0] == dst[MAXUSERNAME - 1..][0];
  }

  lemma ConnectInv(s: Server, k: nat, req: Request, now: int, pid: int)
    requires Inv(s) && k < |s.table| && s.table[k].conpid == BADPID
    requires pid < 0 || (pid > 0 && pid !in s.running && pid !in s.zombies)
    ensures Inv(Connect(s, k, req, now, pid))
  {
    if pid > 0 {
      var t := Connect(s, k, req, now, pid).table;
      StrnCpyKeepsEnd(s.table[k].user, req.user);
      assert forall i :: 0 <= i < |t| && i != k ==> t[i] == s.table[i];
      assert forall i :: 0 <= i < |t| && i != k && t[i].conpid != BADPID ==> t[i].conpid in Pids(s.table);
      assert t[k].conpid == pid;
      forall p | p in Pids(s.table) ensures p in Pids(t) {
        var i :| 0 <= i < |s.table| && s.table[i].conpid != BADPID && s.table[i].conpid == p;
        assert t[i].conpid == p;
      }
      assert Pids(t) == Pids(s.table) + {pid};
    }
  }

  lemma TouchInv(s: Server, k: nat, now: int)
    requires Inv(s) && k < |s.table|
    ensures Inv(s.(table := s.table[k := s.table[k].(contime := now)]))
  {
    var t := s.table[k := s.table[k].(contime := now)];
    assert forall i :: 0 <= i < |t| ==> t[i].conpid == s.table[i].conpid && t[i].user == s.table[i].user;
    assert Pids(t) == Pids(s.table);
  }

  lemma ProcessInv(s: Server, req: Request, now: int, pid: int)
    requires Inv(s) && (pid < 0 || (pid > 0 && pid !in s.running && pid !in s.zombies))
    ensures UsersStored(s.table) && Inv(Process(s, req, now, pid).0)
  {
    assert UsersStored(s.table);
    hide Consistent, Matches, Listed, StrnEq, EncodeRecords, Connect;
    var k := Lookup(s.table, req.conname, req.conclass);
    if k < |s.table| {
      TouchInv(s, k, now);
      if s.table[k].conpid == BADPID {
        ConnectInv(s, k, req, now, pid);
      }
    }
  }

  /** The correspondence survives every step. */
  lemma StepInv(s: Server, e: Event)
    requires Inv(s) && Possible(s, e)
    ensures Inv(Step(s, e))
  {
    match e
    case Exits(pid) =>
      assert s.running - {pid} + (s.zombies + {pid}) == s.running + s.zombies;
    case Idle => CollectInv(s);
    case Serve(req, now, pid) =>
      assert UsersStored(s.table);
      hide Consistent, Process;
      CollectInv(s);
      ProcessInv(Collect(s), req, now, pid);
  }

  /** And so every run. */
  lemma {:induction false} RunInv(s: Server, es: seq<Event>)
    requires Inv(s) && Run(s, es)
    ensures Inv(After(s, es))
    decreases |es|
  {
    hide Step;
    if es != [] {
      var before := es[..|es| - 1];
      RunPrefix(s, es, |es| - 1);
      RunInv(s, before);
      StepInv(After(s, before), es[|es| - 1]);
    }
  }

  lemma RunPrefix(s: Server, es: seq<Event>, n: nat)
    requires UsersStored(s.table) && Run(s, es) && n <= |es|
    ensures Run(s, es[..n])
  {
    hide Step, Possible, After;
    forall k | 0 <= k < n ensures Possible(After(s, es[..n][..k]), es[..n][k]) {
      assert es[..n][..k] == es[..k];
    }
  }

  // ----- children and signals -----------------------------------------------------------------

  /** A reaped child frees its entry, the only one there is, and changes no other. */
  lemma ReapFreesOne(s: Server, pid: int)
    requires Inv(s) && pid in s.zombies
    ensures exists k :: 0 <= k < |s.table| && s.table[k].conpid == pid
                        && Reap(s.table, {pid}) == s.table[k := Freed(s.table[k])]
  {
    assert pid in Pids(s.table);
    var k :| 0 <= k < |s.table| && s.table[k].conpid == pid;
    assert forall i :: 0 <= i < |s.table| && i != k ==> s.table[i].conpid != pid;
  }

  /** A freed entry has no process, no user and no time, and keeps what the file says. */
  lemma FreedIs(c: Condata)
    requires |c.user| == MAXUSERNAME
    ensures Freed(c).conpid == -1 && Freed(c).contime == 0 && CStr(Freed(c).user) == [] && Freed(c).info == c.info
  {
  }

  /** Before every request and after every timeout the dead are collected: exactly their entries are freed. */
  lemma CollectIs(s: Server)
    requires UsersStored(s.table)
    ensures var c := Collect(s);
            c.zombies == {} && c.running == s.running && c.kills == s.kills && c.verbose == s.verbose
            && |c.table| == |s.table|
            && forall k :: 0 <= k < |s.table| ==>
                 c.table[k] == if s.table[k].conpid in s.zombies then Freed(s.table[k]) else s.table[k]
  {
  }

  /** Reaping one child after the other is reaping them all. */
  lemma ReapMore(table: seq<Condata>, first: set<int>, next: set<int>)
    requires UsersStored(table) && BADPID !in next
    ensures Reap(Reap(table, first), next) == Reap(table, first + next)
  {
  }

  lemma ProcessKills(s: Server, req: Request, now: int, pid: int)
    requires Inv(s) && s.zombies == {}
    ensures UsersStored(s.table)
    ensures var kills := Process(s, req, now, pid).0.kills;
            kills == s.kills || exists p :: p in s.running && kills == s.kills + [p]
  {
    assert UsersStored(s.table);
    hide Matches, Listed, StrnEq, EncodeRecords, Filter, Distinct;
    var k := Lookup(s.table, req.conname, req.conclass);
    if k < |s.table| && s.table[k].conpid != BADPID {
      assert s.table[k].conpid in Pids(s.table);
    }
  }

  /** Requests kill nobody but the server's own running children. */
  lemma KillsOwnChildren(s: Server, e: Event)
    requires Inv(s) && Possible(s, e)
    ensures Step(s, e).kills == s.kills
            || exists p :: p in s.running && Step(s, e).kills == s.kills + [p]
  {
    hide Process;
    CollectInv(s);
    if e.Serve? {
      ProcessKills(Collect(s), e.req, e.now, e.pid);
    }
  }

  lemma {:induction false} CleanUpIsPids(table: seq<Condata>)
    requires Distinct(table)
    ensures forall p :: p in CleanUpKills(table) <==> p in Pids(table)
    ensures forall i, j :: 0 <= i < j < |CleanUpKills(table)| ==> CleanUpKills(table)[i] != CleanUpKills(table)[j]
  {
    if table != [] {
      var before, last := table[..|table| - 1], table[|table| - 1];
      CleanUpIsPids(before);
      forall p ensures p in Pids(table) <==> p in Pids(before) || (p == last.conpid && p != BADPID) {
        if p in Pids(table) {
          var i :| 0 <= i < |table| && table[i].conpid != BADPID && table[i].conpid == p;
          if i < |before| {
            assert before[i].conpid == p;
          }
        }
        if p in Pids(before) {
          var i :| 0 <= i < |before| && before[i].conpid != BADPID && before[i].conpid == p;
          assert table[i].conpid == p;
        }
        if p == last.conpid && p != BADPID {
          assert table[|table| - 1].conpid == p;
        }
      }
      assert forall i :: 0 <= i < |before| && before[i].conpid != BADPID ==>
                before[i].conpid == table[i].conpid != table[|table| - 1].conpid;
      assert last.conpid == BADPID || last.conpid !in Pids(before);
    }
  }

  /** Shutting down kills every child of the server, each once, and no other process. */
  lemma CleanUpKillsChildren(s: Server)
    requires Inv(s)
    ensures forall p :: p in CleanUpKills(s.table) <==> p in s.running || p in s.zombies
    ensures forall i, j :: 0 <= i < j < |CleanUpKills(s.table)| ==>
              CleanUpKills(s.table)[i] != CleanUpKills(s.table)[j]
  {
    CleanUpIsPids(s.table);
  }

  // ----- requests that change no entry ---------------------------------------------------------------

  /** No entry has the name and the class of the request. */
  predicate Unknown(table: seq<Condata>, req: Request) {
    forall i :: 0 <= i < |table| ==>
      table[i].info.conname != CStr(req.conname)
      || (CStr(req.conclass) != [] && table[i].info.conclass != CStr(req.conclass))
  }

  lemma UnknownIff(table: seq<Condata>, req: Request)
    requires WellFormed(req) && forall i :: 0 <= i < |table| ==> WithinLimits(table[i].info)
    ensures Lookup(table, req.conname, req.conclass) == |table| <==> Unknown(table, req)
  {
    hide Matches, WithinLimits;
    forall i | 0 <= i < |table|
      ensures Matches(table[i].info, req.conname, req.conclass) <==>
                table[i].info.conname == CStr(req.conname)
                && (CStr(req.conclass) == [] || table[i].info.conclass == CStr(req.conclass))
    {
      TestsAreEqualities(table[i].info, req.conname, req.conclass);
    }
  }

  /** What requests are answered that find nothing to act on, or act on no entry. */
  lemma OtherRequests(s: Server, req: Request, now: int, pid: int)
    requires UsersStored(s.table) && WellFormed(req) && forall i :: 0 <= i < |s.table| ==> WithinLimits(s.table[i].info)
    ensures var e := Event.Serve(req, now, pid);
            var c := Collect(s);
            var k := Lookup(c.table, req.conname, req.conclass);
            if req.version != 67 then Step(s, e) == c && ReplyOf(s, e) == Message(2, UnknownVersion)
            else if req.code == 13 then Step(s, e) == c.(verbose := true) && ReplyOf(s, e) == Message(1, VerboseOn)
            else if req.code == 14 then Step(s, e) == c.(verbose := false) && ReplyOf(s, e) == Message(1, VerboseOff)
            else if req.code == 9 || req.code == 10 then
              Unknown(s.table, req) ==> Step(s, e) == c && ReplyOf(s, e) == Message(2, NotFound)
            else if req.code == 8 then
              ReplyOf(s, e) == NoReply && (Unknown(s.table, req) ==> Step(s, e) == c)
            else if req.code == 4 then Step(s, e) == c
            else Step(s, e) == c && ReplyOf(s, e) == Message(2, InvalidCommand)
  {
    var c := Collect(s);
    assert forall i :: 0 <= i < |s.table| ==> c.table[i].info == s.table[i].info;
    UnknownIff(c.table, req);
    assert Unknown(c.table, req) == Unknown(s.table, req);
    hide Collect, Filter, EncodeRecords, StrnEq, WithinLimits;
  }

  /** A make for which fork fails changes no entry, and nothing is answered, as when it succeeds. */
  lemma MakeAnswersNothing(s: Server, e: Event, k: nat)
    requires UsersStored(s.table) && k < |s.table| && Targets(s, e, REQ_MAKECONNECTION, k)
    requires Collect(s).table[k].conpid == BADPID
    ensures ReplyOf(s, e) == NoReply && (e.pid < 0 ==> Step(s, e) == Collect(s))
  {
    assert |Collect(s).table| == |s.table|;
    hide Collect, Filter, EncodeRecords, StrnEq;
  }

  /**
    What else a step leaves as it is: an exit only moves a child from the running to the dead, a
    timeout only collects, a touch only writes the table, and only a break signals.
   */
  lemma NothingElse(s: Server, e: Event)
    requires UsersStored(s.table)
    ensures e.Exits? ==> Step(s, e) == Server(s.table, s.running - {e.pid}, s.zombies + {e.pid}, s.kills, s.verbose)
    ensures e.Idle? ==> Step(s, e) == Collect(s)
    ensures e.Serve? && e.req.code == 8 ==> Step(s, e) == Collect(s).(table := Step(s, e).table)
    ensures e.Serve? && e.req.code == 9 ==>
              (Step(s, e).running == s.running || (e.pid >= 0 && Step(s, e).running == s.running + {e.pid}))
              && Step(s, e) == Collect(s).(table := Step(s, e).table, running := Step(s, e).running)
    ensures e.Serve? && e.req.code == 10 ==> Step(s, e) == Collect(s).(kills := Step(s, e).kills)
    ensures !(e.Serve? && e.req.code == 10) ==> Step(s, e).kills == s.kills
    ensures !(e.Serve? && e.req.code in {13, 14}) ==> Step(s, e).verbose == s.verbose
  {
    hide Reap, Filter, EncodeRecords, Matches, StrnEq;
  }

  /** A free connection can be neither broken nor touched. */
  lemma FreeIsLeftAlone(s: Server, e: Event, k: nat)
    requires UsersStored(s.table) && k < |s.table| && Collect(s).table[k].conpid == BADPID
    ensures Targets(s, e, REQ_BREAKCONNECTION, k) ==>
              Step(s, e) == Collect(s) && ReplyOf(s, e) == Message(2, NotRunning)
    ensures Targets(s, e, REQ_TOUCHCONNECTION, k) ==> Step(s, e) == Collect(s) && ReplyOf(s, e) == NoReply
  {
    hide Collect, Filter, EncodeRecords, StrnEq;
  }

  // ----- mutual exclusion -----------------------------------------------------------------------

  predicate Holds(s: Server, k: nat, pid: int) {
    k < |s.table| && s.table[k].conpid == pid && pid != BADPID
  }

  /** The step begins by reaping the child. */
  predicate Reaps(s: Server, e: Event, pid: int) {
    pid in s.zombies && !e.Exits?
  }

  /** No step of the run reaps the child. */
  predicate Unreaped(s: Server, es: seq<Event>, pid: int)
    requires UsersStored(s.table)
  {
    forall j :: 0 <= j < |es| ==> !Reaps(After(s, es[..j]), es[j], pid)
  }

  /** The request is of the given kind and acts on entry `k`. */
  predicate Targets(s: Server, e: Event, code: int, k: nat)
    requires UsersStored(s.table)
  {
    e.Serve? && e.req.version == CURVERSION && e.req.code == code
    && Lookup(Collect(s).table, e.req.conname, e.req.conclass) == k
  }

  /** A connection is touched by its own user. */
  predicate Touches(s: Server, e: Event, k: nat)
    requires UsersStored(s.table) && k < |s.table|
  {
    Targets(s, e, REQ_TOUCHCONNECTION, k) && StrnEq(s.table[k].user, e.req.user, MAXUSERNAME)
  }

  /** The step refuses to make connection `k`, and its time changes exactly if its user touches it. */
  predicate Excludes(s: Server, e: Event, k: nat) {
    hide Process, Step;
    UsersStored(s.table) && k < |s.table|
    && (Targets(s, e, REQ_MAKECONNECTION, k) ==> ReplyOf(s, e) == Message(RESP_ERR, Running))
    && Step(s, e).table[k].contime == if Touches(s, e, k) then e.now else s.table[k].contime
  }

  /**
    A step that does not reap the child of entry `k` leaves the entry to it and to its user; it
    refuses to make the connection again; and the time changes exactly if the user touches it.
   */
  lemma StepHeld(s: Server, e: Event, k: nat, pid: int)
    requires Inv(s) && Possible(s, e) && Holds(s, k, pid) && !Reaps(s, e, pid)
    ensures Holds(Step(s, e), k, pid)
    ensures Step(s, e).table[k].user == s.table[k].user && Step(s, e).table[k].info == s.table[k].info
    ensures Excludes(s, e, k)
  {
    hide Matches, Listed, StrnEq, EncodeRecords, Pids, Distinct;
    assert !e.Exits? ==> Collect(s).table[k] == s.table[k];
  }

  /** As long as no step reaps the child that holds an entry, the entry stays its own and its user's. */
  lemma {:induction false} RunHeld(s: Server, es: seq<Event>, k: nat, pid: int)
    requires Inv(s) && Run(s, es) && Holds(s, k, pid)
    requires Unreaped(s, es, pid)
    ensures Holds(After(s, es), k, pid) && After(s, es).table[k].user == s.table[k].user
    decreases |es|
  {
    hide Step, Reaps, Possible, Consistent;
    assert UsersStored(s.table) by { StoredOf(s); }
    if es != [] {
      var n := |es| - 1;
      var before := es[..n];
      RunPrefix(s, es, n);
      assert forall j :: 0 <= j < n ==> before[..j] == es[..j] && before[j] == es[j];
      RunHeld(s, before, k, pid);
      RunInv(s, before);
      assert !Reaps(After(s, es[..n]), es[n], pid);
      assert Possible(After(s, es[..n]), es[n]);
      StepHeld(After(s, before), es[n], k, pid);
    }
  }

  lemma StoredOf(s: Server)
    requires Inv(s)
    ensures UsersStored(s.table)
  {
  }

  /** In such a run every attempt to make the connection is refused, and only its user's touches move its time. */
  lemma {:induction false} RunExcludes(s: Server, es: seq<Event>, k: nat, pid: int, j: nat)
    requires Inv(s) && Run(s, es) && Holds(s, k, pid) && j < |es|
    requires Unreaped(s, es, pid)
    ensures UsersStored(s.table) && Excludes(After(s, es[..j]), es[j], k)
  {
    StoredOf(s);
    hide Reaps, Possible, Consistent, Excludes, Step;
    var before := es[..j];
    RunPrefix(s, es, j);
    assert forall i :: 0 <= i < j ==> before[..i] == es[..i] && before[i] == es[i];
    RunHeld(s, before, k, pid);
    RunInv(s, before);
    assert !Reaps(After(s, es[..j]), es[j], pid);
    assert Possible(After(s, es[..j]), es[j]);
    StepHeld(After(s, before), es[j], k, pid);
  }

  /**
    A make on entry `k` gives it to the new child exactly if nobody holds it once the dead are
    collected; no other entry is concerned.
   */
  lemma MakeHoldsIff(s: Server, e: Event, k: nat)
    requires Inv(s) && Possible(s, e) && k < |s.table| && Targets(s, e, REQ_MAKECONNECTION, k) && e.pid > 0
    ensures var c := Collect(s).table[k];
            var s' := Step(s, e);
            (c.conpid == BADPID <==> s.table[k].conpid == BADPID || s.table[k].conpid in s.zombies)
            && (Holds(s', k, e.pid) <==> c.conpid == BADPID)
            && (Holds(s', k, e.pid) ==>
                  e.pid in s'.running && s'.table[k].contime == e.now
                  && s'.table[k].user == StrnCpy(c.user, e.req.user, MAXUSERNAME - 1)
                  && CStr(s'.table[k].user) == Prefix(CStr(e.req.user), MAXUSERNAME - 1))
            && forall j :: 0 <= j < |s.table| && j != k ==> s'.table[j] == Collect(s).table[j]
  {
    hide Matches, Listed, StrnEq, EncodeRecords, Filter;
    CollectInv(s);
    var c := Collect(s).table[k];
    if s.table[k].conpid != BADPID {
      assert s.table[k].conpid in Pids(s.table);
    }
    if c.conpid == BADPID {
      UserKept(c.user, e.req.user);
    } else {
      assert c.conpid in Pids(Collect(s).table);
    }
  }

  /**
    From a successful make until its child is reaped: in every run the connection belongs to the
    requester, every other make is refused, and only its user's touches move its time.
   */
  lemma {:induction false} RunFromMake(s: Server, e: Event, es: seq<Event>, k: nat)
    requires Inv(s) && Possible(s, e) && k < |s.table| && Targets(s, e, REQ_MAKECONNECTION, k) && e.pid > 0
    requires Collect(s).table[k].conpid == BADPID
    requires var s' := Step(s, e);
             Run(s', es) && Unreaped(s', es, e.pid)
    ensures var s' := Step(s, e);
            Holds(After(s', es), k, e.pid)
            && CStr(After(s', es).table[k].user) == Prefix(CStr(e.req.user), MAXUSERNAME - 1)
            && forall j :: 0 <= j < |es| ==> Excludes(After(s', es[..j]), es[j], k)
  {
    StoredOf(s);
    assert e.Serve?;
    hide Run, After, Unreaped, Reaps, Possible, Consistent, Excludes, Targets, StrnCpy, CStr, Prefix, Process, Step, Collect;
    MakeHoldsIff(s, e, k);
    StepInv(s, e);
    var s' := Step(s, e);
    RunHeld(s', es, k, e.pid);
    forall j | 0 <= j < |es| ensures Excludes(After(s', es[..j]), es[j], k) {
      RunExcludes(s', es, k, e.pid, j);
    }
  }

  /** Breaking a connection kills its child, once, and tells so; the entry stays the child's until it is reaped. */
  lemma BreakKeepsHolder(s: Server, e: Event, k: nat, pid: int)
    requires Inv(s) && Possible(s, e) && Holds(s, k, pid) && pid in s.running
    requires Targets(s, e, REQ_BREAKCONNECTION, k)
    ensures Step(s, e).kills == s.kills + [pid] && ReplyOf(s, e) == Message(RESP_OK, Broken)
    ensures Holds(Step(s, e), k, pid) && pid in Step(s, e).running
    ensures Step(s, e).table == Collect(s).table
  {
    hide Matches, Listed, StrnEq, EncodeRecords, Filter;
    assert Collect(s).table[k] == s.table[k];
  }

  /**
    Breaking a connection and then making it: the make succeeds exactly if the child that was
    killed has exited in between, and is refused otherwise.
   */
  lemma {:induction false} BreakThenMakeIff(s: Server, b: Event, m: Event, k: nat, pid: int, exits: bool)
    requires Inv(s) && Possible(s, b) && Holds(s, k, pid) && pid in s.running
    requires Targets(s, b, REQ_BREAKCONNECTION, k)
    requires var broken := Step(s, b);
             var s' := if exits then Step(broken, Exits(pid)) else broken;
             Possible(s', m) && Targets(s', m, REQ_MAKECONNECTION, k) && m.pid > 0
    ensures var broken := Step(s, b);
            var s' := if exits then Step(broken, Exits(pid)) else broken;
            (Holds(Step(s', m), k, m.pid) <==> exits)
            && (!exits ==> Holds(Step(s', m), k, pid) && ReplyOf(s', m) == Message(RESP_ERR, Running))
  {
    BreakKeepsHolder(s, b, k, pid);
    StepInv(s, b);
    var broken := Step(s, b);
    hide Consistent;
    if exits {
      StepInv(broken, Exits(pid));
      MakeHoldsIff(Step(broken, Exits(pid)), m, k);
    } else {
      NotYetReaped(broken, pid);
      MakeHoldsIff(broken, m, k);
      StepHeld(broken, m, k, pid);
    }
  }

  lemma NotYetReaped(s: Server, pid: int)
    requires Inv(s) && pid in s.running
    ensures pid !in s.zombies
  {
  }

  /** The name the server keeps is the requester's, cut to 15 bytes. */
  lemma UserKept(dst: seq<byte>, user: seq<byte>)
    requires |dst| == MAXUSERNAME && dst[MAXUSERNAME - 1] == NUL
    ensures CStr(StrnCpy(dst, user, MAXUSERNAME - 1)) == Prefix(CStr(user), MAXUSERNAME - 1)
  {
    var copied := Prefix(CStr(user), MAXUSERNAME - 1);
    var r := StrnCpy(dst, user, MAXUSERNAME - 1);
    if |copied| < MAXUSERNAME - 1 {
      assert r == copied + [NUL] + r[|copied| + 1..];
    } else {
      assert r == copied + [NUL] + [];
    }
    CStrTerminated(copied, r[|copied| + 1..]);
  }

  /** initRequest: the strings are cut to 15 bytes and terminated; `junk` is what the fields held before. */
  function InitRequest(code: byte, user: seq<byte>, conname: seq<byte>, conclass: seq<byte>, junk: Request): Request
    requires WellFormed(junk)
  {
    Request(CURVERSION, code,
            StrnCpy(junk.user, user, MAXUSERNAME)[MAXUSERNAME - 1 := NUL],
            StrnCpy(junk.conname, conname, MAXCONNECTIONNAME - 1)[MAXCONNECTIONNAME - 1 := NUL],
            StrnCpy(junk.conclass, conclass, MAXCLASSNAME - 1)[MAXCLASSNAME - 1 := NUL])
  }

  lemma CopiedAndEnded(dst: seq<byte>, s: seq<byte>, n: nat)
    requires NUL !in s && |dst| == 16 && 15 <= n <= 16
    ensures CStr(StrnCpy(dst, s, n)[15 := NUL]) == Prefix(s, 15)
  {
    CStrWhole(s);
    var r := StrnCpy(dst, s, n)[15 := NUL];
    var kept := Prefix(s, 15);
    assert r[..|kept| + 1] == kept + [NUL];
    assert r == r[..|kept| + 1] + r[|kept| + 1..];
    CStrTerminated(kept, r[|kept| + 1..]);
  }

  /** The server sees the strings the client was given, cut to 15 bytes. */
  lemma RequestArrives(code: byte, user: seq<byte>, conname: seq<byte>, conclass: seq<byte>, junk: Request)
    requires WellFormed(junk) && NUL !in user && NUL !in conname && NUL !in conclass
    ensures var req := InitRequest(code, user, conname, conclass, junk);
            WellFormed(req) && req.version == Ascii('C') && req.code == code && CStr(req.user) == Prefix(user, 15)
            && CStr(req.conname) == Prefix(conname, 15) && CStr(req.conclass) == Prefix(conclass, 15)
  {
    CopiedAndEnded(junk.user, user, MAXUSERNAME);
    CopiedAndEnded(junk.conname, conname, MAXCONNECTIONNAME - 1);
    CopiedAndEnded(junk.conclass, conclass, MAXCLASSNAME - 1);
  }

  /**
    A touch is accepted exactly if the toucher's name is the maker's, cut to 15 bytes. The fields
    of a request need not hold a terminator.
   */
  lemma TouchIffSameUser(stored: seq<byte>, maker: Request, toucher: Request)
    requires WellFormed(maker) && WellFormed(toucher) && |stored| == MAXUSERNAME && stored[MAXUSERNAME - 1] == NUL
    ensures StrnEq(StrnCpy(stored, maker.user, MAXUSERNAME - 1), toucher.user, MAXUSERNAME)
            <==> CStr(toucher.user) == Prefix(CStr(maker.user), MAXUSERNAME - 1)
  {
    UserKept(stored, maker.user);
  }

  // ----- the names of the table never change -----------------------------------------------------

  lemma {:induction false} RunKeepsInfos(s: Server, es: seq<Event>)
    requires UsersStored(s.table)
    ensures ConfigParser.Infos(After(s, es).table) == ConfigParser.Infos(s.table)
    decreases |es|
  {
    if es != [] {
      var before := es[..|es| - 1];
      RunKeepsInfos(s, before);
      StepKeepsInfos(After(s, before), es[|es| - 1]);
    }
  }

  lemma StepKeepsInfos(s: Server, e: Event)
    requires UsersStored(s.table)
    ensures ConfigParser.Infos(Step(s, e).table) == ConfigParser.Infos(s.table)
  {
    hide Matches, Listed, StrnEq, EncodeRecords;
  }

  /** Entry `j` has the same name and class as an earlier one. */
  predicate Shadowed(table: seq<Condata>, j: nat) {
    j < |table| && exists i :: 0 <= i < j && table[i].info.conname == table[j].info.conname
                                          && table[i].info.conclass == table[j].info.conclass
  }

  /** No request acts on a shadowed entry. */
  lemma ShadowedNotFound(table: seq<Condata>, j: nat, name: seq<byte>, cls: seq<byte>)
    requires Shadowed(table, j)
    ensures Lookup(table, name, cls) != j
  {
    var i :| 0 <= i < j && table[i].info.conname == table[j].info.conname
                        && table[i].info.conclass == table[j].info.conclass;
    assert Matches(table[i].info, name, cls) == Matches(table[j].info, name, cls);
  }

  /** So it stays free in every run. */
  lemma {:induction false} RunShadowedFree(s: Server, es: seq<Event>, j: nat)
    requires UsersStored(s.table) && Shadowed(s.table, j) && s.table[j].conpid == BADPID
    ensures After(s, es).table[j].conpid == BADPID
    decreases |es|
  {
    if es != [] {
      var before := es[..|es| - 1];
      var last := After(s, before);
      RunShadowedFree(s, before, j);
      RunKeepsInfos(s, before);
      StepShadowedFree(s, last, es[|es| - 1], j);
    }
  }

  lemma ProcessOther(s: Server, req: Request, now: int, pid: int, j: nat)
    requires UsersStored(s.table) && j < |s.table| && Lookup(s.table, req.conname, req.conclass) != j
    ensures |Process(s, req, now, pid).0.table| == |s.table|
    ensures Process(s, req, now, pid).0.table[j] == s.table[j]
  {
    hide StrnEq, EncodeRecords, Filter;
  }

  lemma StepShadowedFree(start: Server, s: Server, e: Event, j: nat)
    requires UsersStored(s.table) && Shadowed(start.table, j) && |s.table| == |start.table|
    requires ConfigParser.Infos(s.table) == ConfigParser.Infos(start.table)
    requires s.table[j].conpid == BADPID
    ensures Step(s, e).table[j].conpid == BADPID
  {
    hide StrnEq, Process;
    var t := Collect(s).table;
    var i :| 0 <= i < j && start.table[i].info.conname == start.table[j].info.conname
                        && start.table[i].info.conclass == start.table[j].info.conclass;
    assert forall x :: 0 <= x < |t| ==> t[x].info == ConfigParser.Infos(s.table)[x] == ConfigParser.Infos(start.table)[x];
    assert t[i].info == start.table[i].info && t[j].info == start.table[j].info;
    assert Shadowed(t, j);
    if e.Serve? {
      ShadowedNotFound(t, j, e.req.conname, e.req.conclass);
      ProcessOther(Collect(s), e.req, e.now, e.pid, j);
    }
  }
}
