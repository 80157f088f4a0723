/** The power daemon: src/xinu-powerd.c with lib/xinu-power.c and lib/rpc.c. */
module PowerControl {
  import opened Bytes
  import opened Elapsed

  const NUM_OUTLETS := 48

  // ----- commands -------------------------------------------------------------------------

  datatype Command = AllOff | Down(n: nat) | Up(n: nat) | Reboot(n: nat)

  function TwoDigits(a: byte, b: byte): nat
    requires IsDigit(a) && IsDigit(b)
  {
    10 * (a - 48) + (b - 48)
  }

  /** The commands `off`, `uNN`, `dNN` and `rNN`, for outlets 01 to 48. */
  function Parse(cmd: seq<byte>): Option<Command> {
    if cmd == [Ascii('o'), Ascii('f'), Ascii('f')] then Some(AllOff)
    else if |cmd| != 3 || !IsDigit(cmd[1]) || !IsDigit(cmd[2]) then None
    else
      var n := TwoDigits(cmd[1], cmd[2]);
      if n < 1 || n > NUM_OUTLETS then None
      else if cmd[0] == Ascii('u') then Some(Up(n))
      else if cmd[0] == Ascii('d') then Some(Down(n))
      else if cmd[0] == Ascii('r') then Some(Reboot(n))
      else None
  }

  /** Which text is which command: two digits for 1 to 48 behind `u`, `d` or `r`, and `off`. */
  lemma ParseIff(cmd: seq<byte>, n: nat)
    ensures Parse(cmd) == Some(AllOff) <==> cmd == [111, 102, 102]
    ensures Parse(cmd) == Some(Up(n)) <==> 1 <= n <= 48 && cmd == [117, 48 + n / 10, 48 + n % 10]
    ensures Parse(cmd) == Some(Down(n)) <==> 1 <= n <= 48 && cmd == [100, 48 + n / 10, 48 + n % 10]
    ensures Parse(cmd) == Some(Reboot(n)) <==> 1 <= n <= 48 && cmd == [114, 48 + n / 10, 48 + n % 10]
  {
    if |cmd| == 3 {
      assert cmd == [cmd[0], cmd[1], cmd[2]];
    }
  }

  lemma AtoiTwoDigits(a: byte, b: byte)
    requires IsDigit(a) && IsDigit(b)
    ensures Atoi([a, b]) == TwoDigits(a, b)
  {
    var s := [a, b];
    assert s[1..] == [b] && s[1..][1..] == [];
    assert ScanDigits(s, 0) == ScanDigits([b], a - 48) == ScanDigits([], TwoDigits(a, b));
  }

  /** valid_command, on a C string. */
  method ValidCommand(cmd: seq<byte>) returns (ok: bool)
    requires NUL !in cmd
    ensures ok <==> Parse(cmd).Some?
  {
    if |cmd| != 3 {
      return false;
    }
    if cmd == [Ascii('o'), Ascii('f'), Ascii('f')] {
      return true;
    }
    var c := cmd[0];
    if c == Ascii('u') || c == Ascii('d') || c == Ascii('r') {
      if IsDigit(cmd[1]) && IsDigit(cmd[2]) {
        AtoiTwoDigits(cmd[1], cmd[2]);
        assert cmd[1..] == [cmd[1], cmd[2]];
        var num := Atoi(cmd[1..]);
        if 1 <= num && num <= NUM_OUTLETS {
          return true;
        }
      }
    }
    return false;
  }

  lemma ParsedInRange(cmd: seq<byte>)
    requires Parse(cmd).Some?
    ensures Parse(cmd).value != AllOff ==> 1 <= Parse(cmd).value.n <= NUM_OUTLETS
  {
  }

  /** The outlet a command names is one of the array's, whose indices end at 47. */
  predicate InArray(c: Command) {
    c == AllOff || c.n < NUM_OUTLETS
  }

  /** A valid command stays within the array unless it names outlet 48. */
  lemma InArrayIff(cmd: seq<byte>)
    requires Parse(cmd).Some?
    ensures InArray(Parse(cmd).value) <==> |cmd| == 3 && cmd[1..] != [Ascii('4'), Ascii('8')]
  {
    assert cmd[1..] == [cmd[1], cmd[2]];
  }

  /** And there is such a command. */
  lemma OutsideArray()
    ensures var u48 := [Ascii('u'), Ascii('4'), Ascii('8')];
            Parse(u48) == Some(Up(48)) && !InArray(Parse(u48).value)
  {
    assert Ascii('u') != Ascii('o');
  }

  // ----- the device -----------------------------------------------------------------------

  datatype Order = OffAll | OffOne(n: nat) | OnOne(n: nat)

  /** Whether outlet `n` is on after the orders. */
  function Lit(log: seq<Order>, n: nat): bool {
    if log == [] then false
    else
      var before := log[..|log| - 1];
      match log[|log| - 1]
      case OffAll => false
      case OffOne(m) => m != n && Lit(before, n)
      case OnOne(m) => m == n || Lit(before, n)
  }

  lemma LitOne(log: seq<Order>, o: Order, n: nat)
    ensures Lit(log + [o], n) ==
            match o case OffAll => false case OffOne(m) => m != n && Lit(log, n) case OnOne(m) => m == n || Lit(log, n)
  {
    assert (log + [o])[..|log|] == log;
  }

  /** What the daemon sends for a command, if it takes the outlet to be `on`: nothing to switch it on again. */
  function Orders(on: bool, c: Command): seq<Order> {
    match c
    case AllOff => [OffAll]
    case Down(n) => [OffOne(n)]
    case Up(n) => if on then [] else [OnOne(n)]
    case Reboot(n) => if on then [OffOne(n), OnOne(n)] else [OnOne(n)]
  }

  /**
    The cell of outlet `n` after a command. That of outlet 48 is the byte behind the array: commands
    for that outlet find it there, and switching everything off does not reset it.
   */
  function Cell(on: bool, c: Command, n: nat): bool {
    match c
    case AllOff => n == NUM_OUTLETS && on
    case Down(m) => m != n && on
    case Up(m) => m == n || on
    case Reboot(m) => m == n || on
  }

  /** The cells of a run that begins with `behind` in the byte behind the array, and everything off. */
  function Known(behind: bool, cmds: seq<Command>, n: nat): bool {
    if cmds == [] then n == NUM_OUTLETS && behind
    else Cell(Known(behind, cmds[..|cmds| - 1], n), cmds[|cmds| - 1], n)
  }

  /** The orders of that run. */
  function Sent(behind: bool, cmds: seq<Command>): seq<Order> {
    if cmds == [] then [OffAll]
    else
      var before, c := cmds[..|cmds| - 1], cmds[|cmds| - 1];
      Sent(behind, before) + Orders(c != AllOff && Known(behind, before, c.n), c)
  }

  /** The orders if nothing were ever skipped. */
  function SentAlways(cmds: seq<Command>): seq<Order> {
    if cmds == [] then [OffAll]
    else
      SentAlways(cmds[..|cmds| - 1])
      + match cmds[|cmds| - 1]
        case AllOff => [OffAll]
        case Down(n) => [OffOne(n)]
        case Up(n) => [OnOne(n)]
        case Reboot(n) => [OffOne(n), OnOne(n)]
  }

  /** What the commands ask for: the last one that concerns an outlet decides. */
  function Wanted(cmds: seq<Command>, n: nat): bool {
    if cmds == [] then false
    else
      var before := Wanted(cmds[..|cmds| - 1], n);
      match cmds[|cmds| - 1]
      case AllOff => false
      case Down(m) => m != n && before
      case Up(m) => m == n || before
      case Reboot(m) => m == n || before
  }

  lemma {:induction false} AlwaysAsWanted(cmds: seq<Command>, n: nat)
    ensures Lit(SentAlways(cmds), n) == Wanted(cmds, n)
    decreases |cmds|
  {
    if cmds == [] {
      assert Lit([OffAll], n) == false;
    } else {
      var before, c := cmds[..|cmds| - 1], cmds[|cmds| - 1];
      AlwaysAsWanted(before, n);
      var always := SentAlways(before);
      match c
      case AllOff => LitOne(always, OffAll, n);
      case Down(m) => LitOne(always, OffOne(m), n);
      case Up(m) => LitOne(always, OnOne(m), n);
      case Reboot(m) => LitOffOn(always, m, n);
    }
  }

  lemma LitOffOn(log: seq<Order>, m: nat, n: nat)
    ensures Lit(log + [OffOne(m), OnOne(m)], n) == (m == n || Lit(log, n))
  {
    LitOne(log, OffOne(m), n);
    LitOne(log + [OffOne(m)], OnOne(m), n);
    assert log + [OffOne(m), OnOne(m)] == log + [OffOne(m)] + [OnOne(m)];
  }

  /** What the orders for one command do to an outlet. */
  lemma LitOrders(log: seq<Order>, on: bool, c: Command, n: nat)
    ensures Lit(log + Orders(on, c), n) ==
            match c
            case AllOff => false
            case Down(m) => m != n && Lit(log, n)
            case Up(m) => (m == n && !on) || Lit(log, n)
            case Reboot(m) => m == n || Lit(log, n)
  {
    match c
    case AllOff => LitOne(log, OffAll, n);
    case Down(m) => LitOne(log, OffOne(m), n);
    case Up(m) => LitOne(log, OnOne(m), n); assert log + [] == log;
    case Reboot(m) => LitOne(log, OnOne(m), n); LitOffOn(log, m, n);
  }

  /** An outlet of the array: skipping changes nothing, it is as the commands want it, and as the daemon knows it. */
  lemma {:induction false} SkippingHarmless(behind: bool, cmds: seq<Command>, n: nat)
    requires n < NUM_OUTLETS
    ensures Lit(Sent(behind, cmds), n) == Wanted(cmds, n) == Lit(SentAlways(cmds), n)
    ensures Known(behind, cmds, n) == Wanted(cmds, n)
    decreases |cmds|
  {
    AlwaysAsWanted(cmds, n);
    if cmds == [] {
      assert Lit([OffAll], n) == false;
    } else {
      var before, c := cmds[..|cmds| - 1], cmds[|cmds| - 1];
      SkippingHarmless(behind, before, n);
      LitOrders(Sent(behind, before), c != AllOff && Known(behind, before, c.n), c, n);
    }
  }

  /** Command `k` is an `up` of outlet 48, skipped on the word of the byte behind the array while the outlet was off. */
  predicate Skipped(behind: bool, cmds: seq<Command>, k: nat)
    requires k < |cmds|
  {
    cmds[k] == Up(NUM_OUTLETS) && Known(behind, cmds[..k], NUM_OUTLETS) && !Wanted(cmds[..k], NUM_OUTLETS)
  }

  /** After this command outlet 48 is as it says. */
  predicate Settles(c: Command) {
    c == AllOff || c == Down(NUM_OUTLETS) || c == Reboot(NUM_OUTLETS)
  }

  /** Such an `up` was skipped, and no command since has settled the outlet. */
  ghost predicate Stuck(behind: bool, cmds: seq<Command>) {
    exists k :: 0 <= k < |cmds| && Skipped(behind, cmds, k) && forall i :: k <= i < |cmds| ==> !Settles(cmds[i])
  }

  /** Whether it is stuck, by the last command. */
  lemma StuckByLast(behind: bool, cmds: seq<Command>)
    requires cmds != []
    ensures var n := |cmds| - 1;
            Stuck(behind, cmds) <==> !Settles(cmds[n]) && (Stuck(behind, cmds[..n]) || Skipped(behind, cmds, n))
  {
    var n := |cmds| - 1;
    var before := cmds[..n];
    assert forall k :: 0 <= k < n ==> before[..k] == cmds[..k];
    assert forall k :: 0 <= k < n ==> Skipped(behind, before, k) == Skipped(behind, cmds, k);
  }

  lemma {:induction false} StuckIsOff(behind: bool, cmds: seq<Command>)
    ensures var lit := Lit(Sent(behind, cmds), NUM_OUTLETS);
            (lit <==> Wanted(cmds, NUM_OUTLETS) && !Stuck(behind, cmds))
            && (Stuck(behind, cmds) ==> Wanted(cmds, NUM_OUTLETS))
            && (Wanted(cmds, NUM_OUTLETS) ==> Known(behind, cmds, NUM_OUTLETS))
    decreases |cmds|
  {
    if cmds == [] {
      assert Lit([OffAll], NUM_OUTLETS) == false;
    } else {
      hide Stuck;
      var before, c := cmds[..|cmds| - 1], cmds[|cmds| - 1];
      StuckIsOff(behind, before);
      StuckByLast(behind, cmds);
      LitOrders(Sent(behind, before), c != AllOff && Known(behind, before, c.n), c, NUM_OUTLETS);
    }
  }

  /** Outlet 48 is as the commands want it, iff it is not stuck. */
  lemma Outlet48Iff(behind: bool, cmds: seq<Command>)
    ensures Lit(Sent(behind, cmds), NUM_OUTLETS) == Wanted(cmds, NUM_OUTLETS) <==> !Stuck(behind, cmds)
  {
    StuckIsOff(behind, cmds);
  }

  /** Up, everything off, and up again: outlet 48 stays off, whatever lay behind the array. */
  lemma Outlet48StaysOff(behind: bool)
    ensures var cmds := [Up(48), AllOff, Up(48)];
            Wanted(cmds, 48) && !Lit(Sent(behind, cmds), 48) && Lit(SentAlways(cmds), 48)
  {
    var cmds := [Up(48), AllOff, Up(48)];
    assert cmds[..2] == [Up(48), AllOff] && cmds[..2][..1] == [Up(48)] && [Up(48)][..0] == [];
    assert Known(behind, [Up(48)], 48) && Known(behind, cmds[..2], 48) && !Wanted(cmds[..2], 48);
    StuckByLast(behind, cmds);
    StuckIsOff(behind, cmds);
    AlwaysAsWanted(cmds, 48);
  }

  // ----- what happens on the way --------------------------------------------------------------

  /** At some point while the orders behind `from` are carried out, outlet `n` is off. */
  ghost predicate OffBetween(log: seq<Order>, from: nat, n: nat) {
    exists k :: from <= k <= |log| && !Lit(log[..k], n)
  }

  /** All that time it is as it was before. */
  ghost predicate SameThroughout(log: seq<Order>, from: nat, n: nat) {
    from <= |log| && forall k :: from <= k <= |log| ==> Lit(log[..k], n) == Lit(log[..from], n)
  }

  lemma SentBefore(behind: bool, cmds: seq<Command>, c: Command)
    ensures Sent(behind, cmds + [c]) == Sent(behind, cmds) + Orders(c != AllOff && Known(behind, cmds, c.n), c)
  {
    assert (cmds + [c])[..|cmds|] == cmds;
  }

  lemma {:induction false} LitIsKnown(behind: bool, cmds: seq<Command>, n: nat)
    requires n <= NUM_OUTLETS
    ensures Lit(Sent(behind, cmds), n) ==> Known(behind, cmds, n)
  {
    if n < NUM_OUTLETS {
      SkippingHarmless(behind, cmds, n);
    } else {
      StuckIsOff(behind, cmds);
    }
  }

  /** The orders of one more command, for an outlet of the array, by whether the commands before want it on. */
  lemma {:induction false} OrdersSent(behind: bool, cmds: seq<Command>, n: nat)
    requires n < NUM_OUTLETS
    ensures var sent, on := Sent(behind, cmds), Wanted(cmds, n);
            Sent(behind, cmds + [AllOff]) == sent + [OffAll]
            && Sent(behind, cmds + [Down(n)]) == sent + [OffOne(n)]
            && Sent(behind, cmds + [Up(n)]) == (if on then sent else sent + [OnOne(n)])
            && Sent(behind, cmds + [Reboot(n)]) == sent + if on then [OffOne(n), OnOne(n)] else [OnOne(n)]
  {
    hide Sent, Lit, Known, Wanted;
    SkippingHarmless(behind, cmds, n);
    SentBefore(behind, cmds, AllOff);
    SentBefore(behind, cmds, Down(n));
    SentBefore(behind, cmds, Up(n));
    SentBefore(behind, cmds, Reboot(n));
  }

  /** A reboot switches the outlet off, if it was on, and in any case on in the end. */
  lemma {:induction false} RebootRestarts(behind: bool, cmds: seq<Command>, n: nat)
    requires n <= NUM_OUTLETS
    ensures var log := Sent(behind, cmds + [Reboot(n)]);
            Sent(behind, cmds) <= log && Lit(log, n) && OffBetween(log, |Sent(behind, cmds)|, n)
  {
    hide Sent, Lit, Known;
    var sent := Sent(behind, cmds);
    var on := Known(behind, cmds, n);
    var log := Sent(behind, cmds + [Reboot(n)]);
    SentBefore(behind, cmds, Reboot(n));
    LitIsKnown(behind, cmds, n);
    LitOrders(sent, on, Reboot(n), n);
    if on {
      LitOne(sent, OffOne(n), n);
      assert log[..|sent| + 1] == sent + [OffOne(n)];
    } else {
      assert log[..|sent|] == sent;
    }
  }

  /** No command but switching everything off disturbs an outlet that it does not name. */
  lemma {:induction false} OthersUndisturbed(behind: bool, cmds: seq<Command>, c: Command, n: nat)
    requires c != AllOff && c.n != n
    ensures var log := Sent(behind, cmds + [c]);
            Sent(behind, cmds) <= log && SameThroughout(log, |Sent(behind, cmds)|, n)
  {
    hide Sent, Lit, Known;
    var sent := Sent(behind, cmds);
    var on := Known(behind, cmds, c.n);
    var log := Sent(behind, cmds + [c]);
    SentBefore(behind, cmds, c);
    LitOrders(sent, on, c, n);
    LitOne(sent, OffOne(c.n), n);
    assert log[..|sent|] == sent && log[..|log|] == log;
    assert |log| > |sent| ==> log[..|sent| + 1] == sent + [log[|sent|]];
  }

  /** Switching on an outlet that is on does not interrupt it. */
  lemma {:induction false} UpDoesNotInterrupt(behind: bool, cmds: seq<Command>, n: nat)
    requires Lit(Sent(behind, cmds), n)
    ensures var log := Sent(behind, cmds + [Up(n)]);
            Sent(behind, cmds) <= log && SameThroughout(log, |Sent(behind, cmds)|, n)
  {
    hide Sent, Lit, Known;
    var sent := Sent(behind, cmds);
    var on := Known(behind, cmds, n);
    var log := Sent(behind, cmds + [Up(n)]);
    SentBefore(behind, cmds, Up(n));
    LitOrders(sent, on, Up(n), n);
    assert log[..|sent|] == sent && log[..|log|] == log;
  }

  /** The last order for an outlet, or for all, decides. */
  lemma {:induction false} LitIff(log: seq<Order>, n: nat)
    ensures Lit(log, n) <==>
            exists k :: 0 <= k < |log| && log[k] == OnOne(n)
                        && forall i :: k < i < |log| ==> log[i] != OffAll && log[i] != OffOne(n)
  {
    if log != [] {
      var before := log[..|log| - 1];
      LitIff(before, n);
      assert forall k :: 0 <= k < |before| ==> before[k] == log[k];
      if Lit(log, n) && log[|log| - 1] != OnOne(n) {
        var k :| 0 <= k < |before| && before[k] == OnOne(n)
                 && forall i :: k < i < |before| ==> before[i] != OffAll && before[i] != OffOne(n);
        assert log[k] == OnOne(n);
      }
    }
  }

  /** And so does the last command. */
  lemma {:induction false} WantedIff(cmds: seq<Command>, n: nat)
    ensures Wanted(cmds, n) <==>
            exists k :: 0 <= k < |cmds| && (cmds[k] == Up(n) || cmds[k] == Reboot(n))
                        && forall i :: k < i < |cmds| ==> cmds[i] != AllOff && cmds[i] != Down(n)
  {
    if cmds != [] {
      var before, c := cmds[..|cmds| - 1], cmds[|cmds| - 1];
      WantedIff(before, n);
      assert forall k :: 0 <= k < |before| ==> before[k] == cmds[k];
      if Wanted(cmds, n) && c != Up(n) && c != Reboot(n) {
        var k :| 0 <= k < |before| && (before[k] == Up(n) || before[k] == Reboot(n))
                 && forall i :: k < i < |before| ==> before[i] != AllOff && before[i] != Down(n);
        assert cmds[k] == Up(n) || cmds[k] == Reboot(n);
      }
    }
  }

  /** The serial line to the device, and the orders that got through. */
  class Rpc {
    var log: seq<Order>
    /** Every order so far got through. */
    var complete: bool

    constructor ()
      ensures log == [] && complete
    {
      log, complete := [], true;
    }

    method Send(o: Order)
      modifies this
      ensures complete ==> old(complete) && log == old(log) + [o]
    {
      var ok: bool :| true;
      if ok {
        log := log + [o];
      } else {
        complete := false;
      }
    }
  }

  class Powerd {
    const rpc: Rpc
    /** The array, and the byte behind it, which commands for outlet 48 take for a cell. */
    const outlets: array<bool>

    ghost predicate Valid() {
      outlets.Length == NUM_OUTLETS + 1
    }

    /** The daemon's idea of the outlets of the array is how they are. */
    ghost predicate Agrees()
      requires Valid()
      reads outlets, rpc
    {
      forall n :: 0 <= n < NUM_OUTLETS ==> outlets[n] == Lit(rpc.log, n)
    }

    constructor (behind: bool)
      ensures Valid() && fresh(rpc) && fresh(outlets)
      ensures forall n :: 0 <= n <= NUM_OUTLETS ==> outlets[n] == (n == NUM_OUTLETS && behind)
      ensures rpc.complete ==> Agrees() && rpc.log == [OffAll]
    {
      rpc := new Rpc();
      outlets := new bool[NUM_OUTLETS + 1];
      new;
      outlets[NUM_OUTLETS] := behind;
      InitDevice();
      assert [] + [OffAll] == [OffAll];
    }

    method InitDevice()
      requires Valid()
      modifies outlets, rpc
      ensures forall n :: 0 <= n <= NUM_OUTLETS ==> outlets[n] == Cell(old(outlets[n]), AllOff, n)
      ensures rpc.complete ==> old(rpc.complete) && Agrees() && rpc.log == old(rpc.log) + [OffAll]
    {
      for i := 0 to NUM_OUTLETS
        modifies outlets
        invariant forall n :: 0 <= n < i ==> !outlets[n]
        invariant outlets[NUM_OUTLETS] == old(outlets[NUM_OUTLETS])
      {
        outlets[i] := false;
      }
      ghost var log := rpc.log;
      rpc.Send(OffAll);
      forall n | 0 <= n < NUM_OUTLETS ensures !Lit(log + [OffAll], n) {
        LitOne(log, OffAll, n);
      }
    }

    /** execute_command, on a valid command. */
    method ExecuteCommand(cmd: seq<byte>) returns (r: int)
      requires Valid() && Parse(cmd).Some?
      modifies outlets, rpc
      ensures r == 1
      ensures var c := Parse(cmd).value;
              forall n :: 0 <= n <= NUM_OUTLETS ==> outlets[n] == Cell(old(outlets[n]), c, n)
      ensures rpc.complete ==>
                var c := Parse(cmd).value;
                old(rpc.complete)
                && rpc.log == old(rpc.log) + Orders(c != AllOff && old(outlets[if c == AllOff then 0 else c.n]), c)
      ensures rpc.complete && old(Agrees()) ==> Agrees()
    {
      if cmd == [Ascii('o'), Ascii('f'), Ascii('f')] {
        InitDevice();
        return 1;
      }
      AtoiTwoDigits(cmd[1], cmd[2]);
      ParsedInRange(cmd);
      assert cmd[1..] == [cmd[1], cmd[2]];
      var n := Atoi(cmd[1..]);
      ghost var log, c, on := rpc.log, Parse(cmd).value, outlets[n];
      if cmd[0] == Ascii('d') {
        outlets[n] := false;
        rpc.Send(OffOne(n));
      } else if cmd[0] == Ascii('u') {
        if outlets[n] {
          assert log + [] == log;
          return 1;
        }
        outlets[n] := true;
        rpc.Send(OnOne(n));
      } else {
        if outlets[n] {
          rpc.Send(OffOne(n));
          rpc.Send(OnOne(n));
          assert log + [OffOne(n)] + [OnOne(n)] == log + [OffOne(n), OnOne(n)];
        } else {
          outlets[n] := true;
          rpc.Send(OnOne(n));
        }
      }
      return 1;
    }
  }

  /** The valid commands among those received. */
  function Valids(received: seq<seq<byte>>): seq<Command> {
    if received == [] then []
    else
      Valids(received[..|received| - 1])
      + match Parse(received[|received| - 1]) case None => [] case Some(c) => [c]
  }

  /**
    The daemon's loop over what clients send. If every order gets through, the device has
    received the orders of the run, and the daemon knows each outlet of the array to be as the
    commands want it.
   */
  method Serve(received: seq<seq<byte>>, behind: bool) returns (d: Powerd)
    requires forall i :: 0 <= i < |received| ==> NUL !in received[i]
    ensures d.Valid()
    ensures forall n :: 0 <= n <= NUM_OUTLETS ==> d.outlets[n] == Known(behind, Valids(received), n)
    ensures forall n :: 0 <= n < NUM_OUTLETS ==> d.outlets[n] == Wanted(Valids(received), n)
    ensures d.rpc.complete ==> d.rpc.log == Sent(behind, Valids(received)) && d.Agrees()
  {
    d := new Powerd(behind);
    ghost var cmds: seq<Command> := [];
    assert received[..0] == [];
    for i := 0 to |received|
      invariant fresh(d) && fresh(d.rpc) && fresh(d.outlets) && d.Valid()
      invariant cmds == Valids(received[..i])
      invariant forall n :: 0 <= n <= NUM_OUTLETS ==> d.outlets[n] == Known(behind, cmds, n)
      invariant d.rpc.complete ==> d.Agrees() && d.rpc.log == Sent(behind, cmds)
    {
      assert received[..i + 1][..i] == received[..i];
      var valid := ValidCommand(received[i]);
      if valid {
        ParsedInRange(received[i]);
        var _ := d.ExecuteCommand(received[i]);
        ghost var c := Parse(received[i]).value;
        assert (cmds + [c])[..|cmds|] == cmds;
        cmds := cmds + [c];
      }
    }
    assert received[..|received|] == received;
    forall n | 0 <= n < NUM_OUTLETS ensures d.outlets[n] == Wanted(Valids(received), n) {
      SkippingHarmless(behind, cmds, n);
    }
  }
}
