/**
  The relay loop of lib/connectto.c, and whole sessions: the client relays what is typed
  into the network, the server relays the network into the serial line.
 */
module ConnectTo {
  import opened Bytes
  import opened ConsoleStream
  import TtyConnect
  import XinuConsole

  const MY_BUFSIZE := 4096

  /** What connectto's flushdata makes of a read of `rlen` bytes and the result of relaying them. */
  function RelayResult(rlen: nat, wlen: int): int {
    if wlen != rlen then
      if wlen > 0 && wlen < rlen then -1 else wlen
    else 1
  }

  /** The relay goes on exactly when at least as much was written as was read; cooking writes more. */
  lemma RelayGoesOnIff(rlen: nat, wlen: int)
    requires rlen > 0
    ensures RelayResult(rlen, wlen) > 0 <==> wlen >= rlen
    ensures 0 < wlen < rlen ==> RelayResult(rlen, wlen) == -1
  {
  }

  /** From the keyboard to the network: one read of any size, and what becomes of it. */
  method ClientTurn(c: XinuConsole.Console) returns (goesOn: bool)
    requires c.buf.Length == MY_BUFSIZE
    modifies c`stdinLen, c`stdinCurr, c`typed, c`calls, c.buf, c.net
    ensures goesOn ==> |c.typed| < |old(c.typed)|
    ensures old(c.net.sent) <= c.net.sent && (c.net.complete ==> old(c.net.complete))
    ensures c.net.complete ==>
              old(c.Owed(Typing, c.typed)) == if goesOn then c.Owed(Typing, c.typed) else c.net.sent
  {
    if c.typed == [] {
      return false;
    }
    var rlen :| 1 <= rlen <= |c.typed| && rlen <= MY_BUFSIZE;
    ghost var typed := c.typed;
    forall i | 0 <= i < rlen {
      c.buf[i] := c.typed[i];
    }
    c.typed := c.typed[rlen..];
    assert c.buf[..rlen] + c.typed == typed;
    var wlen := c.FlushToNet(rlen);
    goesOn := RelayResult(rlen, wlen) > 0;
  }

  /** From the network to the serial line: one read of any size, and what becomes of it. */
  method ServerTurn(d: TtyConnect.Driver, unread: seq<byte>) returns (rlen: nat, goesOn: bool)
    requires d.Valid() && unread != []
    modifies d, d.pcBuf, d.tty
    ensures d.Valid() && 1 <= rlen <= |unread|
    ensures d.tty.complete ==> old(d.tty.complete) && goesOn
    ensures !d.transparent && d.tty.complete ==>
              var events := Decode(d.cook, old(d.esc), unread[..rlen]);
              d.esc == events.esc && d.tty.log == old(d.tty.log) + Delivered([], events.events)
    ensures !d.cook && old(d.tty.complete) ==> (goesOn <==> d.tty.complete)
  {
    rlen :| 1 <= rlen <= |unread| && rlen <= MY_BUFSIZE;
    var wlen := d.FlushData(unread[..rlen]);
    goesOn := RelayResult(rlen, wlen) > 0;
  }

  /** The serial line has received what these reads of the network stream decode to. */
  ghost predicate Delivering(d: TtyConnect.Driver, chunks: seq<seq<byte>>)
    reads d, d.tty
  {
    d.esc == DecodeChunks(d.cook, false, chunks).esc && d.tty.log == DeliveredChunks(d.cook, false, chunks)
  }

  /** The line got exactly the bytes that were meant (cooked if asked for), in order, and exactly as many breaks. */
  predicate Arrived(cook: bool, meant: seq<Event>, log: seq<Event>) {
    DataOf(log) == CookBytes(cook, DataOf(meant)) && BreaksIn(log) == BreaksIn(meant)
  }

  /** And all of them in order, iff in every read the breaks came before the bytes. */
  predicate InOrderIff(cook: bool, meant: seq<Event>, chunks: seq<seq<byte>>, log: seq<Event>) {
    log == Cooked(cook, meant) <==> ChunksLead(cook, false, chunks)
  }

  lemma AllArrived(cook: bool, meant: seq<Event>, chunks: seq<seq<byte>>)
    requires Flatten(chunks) == Encode(meant)
    ensures Arrived(cook, meant, DeliveredChunks(cook, false, chunks))
    ensures InOrderIff(cook, meant, chunks, DeliveredChunks(cook, false, chunks))
  {
    ChunkingIrrelevant(cook, false, chunks);
    RoundTrip(cook, meant);
    CookedContents(cook, meant);
    DeliveredChunksContents(cook, false, chunks);
    OrderKeptThroughoutIff(cook, false, chunks);
  }

  /**
    A whole session: the two relays take turns in any order, each reading chunks of any size,
    until the user's input is used up or the session is closed from the menu. `chunks` are the
    reads from the network.
   */
  method Session(typed: seq<byte>, outcomes: nat -> bool, cook: bool)
    returns (tty: TtyConnect.Tty, net: XinuConsole.Channel, ghost chunks: seq<seq<byte>>)
    ensures net.complete && tty.complete ==>
              var meant := PressAll(outcomes, Keyboard(Typing, 0), typed).events;
              net.sent == Encode(meant) && Arrived(cook, meant, tty.log)
    ensures net.complete && tty.complete ==>
              var meant := PressAll(outcomes, Keyboard(Typing, 0), typed).events;
              Flatten(chunks) == net.sent && tty.log == DeliveredChunks(cook, false, chunks)
              && InOrderIff(cook, meant, chunks, tty.log)
  {
    hide Decode, Encode, PressAll, Delivered, DeliveredChunks, DecodeChunks, Arrived, InOrderIff, Flatten;
    net := new XinuConsole.Channel();
    var client := new XinuConsole.Console(MY_BUFSIZE, typed, outcomes, net);
    tty := new TtyConnect.Tty();
    var driver := new TtyConnect.Driver(tty, false, cook);
    ghost var meant := PressAll(outcomes, Keyboard(Typing, 0), typed).events;
    var clientOn, taken := true, 0;
    chunks := [];
    NothingYet(cook);
    assert net.sent[..0] == [];
    while clientOn || taken < |net.sent|
      invariant client.net == net && driver.tty == tty && driver.Valid()
      invariant client.buf.Length == MY_BUFSIZE && client.outcomes == outcomes
      invariant !driver.transparent && driver.cook == cook
      invariant fresh(net) && fresh(client) && fresh(client.buf) && fresh(tty) && fresh(driver) && fresh(driver.pcBuf)
      invariant 0 <= taken <= |net.sent| && Flatten(chunks) == net.sent[..taken]
      invariant net.complete ==>
                  Encode(meant) == if clientOn then client.Owed(Typing, client.typed) else net.sent
      invariant tty.complete ==> Delivering(driver, chunks)
      decreases clientOn, |client.typed|, |net.sent| - taken
    {
      var clientFirst: bool :| true;
      ghost var sofar := net.sent[..taken];
      if clientOn && (clientFirst || taken == |net.sent|) {
        clientOn := ClientTurn(client);
        assert net.sent[..taken] == sofar;
      } else {
        var rlen, goesOn := ServerTurn(driver, net.sent[taken..]);
        if !goesOn {
          return;
        }
        ghost var chunk := net.sent[taken..][..rlen];
        DeliveredMore(cook, false, chunks, chunk);
        FlattenMore(chunks, chunk);
        chunks := chunks + [chunk];
        taken := taken + rlen;
        assert net.sent[..taken] == sofar + chunk;
      }
    }
    if net.complete && tty.complete {
      assert net.sent[..taken] == net.sent;
      AllArrived(cook, meant, chunks);
    }
  }

  lemma NothingYet(cook: bool)
    ensures DeliveredChunks(cook, false, []) == [] && !DecodeChunks(cook, false, []).esc && Flatten<byte>([]) == []
  {
  }

  /** Typed bytes and breaks arrive as they were meant, with no byte turned into a break. */
  method TypeEvents(es: seq<Event>, outcomes: nat -> bool, cook: bool)
    returns (tty: TtyConnect.Tty, net: XinuConsole.Channel, ghost chunks: seq<seq<byte>>)
    requires forall i :: 0 <= i < |es| && es[i].Data? ==> 0 < es[i].b < 128
    ensures net.complete && tty.complete ==> Arrived(cook, es, tty.log)
    ensures net.complete && tty.complete ==> Flatten(chunks) == net.sent && InOrderIff(cook, es, chunks, tty.log)
  {
    KeysTypeEvents(outcomes, Keyboard(Typing, 0), es);
    tty, net, chunks := Session(KeysFor(es), outcomes, cook);
  }
}
