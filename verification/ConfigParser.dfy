/** The parser of src/support.c, over the tokens of the scanner. */
module ConfigParser {
  import opened Bytes
  import opened Lexicon
  import opened Config
  import Scanner

  /** `Astray`: the source looks at the byte before an empty word, and what it does then is not defined. */
  datatype Made = Exit | Astray | NoMore | Made(cdata: Condata)
  datatype Loaded = Failed | Undefined | Loaded(table: seq<Condata>)

  /** An entry nobody has connected to yet; the rest of `user`, and `contime`, are not initialised. */
  predicate Unused(c: Condata) {
    |c.user| == MAXUSERNAME && c.user[0] == NUL && c.user[MAXUSERNAME - 1] == NUL && c.conpid == BADPID
  }

  function Infos(table: seq<Condata>): (r: seq<Info>)
    ensures |r| == |table|
  {
    seq(|table|, i requires 0 <= i < |table| => table[i].info)
  }

  /** The token just read, and those to come. */
  function Ahead(tk: Option<Token>, upcoming: seq<Token>): seq<Token> {
    if tk.None? then upcoming else [tk.value] + upcoming
  }

  /** `before` is the words, and the end of their line, and then `after`. */
  predicate EndsLine(before: seq<Token>, words: seq<seq<byte>>, after: seq<Token>) {
    before == AsTokens(words) + [LineEnd] + after || (after == [] && before == AsTokens(words))
  }

  lemma NoArgs(all: seq<Token>, tk: Option<Token>, later: seq<Token>)
    requires all == Ahead(tk, later)
    ensures all == AsTokens([]) + Ahead(tk, later) && JoinArgs([]) == [] && !TooMuch([])
  {
  }

  /** One more argument. */
  lemma ArgRead(all: seq<Token>, args: seq<seq<byte>>, tk: Option<Token>, later: seq<Token>)
    requires all == AsTokens(args) + Ahead(tk, later) && tk.Some? && tk.value.Word? && !TooMuch(args)
    ensures var arg := tk.value.value;
            all == AsTokens(args + [arg]) + later
            && JoinArgs(args + [arg]) == (if args == [] then arg else JoinArgs(args) + [SPACE] + arg)
            && if |args| >= MAXNUMBERARGS || |arg| >= MAXARGLENGTH then TooMuch(LineWords(all))
               else !TooMuch(args + [arg])
  {
    hide LineWords, JoinArgs, AsTokens, TooMuch;
    NextArg(args, tk.value.value, later);
    NextArgFits(args, tk.value.value, LineWords(later));
  }

  /** And no more. */
  lemma ArgsEnd(all: seq<Token>, args: seq<seq<byte>>, tk: Option<Token>, later: seq<Token>)
    requires all == AsTokens(args) + Ahead(tk, later) && (tk.None? || tk.value == LineEnd) && (tk.None? ==> later == [])
    ensures EndsLine(all, args, later)
  {
    hide AsTokens;
    assert AsTokens(args) + ([LineEnd] + later) == AsTokens(args) + [LineEnd] + later;
    assert AsTokens(args) + [] == AsTokens(args);
  }

  /** A new entry. Memory is not cleared: only the ends of `user` and `conpid` are set. */
  method MakeCondata(info: Info) returns (cdata: Condata)
    ensures Unused(cdata) && cdata.info == info
  {
    var user := new byte[MAXUSERNAME];
    user[0] := NUL;
    user[MAXUSERNAME - 1] := NUL;
    var contime: int :| true;
    cdata := Condata(info, user[..], BADPID, contime);
  }

  class Parser {
    const tokenizer: Scanner.Tokenizer
    /** Whether a host name is this host's. */
    const mine: seq<byte> -> bool
    var defaultHost: Option<seq<byte>>

    ghost function Repr(): set<object>
      reads tokenizer, tokenizer.scanner
    {
      tokenizer.Repr()
    }

    ghost predicate Valid()
      reads this, tokenizer, Repr()
    {
      this !in Repr() && tokenizer.Valid()
    }

    ghost function Upcoming(): seq<Token>
      requires tokenizer.Valid()
      reads tokenizer.Repr()
    {
      tokenizer.Upcoming()
    }

    constructor (text: seq<byte>, mine: seq<byte> -> bool)
      ensures Valid() && Upcoming() == Tokens(text) && this.mine == mine && defaultHost == None
      ensures fresh(Repr())
    {
      hide Tokens;
      tokenizer := new Scanner.Tokenizer(text, Scanner.YY_BUF_SIZE);
      this.mine := mine;
      defaultHost := None;
    }

    method Read() returns (tk: Option<Token>)
      requires Valid()
      modifies Repr()
      ensures Valid() && fresh(Repr() - old(Repr()))
      ensures Ahead(tk, Upcoming()) == old(Upcoming())
      ensures tk.None? ==> Upcoming() == []
    {
      hide Tokens;
      ghost var before := Upcoming();
      tk := tokenizer.TkNext();
      if tk.Some? {
        assert tokenizer.Upcoming() == before[1..] && tk.value == before[0];
      }
    }

    method SkipNewlines() returns (tk: Option<Token>)
      requires Valid()
      modifies Repr()
      ensures Valid() && fresh(Repr() - old(Repr()))
      ensures ParseLines(old(Upcoming())) == ParseLines(Ahead(tk, Upcoming()))
      ensures NamesSound(old(Upcoming())) == NamesSound(Ahead(tk, Upcoming()))
      ensures |Ahead(tk, Upcoming())| <= |old(Upcoming())|
      ensures tk != Some(LineEnd)
      ensures tk.None? ==> Upcoming() == []
    {
      hide ParseLines, NamesSound;
      tk := Read();
      while tk == Some(LineEnd)
        invariant Valid() && fresh(Repr() - old(Repr()))
        invariant ParseLines(old(Upcoming())) == ParseLines(Ahead(tk, Upcoming()))
        invariant NamesSound(old(Upcoming())) == NamesSound(Ahead(tk, Upcoming()))
        invariant |Ahead(tk, Upcoming())| <= |old(Upcoming())|
        invariant tk.None? ==> Upcoming() == []
        decreases |Ahead(tk, Upcoming())|
      {
        BlankLine(Upcoming());
        tk := Read();
      }
    }

    /** matchtoken(TKSTRING): the next word, or nothing if the line ends first. */
    method MatchString(ghost words: seq<seq<byte>>) returns (word: Option<seq<byte>>)
      requires Valid()
      modifies Repr()
      ensures Valid() && fresh(Repr() - old(Repr()))
      ensures word.Some? ==> AsTokens(words + [word.value]) + Upcoming() == AsTokens(words) + old(Upcoming())
      ensures word.None? ==> LineWords(old(Upcoming())) == []
      ensures |Upcoming()| <= |old(Upcoming())|
    {
      var tk := Read();
      if tk.None? || tk.value == LineEnd {
        return None;
      }
      word := Some(tk.value.value);
      assert AsTokens(words + [word.value]) == AsTokens(words) + [tk.value];
    }

    /** The arguments of an entry; nothing if one is too long, or they do not end the line. */
    method ParseArgs() returns (args: Option<seq<seq<byte>>>, argsline: seq<byte>)
      requires Valid()
      modifies Repr()
      ensures Valid() && fresh(Repr() - old(Repr()))
      ensures args.None? ==> TooMuch(LineWords(old(Upcoming())))
      ensures args.Some? ==>
                argsline == JoinArgs(args.value) && !TooMuch(args.value)
                && EndsLine(old(Upcoming()), args.value, Upcoming())
    {
      hide Tokens, LineWords, JoinArgs, AsTokens, TooMuch, Ahead, EndsLine;
      ghost var all := Upcoming();
      var progargs: seq<seq<byte>> := [];
      argsline := [];
      var tk := Read();
      var i := 0;
      NoArgs(all, tk, Upcoming());
      while i < MAXNUMBERARGS
        invariant Valid() && fresh(Repr() - old(Repr()))
        invariant 0 <= i == |progargs| <= MAXNUMBERARGS && argsline == JoinArgs(progargs) && !TooMuch(progargs)
        invariant all == AsTokens(progargs) + Ahead(tk, Upcoming())
        invariant tk.None? ==> Upcoming() == []
      {
        if tk.None? || tk.value == LineEnd {
          break;
        }
        var arg := tk.value.value;
        ArgRead(all, progargs, tk, Upcoming());
        tk := Read();
        if |arg| >= MAXARGLENGTH {
          return None, argsline;
        }
        if i != 0 {
          argsline := argsline + [SPACE];
        }
        argsline := argsline + arg;
        progargs := progargs + [arg];
        i := i + 1;
      }
      if tk.Some? && tk.value != LineEnd {
        ArgRead(all, progargs, tk, Upcoming());
        return None, argsline;
      }
      ArgsEnd(all, progargs, tk, Upcoming());
      args := Some(progargs);
    }

    /** The rest of an entry whose name has been read; nothing if the source stops with an error. */
    method ParseEntry(conname: seq<byte>) returns (info: Option<Info>)
      requires Valid() && conname != [] && !IsHeader(conname)
      modifies Repr()
      ensures Valid() && fresh(Repr() - old(Repr()))
      ensures var all := [Word(conname)] + old(Upcoming());
              if info.None? then ParseLines(all) == Bad
              else ParseLines(all) == Prepend(Entry(info.value), ParseLines(Upcoming()))
      ensures info.Some? ==> |Upcoming()| <= |old(Upcoming())|
      ensures NamesSound([Word(conname)] + old(Upcoming())) == (info.None? || NamesSound(Upcoming()))
    {
      hide Tokens, LineWords, JoinArgs, ParseLines, NamesSound;
      ghost var all := [Word(conname)] + Upcoming();
      assert AsTokens([conname]) + Upcoming() == all;
      ghost var afterName := Upcoming();
      var conclass := MatchString([conname]);
      if conclass.None? {
        BadLine([conname], afterName);
        return None;
      }
      ghost var two := [conname] + [conclass.value];
      ghost var afterClass := Upcoming();
      var conprog := MatchString(two);
      if conprog.None? {
        BadLine(two, afterClass);
        return None;
      }
      ghost var words := two + [conprog.value];
      ghost var afterProg := Upcoming();
      assert all == AsTokens(words) + afterProg;
      if |conname| >= MAXCONNECTIONNAME || |conclass.value| >= MAXCLASSNAME {
        assert (words + LineWords(afterProg))[1] == conclass.value;
        BadLine(words, afterProg);
        return None;
      }
      var args, argsline := ParseArgs();
      if args.None? {
        TooMuchLine(words, LineWords(afterProg));
        BadLine(words, afterProg);
        return None;
      }
      info := Some(Info(conname, conclass.value, conprog.value, args.value, argsline));
      EntryEnds(words, args.value, afterProg, Upcoming());
    }

    /** The next entry for this host, or the end of the file, or an error that stops the server. */
    method MakeEntry(ghost seen: seq<Item>) returns (made: Made, ghost now: seq<Item>)
      requires Valid() && defaultHost == Governing(seen)
      modifies this, Repr()
      ensures Valid() && fresh(Repr() - old(Repr()))
      ensures made.Astray? ==> !NamesSound(old(Upcoming()))
      ensures made.Exit? ==> ParseLines(old(Upcoming())) == Bad && NamesSound(old(Upcoming()))
      ensures made.Made? || made.NoMore? ==>
                defaultHost == Governing(now)
                && Onward(seen, ParseLines(old(Upcoming()))) == Onward(now, ParseLines(Upcoming()))
                && NamesSound(old(Upcoming())) == NamesSound(Upcoming())
                && Kept(now, mine) == Kept(seen, mine) + if made.Made? then [made.cdata.info] else []
      ensures made.Made? ==> Unused(made.cdata) && |Upcoming()| < |old(Upcoming())|
      ensures made.NoMore? ==> Upcoming() == []
    {
      hide Tokens, ParseLines, LineWords, JoinArgs, IsEntry, Kept, Governing, NamesSound;
      hide Scanner.Tokenizer.Valid, Scanner.Tokenizer.Upcoming;
      now := seen;
      while true
        invariant Valid() && fresh(Repr() - old(Repr())) && NamesSound(old(Upcoming())) == NamesSound(Upcoming())
        invariant defaultHost == Governing(now)
        invariant Onward(seen, ParseLines(old(Upcoming()))) == Onward(now, ParseLines(Upcoming()))
        invariant Kept(now, mine) == Kept(seen, mine)
        invariant |Upcoming()| <= |old(Upcoming())|
        decreases |Upcoming()|
      {
        var tk := SkipNewlines();
        if tk.None? {
          return NoMore, now;
        }
        var tv := tk.value.value;
        if tv == [] {
          EmptyName(Upcoming());
          return Astray, now;
        }
        if tv[|tv| - 1] == COLON {
          HeaderFirst(tv, Upcoming());
          var host := tv[..|tv| - 1];
          OnwardPast(now, Host(host), ParseLines(Upcoming()));
          KeptPast(now, Host(host), mine);
          now := now + [Host(host)];
          defaultHost := if host == [] then None else Some(host);
          continue;
        }
        var info := ParseEntry(tv);
        if info.None? {
          return Exit, now;
        }
        OnwardPast(now, Entry(info.value), ParseLines(Upcoming()));
        KeptPast(now, Entry(info.value), mine);
        now := now + [Entry(info.value)];
        if defaultHost.None? || mine(defaultHost.value) {
          var cdata := MakeCondata(info.value);
          return Made(cdata), now;
        }
      }
    }
  }

  /** The items up to some point, and those that follow. */
  ghost function Onward(items: seq<Item>, rest: Items): Items {
    Append(Good(items), rest)
  }

  lemma OnwardPast(items: seq<Item>, item: Item, rest: Items)
    ensures Onward(items, Prepend(item, rest)) == Onward(items + [item], rest)
  {
    if rest.Good? {
      assert items + ([item] + rest.items) == items + [item] + rest.items;
    }
  }

  lemma KeptPast(items: seq<Item>, item: Item, mine: seq<byte> -> bool)
    ensures Kept(items + [item], mine)
            == Kept(items, mine) + if item.Entry? && Applies(Governing(items), mine) then [item.info] else []
    ensures Governing(items + [item])
            == if item.Entry? then Governing(items) else if item.name == [] then None else Some(item.name)
  {
    assert (items + [item])[..|items|] == items;
  }

  lemma TooMuchLine(words: seq<seq<byte>>, more: seq<seq<byte>>)
    requires |words| == 3 && TooMuch(more)
    ensures !IsEntry(words + more)
  {
    if |more| <= MAXNUMBERARGS {
      var i :| 0 <= i < |more| && |more[i]| >= MAXARGLENGTH;
      assert (words + more)[3 + i] == more[i];
    }
  }

  lemma EntryEnds(words: seq<seq<byte>>, args: seq<seq<byte>>, before: seq<Token>, after: seq<Token>)
    requires |words| == 3 && !IsHeader(words[0]) && |words[0]| < MAXCONNECTIONNAME && |words[1]| < MAXCLASSNAME
    requires !TooMuch(args) && EndsLine(before, args, after)
    ensures ParseLines(AsTokens(words) + before)
            == Prepend(Entry(Info(words[0], words[1], words[2], args, JoinArgs(args))), ParseLines(after))
    ensures words[0] != [] ==> NamesSound(AsTokens(words) + before) == NamesSound(after)
  {
    hide ParseLines, LineWords, NamesSound;
    var all := words + args;
    assert all[3..] == args && IsEntry(all);
    assert AsTokens(all) == AsTokens(words) + AsTokens(args);
    if before == AsTokens(args) + [LineEnd] + after {
      assert AsTokens(words) + before == AsTokens(all) + ([LineEnd] + after);
      EntryLine(all, [LineEnd] + after);
    } else {
      assert AsTokens(words) + before == AsTokens(all) + [];
      EntryLine(all, []);
    }
  }

  /**
    readConfigurationFile: from the bytes of the file to the table. It stops with an error, or
    builds exactly the entries that apply to this host, in file order, all unused. Only if a word at
    a name position is empty, what the source does is not defined; elsewhere on a line empty words
    are arguments like any other.
   */
  method ReadConfigurationFile(text: seq<byte>, mine: seq<byte> -> bool) returns (r: Loaded)
    ensures r.Undefined? <==> !NamesSound(Tokens(text))
    ensures r.Failed? <==> NamesSound(Tokens(text)) && Meaning(Tokens(text), mine) == Error
    ensures r.Loaded? ==> Meaning(Tokens(text), mine) == Table(Infos(r.table))
    ensures r.Loaded? ==>
              ParseLines(Tokens(text)).Good? && Selected(ParseLines(Tokens(text)).items, mine, Infos(r.table))
    ensures r.Loaded? ==> forall i :: 0 <= i < |r.table| ==> Unused(r.table[i])
  {
    hide Tokens, ParseLines, NamesSound, Selected, Scanner.Tokenizer.Valid, Scanner.Tokenizer.Upcoming;
    var parser := new Parser(text, mine);
    var table: seq<Condata> := [];
    ghost var seen: seq<Item> := [];
    ghost var all := ParseLines(Tokens(text));
    var count := 0;
    while true
      invariant fresh(parser) && fresh(parser.Repr()) && parser.Valid() && parser.mine == mine
      invariant parser.defaultHost == Governing(seen)
      invariant Onward(seen, ParseLines(parser.Upcoming())) == all
      invariant NamesSound(parser.Upcoming()) == NamesSound(Tokens(text))
      invariant Kept(seen, mine) == Infos(table) && count == |table|
      invariant forall i :: 0 <= i < |table| ==> Unused(table[i])
      decreases |parser.Upcoming()|
    {
      ghost var before := table;
      var made;
      made, seen := parser.MakeEntry(seen);
      if made.Astray? {
        return Undefined;
      }
      if made.Exit? {
        return Failed;
      }
      if made.NoMore? {
        break;
      }
      table := table + [made.cdata];
      assert Infos(table) == Infos(before) + [made.cdata.info];
      count := count + 1;
    }
    NoLines();
    NothingSound();
    assert seen + [] == seen;
    if count > MAXCONNECTIONS {
      return Failed;
    }
    MeaningIs(Tokens(text), mine);
    return Loaded(table);
  }

  lemma NoLines()
    ensures ParseLines([]) == Good([])
  {
  }
}
