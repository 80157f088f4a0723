/**
  The configuration file: what its lines mean, and the parser of src/support.c that turns the
  scanner's tokens into the connection table of this host.
 */
module Config {
  import opened Bytes
  import opened Lexicon

  const MAXCONNECTIONS := 512
  const MAXUSERNAME := 16
  const MAXCONNECTIONNAME := 16
  const MAXCLASSNAME := 16
  const MAXARGLENGTH := 64
  const MAXNUMBERARGS := 16
  const BADPID := -1

  /** The part of `struct condata` that comes from the file. */
  datatype Info = Info(conname: seq<byte>, conclass: seq<byte>, conprog: seq<byte>,
                       progargs: seq<seq<byte>>, argsline: seq<byte>)

  /** `struct condata`: `user` is the whole 16-byte field. */
  datatype Condata = Condata(info: Info, user: seq<byte>, conpid: int, contime: int)

  // ----- what a configuration text means --------------------------------------------------

  datatype Item = Host(name: seq<byte>) | Entry(info: Info)
  datatype Items = Bad | Good(items: seq<Item>)

  function LineWords(tokens: seq<Token>): seq<seq<byte>> {
    if tokens == [] || tokens[0] == LineEnd then []
    else [tokens[0].value] + LineWords(tokens[1..])
  }

  function AfterLine(tokens: seq<Token>): (rest: seq<Token>)
    ensures tokens != [] ==> |rest| < |tokens|
  {
    if tokens == [] then [] else if tokens[0] == LineEnd then tokens[1..] else AfterLine(tokens[1..])
  }

  /** The arguments with one space between them. */
  function JoinArgs(args: seq<seq<byte>>): seq<byte> {
    if args == [] then []
    else if |args| == 1 then args[0]
    else JoinArgs(args[..|args| - 1]) + [SPACE] + args[|args| - 1]
  }

  predicate IsHeader(word: seq<byte>) {
    word != [] && word[|word| - 1] == COLON
  }

  /** An entry is a name, a class, a program and up to 16 arguments, each within its length. */
  predicate IsEntry(words: seq<seq<byte>>) {
    3 <= |words| <= 3 + MAXNUMBERARGS
    && |words[0]| < MAXCONNECTIONNAME && |words[1]| < MAXCLASSNAME
    && forall i :: 3 <= i < |words| ==> |words[i]| < MAXARGLENGTH
  }

  function EntryOf(words: seq<seq<byte>>): Info
    requires |words| >= 3
  {
    Info(words[0], words[1], words[2], words[3..], JoinArgs(words[3..]))
  }

  function Prepend(item: Item, rest: Items): Items {
    match rest case Bad => Bad case Good(items) => Good([item] + items)
  }

  function Append(first: Items, rest: Items): Items {
    if first.Bad? || rest.Bad? then Bad else Good(first.items + rest.items)
  }

  /** One line: any number of host headers, then at most one entry. */
  function ParseWords(words: seq<seq<byte>>): Items {
    if words == [] then Good([])
    else if IsHeader(words[0]) then Prepend(Host(words[0][..|words[0]| - 1]), ParseWords(words[1..]))
    else if IsEntry(words) then Good([Entry(EntryOf(words))])
    else Bad
  }

  function ParseLines(tokens: seq<Token>): Items
    decreases |tokens|
  {
    if tokens == [] then Good([]) else Append(ParseWords(LineWords(tokens)), ParseLines(AfterLine(tokens)))
  }

  // ----- words at name positions --------------------------------------------------------------

  /** The words it takes for a header or a name are not empty: it looks at their last byte. */
  predicate SoundLine(words: seq<seq<byte>>) {
    words == [] || (words[0] != [] && (IsHeader(words[0]) ==> SoundLine(words[1..])))
  }

  /** So it is on every line, up to the first bad one. */
  predicate NamesSound(tokens: seq<Token>)
    decreases |tokens|
  {
    tokens == []
    || (SoundLine(LineWords(tokens))
        && (ParseWords(LineWords(tokens)).Good? ==> NamesSound(AfterLine(tokens))))
  }

  lemma {:induction false} LineSound(words: seq<seq<byte>>)
    requires forall i :: 0 <= i < |words| ==> words[i] != []
    ensures SoundLine(words)
  {
    if words != [] {
      LineSound(words[1..]);
    }
  }

  lemma {:induction false} SoundParts(tokens: seq<Token>)
    requires Sound(tokens)
    ensures forall i :: 0 <= i < |LineWords(tokens)| ==> LineWords(tokens)[i] != []
    ensures Sound(AfterLine(tokens))
  {
    if tokens != [] {
      assert Sound(tokens[1..]);
      SoundParts(tokens[1..]);
    }
  }

  lemma {:induction false} SoundNames(tokens: seq<Token>)
    requires Sound(tokens)
    ensures NamesSound(tokens)
    decreases |tokens|
  {
    if tokens != [] {
      SoundParts(tokens);
      LineSound(LineWords(tokens));
      SoundNames(AfterLine(tokens));
    }
  }

  /** Every file without NULs qualifies. */
  lemma {:induction false} NulFreeFile(text: seq<byte>)
    requires NUL !in text
    ensures NamesSound(Tokens(text))
  {
    WordsNonempty(text);
    SoundNames(Tokens(text));
  }

  // ----- which entries apply --------------------------------------------------------------------

  /** The host the last header before this point names; none if there is none, or it is empty. */
  function Governing(items: seq<Item>): Option<seq<byte>> {
    if items == [] then None
    else match items[|items| - 1]
      case Host(name) => if name == [] then None else Some(name)
      case Entry(_) => Governing(items[..|items| - 1])
  }

  predicate Applies(host: Option<seq<byte>>, mine: seq<byte> -> bool) {
    host.None? || mine(host.value)
  }

  /** The entries that apply to this host, in file order. */
  function Kept(items: seq<Item>, mine: seq<byte> -> bool): seq<Info> {
    if items == [] then []
    else
      var last := items[|items| - 1];
      var before := items[..|items| - 1];
      Kept(before, mine)
      + if last.Entry? && Applies(Governing(before), mine) then [last.info] else []
  }

  datatype Result = Error | Table(infos: seq<Info>)

  function Meaning(tokens: seq<Token>, mine: seq<byte> -> bool): Result {
    match ParseLines(tokens)
    case Bad => Error
    case Good(items) =>
      if |Kept(items, mine)| > MAXCONNECTIONS then Error else Table(Kept(items, mine))
  }

  // ----- limits ---------------------------------------------------------------------------

  predicate WithinLimits(info: Info) {
    |info.conname| < MAXCONNECTIONNAME && NUL !in info.conname
    && |info.conclass| < MAXCLASSNAME && NUL !in info.conclass
    && |info.progargs| <= MAXNUMBERARGS
    && (forall i :: 0 <= i < |info.progargs| ==> |info.progargs[i]| < MAXARGLENGTH)
    && info.argsline == JoinArgs(info.progargs)
  }

  lemma {:induction false} JoinArgsBound(args: seq<seq<byte>>)
    requires forall i :: 0 <= i < |args| ==> |args[i]| < MAXARGLENGTH
    ensures args != [] ==> |JoinArgs(args)| < MAXARGLENGTH * |args|
    ensures args == [] ==> JoinArgs(args) == []
  {
    if |args| > 1 {
      JoinArgsBound(args[..|args| - 1]);
    }
  }

  /** `argsline` and its terminator fit the 1024 bytes of their field. */
  lemma ArgslineFits(info: Info)
    requires WithinLimits(info)
    ensures |info.argsline| + 1 <= MAXNUMBERARGS * MAXARGLENGTH
  {
    JoinArgsBound(info.progargs);
  }

  lemma {:induction false} ParsedWithinLimits(words: seq<seq<byte>>)
    requires forall i :: 0 <= i < |words| ==> NUL !in words[i]
    ensures ParseWords(words).Good? ==>
              forall i :: 0 <= i < |ParseWords(words).items| && ParseWords(words).items[i].Entry? ==>
                WithinLimits(ParseWords(words).items[i].info)
  {
    if words != [] && IsHeader(words[0]) {
      ParsedWithinLimits(words[1..]);
    } else if IsEntry(words) {
      assert forall i :: 0 <= i < |words[3..]| ==> words[3..][i] == words[i + 3];
    }
  }

  lemma {:induction false} LineClean(tokens: seq<Token>)
    requires CleanTokens(tokens)
    ensures forall i :: 0 <= i < |LineWords(tokens)| ==> NUL !in LineWords(tokens)[i]
    ensures CleanTokens(AfterLine(tokens))
  {
    if tokens != [] {
      assert CleanTokens(tokens[1..]);
      LineClean(tokens[1..]);
    }
  }

  lemma {:induction false} LinesWithinLimits(tokens: seq<Token>)
    requires CleanTokens(tokens)
    ensures ParseLines(tokens).Good? ==>
              forall i :: 0 <= i < |ParseLines(tokens).items| && ParseLines(tokens).items[i].Entry? ==>
                WithinLimits(ParseLines(tokens).items[i].info)
    decreases |tokens|
  {
    if tokens != [] {
      LineClean(tokens);
      ParsedWithinLimits(LineWords(tokens));
      LinesWithinLimits(AfterLine(tokens));
    }
  }

  lemma {:induction false} KeptWithinLimits(items: seq<Item>, mine: seq<byte> -> bool)
    requires forall i :: 0 <= i < |items| && items[i].Entry? ==> WithinLimits(items[i].info)
    ensures forall i :: 0 <= i < |Kept(items, mine)| ==> WithinLimits(Kept(items, mine)[i])
    decreases |items|
  {
    if items != [] {
      KeptWithinLimits(items[..|items| - 1], mine);
    }
  }

  /** Every entry of an accepted table is within the limits. */
  lemma MeaningWithinLimits(text: seq<byte>, mine: seq<byte> -> bool)
    ensures var m := Meaning(Tokens(text), mine);
            m.Table? ==> |m.infos| <= MAXCONNECTIONS && forall i :: 0 <= i < |m.infos| ==> WithinLimits(m.infos[i])
  {
    var tokens := Tokens(text);
    WordsClean(text);
    LinesWithinLimits(tokens);
    if ParseLines(tokens).Good? {
      KeptWithinLimits(ParseLines(tokens).items, mine);
    }
  }

  // ----- how the parser walks through a line ------------------------------------------------

  function AsTokens(words: seq<seq<byte>>): (r: seq<Token>)
    ensures |r| == |words|
  {
    seq(|words|, i requires 0 <= i < |words| => Word(words[i]))
  }

  lemma {:induction false} LineOf(words: seq<seq<byte>>, rest: seq<Token>)
    requires rest == [] || rest[0] == LineEnd
    ensures LineWords(AsTokens(words) + rest) == words
    ensures AfterLine(AsTokens(words) + rest) == if rest == [] then [] else rest[1..]
    decreases |words|
  {
    var tokens := AsTokens(words) + rest;
    if words == [] {
      assert tokens == rest;
    } else {
      assert tokens[1..] == AsTokens(words[1..]) + rest;
      LineOf(words[1..], rest);
    }
  }

  lemma {:induction false} LineStarts(words: seq<seq<byte>>, rest: seq<Token>)
    ensures LineWords(AsTokens(words) + rest) == words + LineWords(rest)
    decreases |words|
  {
    var tokens := AsTokens(words) + rest;
    if words == [] {
      assert tokens == rest;
    } else {
      assert tokens[1..] == AsTokens(words[1..]) + rest;
      LineStarts(words[1..], rest);
    }
  }

  /** More arguments, or longer ones, than an entry can have. */
  predicate TooMuch(args: seq<seq<byte>>) {
    |args| > MAXNUMBERARGS || exists i :: 0 <= i < |args| && |args[i]| >= MAXARGLENGTH
  }

  lemma NextArgFits(args: seq<seq<byte>>, arg: seq<byte>, more: seq<seq<byte>>)
    requires !TooMuch(args)
    ensures if |args| >= MAXNUMBERARGS || |arg| >= MAXARGLENGTH then TooMuch(args + [arg] + more)
            else !TooMuch(args + [arg])
  {
    assert (args + [arg] + more)[|args|] == arg;
  }

  /** One more argument. */
  lemma NextArg(args: seq<seq<byte>>, arg: seq<byte>, later: seq<Token>)
    ensures AsTokens(args) + ([Word(arg)] + later) == AsTokens(args + [arg]) + later
    ensures LineWords(AsTokens(args + [arg]) + later) == args + [arg] + LineWords(later)
    ensures JoinArgs(args + [arg]) == if args == [] then arg else JoinArgs(args) + [SPACE] + arg
  {
    assert AsTokens(args + [arg]) == AsTokens(args) + [Word(arg)];
    LineStarts(args + [arg], later);
    assert (args + [arg])[..|args|] == args;
  }

  /** An empty word at the beginning of a line is one at a name position. */
  lemma EmptyName(rest: seq<Token>)
    ensures !NamesSound([Word([])] + rest)
  {
    assert LineWords([Word([])] + rest)[0] == [];
  }

  lemma NothingSound()
    ensures NamesSound([])
  {
  }

  /** A file that begins with a NUL, and goes on with a newline: its first word is empty. */
  lemma NulFile()
    ensures var text := [NUL, NEWLINE];
            Tokens(text) == [Word([]), LineEnd] && !NamesSound(Tokens(text))
  {
    var text := [NUL, NEWLINE];
    assert text[1..] == [NEWLINE] && text[1..][1..] == [];
    assert Span(text, true) == 1 + Span([NEWLINE], true);
    assert CStr(text[..1]) == [];
    assert Tokens([NEWLINE]) == [LineEnd] + Tokens([]);
    EmptyName([LineEnd]);
    assert [Word([])] + [LineEnd] == [Word([]), LineEnd];
  }

  lemma BlankLine(rest: seq<Token>)
    ensures ParseLines([LineEnd] + rest) == ParseLines(rest)
    ensures NamesSound([LineEnd] + rest) == NamesSound(rest)
  {
    var tokens := [LineEnd] + rest;
    assert tokens[1..] == rest;
    assert ParseWords(LineWords(tokens)) == Good([]);
    var p := ParseLines(rest);
    if p.Good? {
      assert [] + p.items == p.items;
    }
  }

  lemma HeaderSound(word: seq<byte>, rest: seq<Token>)
    requires IsHeader(word)
    ensures NamesSound([Word(word)] + rest) == NamesSound(rest)
  {
    var tokens := [Word(word)] + rest;
    assert tokens[1..] == rest;
    var line := LineWords(tokens);
    assert line[0] == word && line[1..] == LineWords(rest);
    assert SoundLine(line) == SoundLine(line[1..]) && ParseWords(line).Good? == ParseWords(line[1..]).Good?;
    if rest == [] {
      assert AfterLine(tokens) == [];
    }
  }

  lemma HeaderFirst(word: seq<byte>, rest: seq<Token>)
    requires IsHeader(word)
    ensures ParseLines([Word(word)] + rest) == Prepend(Host(word[..|word| - 1]), ParseLines(rest))
    ensures NamesSound([Word(word)] + rest) == NamesSound(rest)
  {
    HeaderSound(word, rest);
    hide NamesSound, SoundLine;
    var tokens := [Word(word)] + rest;
    assert tokens[1..] == rest;
    var host := Host(word[..|word| - 1]);
    var line, later := ParseWords(LineWords(rest)), ParseLines(AfterLine(rest));
    assert LineWords(tokens)[1..] == LineWords(rest);
    assert ParseLines(tokens) == Append(Prepend(host, line), later);
    if rest == [] {
      assert line == Good([]) && later == Good([]);
      assert [host] + [] + [] == [host];
    } else if line.Good? && later.Good? {
      assert [host] + line.items + later.items == [host] + (line.items + later.items);
    }
  }

  lemma EntryLine(words: seq<seq<byte>>, rest: seq<Token>)
    requires words != [] && !IsHeader(words[0]) && IsEntry(words)
    requires rest == [] || rest[0] == LineEnd
    ensures ParseLines(AsTokens(words) + rest)
            == Prepend(Entry(EntryOf(words)), ParseLines(if rest == [] then [] else rest[1..]))
    ensures words[0] != [] ==> NamesSound(AsTokens(words) + rest) == NamesSound(if rest == [] then [] else rest[1..])
  {
    LineOf(words, rest);
  }

  lemma BadLine(words: seq<seq<byte>>, rest: seq<Token>)
    requires words != [] && !IsHeader(words[0]) && !IsEntry(words + LineWords(rest))
    ensures ParseLines(AsTokens(words) + rest) == Bad
    ensures words[0] != [] ==> NamesSound(AsTokens(words) + rest)
  {
    LineStarts(words, rest);
    assert (words + LineWords(rest))[0] == words[0];
  }

  // ----- which entries are kept, and what they hold ----------------------------------------------

  /** Item `i` is an entry under no header, or under a nearest header that names no host, or this one. */
  ghost predicate IsMine(items: seq<Item>, i: nat, mine: seq<byte> -> bool) {
    i < |items| && items[i].Entry?
    && ((forall j :: 0 <= j < i ==> items[j].Entry?)
        || exists j :: 0 <= j < i && items[j].Host? && (forall l :: j < l < i ==> items[l].Entry?)
                       && (items[j].name == [] || mine(items[j].name)))
  }

  /** `infos` are exactly these entries, at the places `at`, in the order of the file. */
  ghost predicate SelectedAt(items: seq<Item>, mine: seq<byte> -> bool, at: seq<nat>, infos: seq<Info>) {
    |at| == |infos|
    && (forall k :: 0 <= k < |at| ==> IsMine(items, at[k], mine) && items[at[k]].info == infos[k])
    && (forall k, l :: 0 <= k < l < |at| ==> at[k] < at[l])
    && forall i: nat :: IsMine(items, i, mine) ==> i in at
  }

  ghost predicate Selected(items: seq<Item>, mine: seq<byte> -> bool, infos: seq<Info>) {
    exists at: seq<nat> :: SelectedAt(items, mine, at, infos)
  }

  /** Later items change nothing. */
  lemma MineBefore(items: seq<Item>, n: nat, i: nat, mine: seq<byte> -> bool)
    requires i < n <= |items|
    ensures IsMine(items[..n], i, mine) == IsMine(items, i, mine)
  {
    assert forall j :: 0 <= j < n ==> items[..n][j] == items[j];
  }

  lemma {:induction false} GoverningIs(items: seq<Item>)
    ensures var g := Governing(items);
            if forall j :: 0 <= j < |items| ==> items[j].Entry? then g == None
            else exists j :: 0 <= j < |items| && items[j].Host? && (forall l :: j < l < |items| ==> items[l].Entry?)
                             && g == if items[j].name == [] then None else Some(items[j].name)
  {
    if items != [] && items[|items| - 1].Entry? {
      var before := items[..|items| - 1];
      GoverningIs(before);
      assert forall j :: 0 <= j < |before| ==> before[j] == items[j];
    }
  }

  lemma LastIsMine(items: seq<Item>, mine: seq<byte> -> bool)
    requires items != [] && items[|items| - 1].Entry?
    ensures IsMine(items, |items| - 1, mine) <==> Applies(Governing(items[..|items| - 1]), mine)
  {
    var n := |items| - 1;
    var before := items[..n];
    GoverningIs(before);
    assert forall j :: 0 <= j < n ==> before[j] == items[j];
    if !(forall j :: 0 <= j < n ==> items[j].Entry?) {
      var j :| 0 <= j < n && items[j].Host? && (forall l :: j < l < n ==> items[l].Entry?)
               && Governing(before) == if items[j].name == [] then None else Some(items[j].name);
      forall j' | 0 <= j' < n && items[j'].Host? && (forall l :: j' < l < n ==> items[l].Entry?) ensures j' == j {
      }
    }
  }

  lemma SelectedSame(items: seq<Item>, mine: seq<byte> -> bool, at: seq<nat>, infos: seq<Info>)
    requires items != [] && SelectedAt(items[..|items| - 1], mine, at, infos) && !IsMine(items, |items| - 1, mine)
    ensures SelectedAt(items, mine, at, infos)
  {
    MineBeforeLast(items, mine);
    MineInside(items, mine);
    MineInside(items[..|items| - 1], mine);
    hide IsMine;
  }

  lemma SelectedMore(items: seq<Item>, mine: seq<byte> -> bool, at: seq<nat>, infos: seq<Info>)
    requires items != [] && SelectedAt(items[..|items| - 1], mine, at, infos) && IsMine(items, |items| - 1, mine)
    ensures SelectedAt(items, mine, at + [|items| - 1], infos + [items[|items| - 1].info])
  {
    MineBeforeLast(items, mine);
    MineInside(items, mine);
    MineInside(items[..|items| - 1], mine);
    hide IsMine;
  }

  lemma MineBeforeLast(items: seq<Item>, mine: seq<byte> -> bool)
    requires items != []
    ensures forall i: nat :: i < |items| - 1 ==> IsMine(items[..|items| - 1], i, mine) == IsMine(items, i, mine)
  {
    forall i: nat | i < |items| - 1 ensures IsMine(items[..|items| - 1], i, mine) == IsMine(items, i, mine) {
      MineBefore(items, |items| - 1, i, mine);
    }
  }

  lemma NothingSelected(mine: seq<byte> -> bool)
    ensures SelectedAt([], mine, [], [])
  {
  }

  /** The entries of a table are exactly those that are this host's, in file order. */
  lemma {:induction false} KeptIs(items: seq<Item>, mine: seq<byte> -> bool) returns (at: seq<nat>)
    ensures SelectedAt(items, mine, at, Kept(items, mine))
    decreases |items|
  {
    hide IsMine, Applies, Governing, SelectedAt;
    if items == [] {
      NothingSelected(mine);
      return [];
    }
    var n := |items| - 1;
    at := KeptIs(items[..n], mine);
    if items[n].Entry? {
      LastIsMine(items, mine);
    } else {
      HeaderNotMine(items, mine);
    }
    if items[n].Entry? && Applies(Governing(items[..n]), mine) {
      SelectedMore(items, mine, at, Kept(items[..n], mine));
      at := at + [n];
    } else {
      SelectedSame(items, mine, at, Kept(items[..n], mine));
      assert Kept(items[..n], mine) + [] == Kept(items[..n], mine);
    }
  }

  lemma HeaderNotMine(items: seq<Item>, mine: seq<byte> -> bool)
    requires items != [] && items[|items| - 1].Host?
    ensures !IsMine(items, |items| - 1, mine)
  {
  }

  lemma MineInside(items: seq<Item>, mine: seq<byte> -> bool)
    ensures forall i: nat :: IsMine(items, i, mine) ==> i < |items| && items[i].Entry?
  {
  }

  /** A table is refused exactly if a line is bad, or more than 512 entries are this host's. */
  lemma {:induction false} MeaningIs(tokens: seq<Token>, mine: seq<byte> -> bool)
    ensures var lines := ParseLines(tokens);
            match Meaning(tokens, mine)
            case Table(infos) => lines.Good? && Selected(lines.items, mine, infos) && |infos| <= 512
            case Error => lines.Good? ==> exists infos :: Selected(lines.items, mine, infos) && |infos| > 512
  {
    var lines := ParseLines(tokens);
    hide ParseLines, Kept, SelectedAt;
    if lines.Good? {
      var at := KeptIs(lines.items, mine);
      assert Selected(lines.items, mine, Kept(lines.items, mine));
    }
  }

  /** The arguments are joined by single spaces. */
  lemma {:induction false} JoinedBySpaces(args: seq<seq<byte>>)
    ensures args == [] ==> JoinArgs(args) == []
    ensures args != [] ==>
              JoinArgs(args) == args[0] + Flatten(seq(|args| - 1, i requires 0 <= i < |args| - 1 => [32] + args[i + 1]))
  {
    if |args| > 1 {
      var before := args[..|args| - 1];
      JoinedBySpaces(before);
      var tails := seq(|before| - 1, i requires 0 <= i < |before| - 1 => [32] + before[i + 1]);
      var last := [32] + args[|args| - 1];
      assert seq(|args| - 1, i requires 0 <= i < |args| - 1 => [32] + args[i + 1]) == tails + [last];
      FlattenMore(tails, last);
      assert JoinArgs(args) == args[0] + Flatten(tails) + [32] + args[|args| - 1];
    } else if |args| == 1 {
      assert args[0] + [] == args[0];
    }
  }

  /**
    A line that does not begin with a header, in full: a name and a class of up to 15 bytes, a
    program, and up to 16 arguments of up to 63 bytes; anything else is bad.
   */
  lemma {:induction false} LineMeans(words: seq<seq<byte>>, rest: seq<Token>)
    requires words != [] && words[0] != [] && words[0][|words[0]| - 1] != 58
    ensures var sized := 3 <= |words| <= 19 && |words[0]| <= 15 && |words[1]| <= 15
                         && forall i :: 3 <= i < |words| ==> |words[i]| <= 63;
            ParseLines(AsTokens(words) + ([LineEnd] + rest)) ==
            if sized then
              Prepend(Entry(Info(words[0], words[1], words[2], words[3..], JoinArgs(words[3..]))), ParseLines(rest))
            else Bad
  {
    hide ParseLines, LineWords, JoinArgs;
    var end := [LineEnd] + rest;
    assert end[1..] == rest;
    if IsEntry(words) {
      EntryLine(words, end);
    } else {
      EmptyLine(rest);
      assert words + [] == words;
      BadLine(words, end);
    }
  }

  lemma EmptyLine(rest: seq<Token>)
    ensures LineWords([LineEnd] + rest) == []
  {
  }

  /** A word that ends with a colon at the beginning of a line is a header, and its line goes on behind it. */
  lemma HeaderMeans(name: seq<byte>, rest: seq<Token>)
    ensures ParseLines([Word(name + [58])] + rest) == Prepend(Host(name), ParseLines(rest))
  {
    var word := name + [58];
    assert word[..|word| - 1] == name;
    HeaderFirst(word, rest);
  }
}
