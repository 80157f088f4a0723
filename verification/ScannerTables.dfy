/**
  The automaton of src/scanner.c: its compressed tables, the step they define, and what each
  state means in terms of the lexical rules.
 */
module ScannerTables {
  import opened Bytes
  import opened Lexicon

  const YY_ACCEPT: seq<int> := [0, 0, 0, 6, 4, 1, 3, 2, 4, 4, 2, 2, 1, 0]
  const YY_META: seq<int> := [0, 1, 2, 3, 1, 1]
  const YY_BASE: seq<int> := [0, 0, 0, 14, 0, 15, 15, 11, 9, 0, 9, 0, 15, 15, 9, 5, 7]
  const YY_DEF: seq<int> := [0, 13, 1, 13, 14, 13, 13, 15, 14, 14, 15, 16, 13, 0, 13, 13, 13]
  const YY_NXT: seq<int> := [0, 4, 5, 6, 7, 8, 10, 10, 11, 11, 9, 11, 12, 11, 13, 3, 13, 13, 13, 13, 13]
  const YY_CHK: seq<int> := [0, 1, 1, 1, 1, 1, 15, 15, 16, 16, 14, 10, 8, 7, 3, 13, 13, 13, 13, 13, 13]

  const START := 1
  const END_OF_BUFFER := 6
  const EOB_STATE := 3
  const JAM := 13
  const JAM_BASE := 15

  type State = s: int | 1 <= s <= 16 witness 1
  type ByteClass = c: int | 0 <= c <= 5

  /** yy_ec: the class of a byte. */
  function Ec(b: byte): ByteClass {
    if b == NUL then 0
    else if b == TAB || b == SPACE then 2
    else if b == NEWLINE then 3
    else if b == HASH then 4
    else if b == BACKSLASH then 5
    else 1
  }

  /** A NUL that belongs to the text counts as an ordinary byte. */
  function TextClass(b: byte): ByteClass {
    if b == NUL then 1 else Ec(b)
  }

  /** The length of the chain of defaults from a state. */
  function Rank(s: State): nat {
    if s == 13 then 0 else if s >= 14 then 1 else if s == 2 then 3 else 2
  }

  /** Where the table entry of a state and a class lies. */
  function Entry(s: State, c: ByteClass): (i: int)
    ensures 0 <= i <= 20
  {
    YY_BASE[s] + c
  }

  lemma DefaultsEnd(s: State, c: ByteClass)
    ensures YY_CHK[Entry(s, c)] == s ==> 1 <= YY_NXT[Entry(s, c)] <= 13
    ensures YY_CHK[Entry(s, c)] != s ==>
              1 <= YY_DEF[s] <= 16 && Rank(YY_DEF[s]) < Rank(s) && 0 <= YY_META[c] <= 5
  {
  }

  /** One step: follow the chain of defaults to an entry that belongs to the state. */
  function Next(s: State, c: ByteClass): (r: State)
    ensures r <= 13
    decreases Rank(s)
  {
    DefaultsEnd(s, c);
    if YY_CHK[Entry(s, c)] == s then YY_NXT[Entry(s, c)]
    else
      var s' := YY_DEF[s];
      Next(s', if s' >= 14 then YY_META[c] else c)
  }

  /** The two loops of the scanner that take a step; the chain of defaults ends. */
  method Step(s0: State, c0: ByteClass) returns (s: State)
    ensures s == Next(s0, c0)
  {
    s := s0;
    var c: ByteClass := c0;
    while YY_CHK[Entry(s, c)] != s
      invariant Next(s, c) == Next(s0, c0)
      decreases Rank(s)
    {
      DefaultsEnd(s, c);
      s := YY_DEF[s];
      if s >= 14 {
        c := YY_META[c];
      }
    }
    DefaultsEnd(s, c);
    s := YY_NXT[Entry(s, c)];
  }

  // ----- the uncompressed rows -----------------------------------------------------------

  lemma Row1(c: ByteClass)
    ensures Next(1, c) == [3, 4, 5, 6, 7, 8][c]
  {
  }

  lemma Row3(c: ByteClass)
    ensures Next(3, c) == JAM
  {
  }

  lemma Row4(c: ByteClass)
    ensures Next(4, c) == Next(9, c) == [3, 9, JAM, JAM, 9, 9][c]
  {
  }

  lemma Row7(c: ByteClass)
    ensures Next(7, c) == Next(10, c) == [3, 10, 11, JAM, 10, 10][c]
  {
  }

  lemma Row8(c: ByteClass)
    ensures Next(8, c) == [3, 9, JAM, 12, 9, 9][c]
  {
  }

  lemma Row11(c: ByteClass)
    ensures Next(11, c) == [3, 11, 11, JAM, 11, 11][c]
  {
  }

  // ----- what the states mean ------------------------------------------------------------

  /** The strings that lead from the start to a state. */
  predicate Means(s: State, t: seq<byte>) {
    match s
    case 1 => t == []
    case 4 => |t| == 1 && IsWordByte(t[0]) && t[0] != HASH && t[0] != BACKSLASH
    case 5 => t == [TAB] || t == [SPACE]
    case 6 => t == [NEWLINE]
    case 7 => t == [HASH]
    case 8 => t == [BACKSLASH]
    case 9 => |t| >= 2 && AllWord(t) && t[0] != HASH
    case 10 => |t| >= 2 && t[0] == HASH && AllWord(t)
    case 11 => |t| >= 2 && t[0] == HASH && NEWLINE !in t && !AllWord(t)
    case 12 => t == [BACKSLASH, NEWLINE]
    case _ => false
  }

  /** States the scanner stops in at once: their base says that every step from them jams. */
  predicate Final(s: State) {
    YY_BASE[s] == JAM_BASE
  }

  lemma FinalStates(s: State)
    requires s <= JAM
    ensures Final(s) <==> s == 5 || s == 6 || s == 12 || s == JAM
  {
  }

  lemma RowsAt(s: State, c: ByteClass)
    requires s == 1 || s == 4 || 7 <= s <= 11
    ensures c == 0 ==> Next(s, c) == EOB_STATE
    ensures s == 1 ==> Next(s, c) == [3, 4, 5, 6, 7, 8][c]
    ensures s == 4 || s == 9 ==> Next(s, c) == [3, 9, JAM, JAM, 9, 9][c]
    ensures s == 7 || s == 10 ==> Next(s, c) == [3, 10, 11, JAM, 10, 10][c]
    ensures s == 8 ==> Next(s, c) == [3, 9, JAM, 12, 9, 9][c]
    ensures s == 11 ==> Next(s, c) == [3, 11, 11, JAM, 11, 11][c]
  {
    hide Next;
    Row1(c);
    Row4(c);
    Row7(c);
    Row8(c);
    Row11(c);
  }

  /** A step on a byte of the text keeps the meaning, or jams where no rule can match any further. */
  lemma StepMeans(s: State, t: seq<byte>, b: byte)
    requires Means(s, t) && !Final(s)
    ensures var n := Next(s, TextClass(b));
            if n == JAM then t != [] && forall r, u: seq<byte> :: t + [b] <= u ==> !Matches(r, u)
            else Means(n, t + [b])
  {
    hide Next;
    FinalStates(s);
    var t' := t + [b];
    RowsAt(s, TextClass(b));
    assert t'[|t|] == b && forall i :: 0 <= i < |t| ==> t'[i] == t[i];
    var n := Next(s, TextClass(b));
    if n == JAM {
      forall r, u: seq<byte> | t' <= u ensures !Matches(r, u) {
        assert u[0] == t'[0] == t[0] && u[|t|] == t'[|t|] == b;
        assert b in u && |u| >= 2;
        assert u[1] == t'[1];
      }
    }
  }

  /** A state the scanner stops in without jamming: no rule matches any further either. */
  lemma FinalMeans(s: State, t: seq<byte>)
    requires Means(s, t) && Final(s)
    ensures forall r, u: seq<byte> :: t < u ==> !Matches(r, u)
  {
    FinalStates(s);
    forall r, u: seq<byte> | t < u ensures !Matches(r, u) {
      assert u[0] == t[0];
      if |t| == 2 {
        assert u[1] == t[1];
      }
    }
  }

  /** What a state accepts is the earliest rule that matches, and never the default rule. */
  lemma AcceptMeans(s: State, t: seq<byte>)
    requires Means(s, t) && t != []
    ensures 1 <= YY_ACCEPT[s] <= 4 && Matches(YY_ACCEPT[s], t)
    ensures forall r :: Matches(r, t) ==> YY_ACCEPT[s] <= r
  {
    if s == 9 || s == 10 {
      assert IsWordByte(t[0]);
      assert NEWLINE !in t;
    }
  }

  lemma StartAccepts()
    ensures YY_ACCEPT[START] == 0 && YY_ACCEPT[JAM] == 0 && YY_ACCEPT[EOB_STATE] == END_OF_BUFFER
  {
  }

  // ----- runs ------------------------------------------------------------------------------

  /** The state after the bytes `t` of one lexeme. */
  function Run(t: seq<byte>): (s: State)
    ensures s <= JAM
  {
    if t == [] then START else Next(Run(t[..|t| - 1]), TextClass(t[|t| - 1]))
  }

  lemma JamStays(s: State, c: ByteClass)
    requires s <= JAM && Final(s) && c != 0
    ensures Next(s, c) == JAM
  {
    FinalStates(s);
  }

  lemma {:induction false} RunMeans(t: seq<byte>)
    ensures Run(t) == JAM || Means(Run(t), t)
    ensures t != [] && Run(t) != JAM ==> !Final(Run(t[..|t| - 1]))
    decreases |t|
  {
    hide Next;
    if t != [] {
      var t', b := t[..|t| - 1], t[|t| - 1];
      assert t == t' + [b];
      RunMeans(t');
      if Final(Run(t')) {
        JamStays(Run(t'), TextClass(b));
      } else {
        FinalStates(JAM);
        StepMeans(Run(t'), t', b);
      }
    }
  }

  lemma RunStart()
    ensures Run([]) == START && !Final(START)
  {
  }

  lemma RunExtend(t: seq<byte>, b: byte)
    ensures Run(t + [b]) == Next(Run(t), TextClass(b))
  {
    assert (t + [b])[..|t|] == t;
  }

  /** One turn of the match loop, on a byte of the buffer. */
  lemma MatchTurn(t: seq<byte>, b: byte)
    requires !Final(Run(t))
    ensures Run(t) != EOB_STATE && Run(t) != JAM
    ensures YY_ACCEPT[Run(t)] == 0 <==> t == []
    ensures b == NUL ==> Next(Run(t), Ec(b)) == EOB_STATE
    ensures b != NUL ==> Next(Run(t), Ec(b)) == Run(t + [b]) != EOB_STATE
    ensures t == [] ==> Run(t + [b]) != JAM
  {
    hide Next;
    RunMeans(t);
    FinalStates(JAM);
    FinalStates(Run(t));
    if t == [] {
      StartAccepts();
    } else {
      AcceptMeans(Run(t), t);
    }
    RowsAt(Run(t), Ec(b));
    RunExtend(t, b);
    RunMeans(t + [b]);
    RowsAt(Run(t), TextClass(b));
  }

  /** A scan that stopped after `n` bytes has found flex's choice, wherever it stopped for good reason. */
  lemma LexemeFound(text: seq<byte>, n: nat)
    requires 1 <= n <= |text| && Run(text[..n]) != JAM
    requires n == |text| || Final(Run(text[..n])) || Run(text[..n + 1]) == JAM
    ensures IsLexeme(text, YY_ACCEPT[Run(text[..n])], n)
    ensures 1 <= YY_ACCEPT[Run(text[..n])] <= 4
  {
    hide Next, Run;
    var t := text[..n];
    var s := Run(t);
    RunMeans(t);
    AcceptMeans(s, t);
    if n < |text| {
      assert text[..n + 1] == t + [text[n]];
      RunExtend(t, text[n]);
      if Final(s) {
        FinalMeans(s, t);
      } else {
        StepMeans(s, t, text[n]);
      }
      forall r, m | n < m <= |text| ensures !Matches(r, text[..m]) {
        assert t < text[..m] && t + [text[n]] <= text[..m];
      }
    }
  }

  /** A NUL never stops a scan. */
  lemma NulGoesOn(t: seq<byte>)
    requires !Final(Run(t))
    ensures Next(Run(t), 1) == Run(t + [NUL]) && !Final(Run(t + [NUL]))
  {
    hide Next, Run;
    MatchTurn(t, NUL);
    RunMeans(t);
    FinalStates(Run(t));
    RowsAt(Run(t), 1);
    RunExtend(t, NUL);
    FinalStates(Run(t + [NUL]));
  }
}
