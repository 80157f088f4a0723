/**
  The scanner of src/scanner.c: the match loop over the tables, and the buffer that is refilled,
  shifted and grown beneath it. Whatever the sizes of the reads, it returns the tokens of the
  text.
 */
module Scanner {
  import opened Bytes
  import opened Lexicon
  import opened ScannerTables

  datatype Status = New | Normal | EofPending
  datatype EobAction = ContinueScan | EndOfFile | LastMatch

  const YY_READ_BUF_SIZE := 8192
  const YY_BUF_SIZE := 16384

  /** The scan jammed on the byte after `text[..n]`. */
  ghost predicate MatchJammed(text: seq<byte>, limit: int, s: State, n: int) {
    0 < n < limit <= |text| && s == Run(text[..n]) != JAM && Run(text[..n + 1]) == JAM
  }

  /** The scan is done after `text[..n]`, in state `s`, with flex's choice. */
  ghost predicate Stopped(text: seq<byte>, s: State, n: int) {
    s <= JAM && 0 < n && 1 <= YY_ACCEPT[s] <= 4 && IsLexeme(text, YY_ACCEPT[s], n)
  }

  /** The scan met a NUL, the last of `text[..n]`. */
  ghost predicate MatchEnded(text: seq<byte>, limit: int, n: int) {
    0 < n <= limit + 1 && n <= |text| && text[n - 1] == NUL && !Final(Run(text[..n - 1]))
  }

  lemma JammedFound(head: seq<byte>, text: seq<byte>, limit: nat, s: State, n: int)
    requires limit <= |head| && limit <= |text| && head[..limit] == text[..limit]
    requires MatchJammed(head, limit, s, n)
    ensures Stopped(text, s, n) && s < JAM
  {
    hide Run, IsLexeme;
    assert head[..n] == head[..limit][..n] == text[..n];
    assert head[..n + 1] == head[..limit][..n + 1] == text[..n + 1];
    LexemeFound(text, n);
  }

  lemma FinalFound(head: seq<byte>, text: seq<byte>, limit: nat, n: int)
    requires limit <= |head| && limit <= |text| && head[..limit] == text[..limit]
    requires 0 < n <= limit && Run(head[..n]) != JAM && Final(Run(head[..n]))
    ensures Stopped(text, Run(head[..n]), n)
  {
    hide Run, IsLexeme;
    assert head[..n] == head[..limit][..n] == text[..n];
    LexemeFound(text, n);
  }

  /** How the scan of a lexeme goes on when a NUL was met. */
  datatype Resume = Rematch | TakeLast | AtEnd

  class Scanner {
    /** The part of the file that has not been read. */
    var file: seq<byte>

    // The buffer, and the globals that point into it.
    var buf: array<byte>
    var bufSize: nat
    var nChars: nat
    var cBufP: nat
    var textPtr: nat
    var holdChar: byte
    var status: Status
    var lastState: State
    var lastCpos: nat

    /** The buffer ends in two NULs, and a pending end of file leaves nothing to read. */
    ghost predicate Shape()
      reads this, buf
    {
      buf.Length == bufSize + 2 && 1 <= bufSize && nChars <= bufSize
      && buf[nChars] == NUL && buf[nChars + 1] == NUL
      && (status == EofPending ==> file == [])
    }

    ghost predicate Valid()
      reads this, buf
    {
      Shape() && textPtr <= cBufP <= nChars && (cBufP == nChars ==> holdChar == NUL)
    }

    /** The text that has not been scanned: the byte held back, the rest of the buffer, the file. */
    ghost function Unread(): seq<byte>
      requires Valid()
      reads this, buf
    {
      (if cBufP < nChars then [holdChar] + buf[cBufP + 1..nChars] else []) + file
    }

    constructor (text: seq<byte>, size: nat)
      requires 1 <= size
      ensures Valid() && Unread() == text && fresh(buf)
    {
      file := text;
      bufSize := size;
      buf := new byte[size + 2](_ => NUL);
      nChars, cBufP, textPtr, holdChar, status := 0, 0, 0, NUL, New;
      lastState, lastCpos := START, 0;
    }

    // ----- the match loop ------------------------------------------------------------------

    /**
      From a state that is neither jammed nor final, to the byte where it becomes so. The last
      accepting state is left behind; it is the end-of-buffer state when a NUL was met. `text`
      is the buffer from the start `bp` of the lexeme.
     */
    method Match(bp: nat, s0: State, cp0: nat, ghost text: seq<byte>) returns (s: State, cp: nat)
      requires Shape() && bp <= cp0 <= nChars && text == buf[bp..]
      requires s0 == Run(text[..cp0 - bp]) && !Final(s0)
      modifies this`lastState, this`lastCpos
      ensures s != JAM ==> cp0 < cp <= nChars && Final(s) && s == Run(text[..cp - bp])
      ensures s == JAM && lastState != EOB_STATE ==> MatchJammed(text, nChars - bp, lastState, lastCpos - bp)
      ensures s == JAM && lastState == EOB_STATE ==> cp0 < lastCpos && MatchEnded(text, nChars - bp, lastCpos - bp)
    {
      hide Next, Run;
      s, cp := s0, cp0;
      MatchTurn(text[..cp0 - bp], NUL);
      while true
        invariant bp <= cp0 <= cp <= nChars + 1 && !Final(s)
        invariant s != EOB_STATE ==> cp <= nChars && s == Run(text[..cp - bp])
        invariant s == EOB_STATE ==> cp0 < cp && MatchEnded(text, nChars - bp, cp - bp)
        decreases nChars + 1 - cp
      {
        var c := Ec(buf[cp]);
        if YY_ACCEPT[s] != 0 {
          lastState := s;
          lastCpos := cp;
        }
        if s == EOB_STATE {
          Row3(c);
        } else {
          MatchTurn(text[..cp - bp], text[cp - bp]);
          assert text[..cp + 1 - bp] == text[..cp - bp] + [text[cp - bp]];
        }
        s := Step(s, c);
        cp := cp + 1;
        if YY_BASE[s] == JAM_BASE {
          return;
        }
      }
    }

    // ----- end of the buffer ----------------------------------------------------------------

    /** Runs the automaton again over the part of a lexeme that is in the buffer. */
    method GetPreviousState() returns (s: State)
      requires Shape() && textPtr <= cBufP <= nChars
      requires !Final(Run(buf[textPtr..cBufP]))
      modifies this`lastState, this`lastCpos
      ensures s == Run(buf[textPtr..cBufP])
    {
      hide Next, Run;
      ghost var t := buf[textPtr..cBufP];
      RunStart();
      assert buf[textPtr..textPtr] == [];
      s := START;
      var cp := textPtr;
      while cp < cBufP
        invariant Shape() && textPtr <= cp <= cBufP
        invariant s == Run(buf[textPtr..cp]) && s <= JAM
      {
        if YY_ACCEPT[s] != 0 {
          lastState := s;
          lastCpos := cp;
        }
        assert buf[textPtr..cp + 1] == buf[textPtr..cp] + [buf[cp]];
        RunExtend(buf[textPtr..cp], buf[cp]);
        s := Step(s, TextClass(buf[cp]));
        cp := cp + 1;
      }
    }

    /** One read: some bytes whenever the file has any, none at its end. */
    method YyInput(at: nat, max: nat) returns (n: nat)
      requires 1 <= max && at + max <= buf.Length
      modifies this`file, buf
      ensures n <= max && n <= |old(file)| && (n == 0 <==> old(file) == [])
      ensures buf[..at] == old(buf[..at])
      ensures buf[at..at + n] + file == old(file)
      ensures |file| == |old(file)| - n
    {
      if file == [] {
        return 0;
      }
      n :| 1 <= n <= max && n <= |file|;
      forall i | 0 <= i < n {
        buf[at + i] := file[i];
      }
      assert buf[at..at + n] == file[..n];
      file := file[n..];
    }

    /** Doubles the buffer until there is room for at least one byte after the `moved` it holds. */
    method Grow(moved: nat) returns (room: nat)
      requires buf.Length == bufSize + 2 && 1 <= bufSize && moved <= bufSize
      modifies this`buf, this`bufSize
      ensures buf.Length == bufSize + 2 && 1 <= bufSize
      ensures 1 <= room && room == bufSize - moved - 1
      ensures buf[..moved] == old(buf[..moved])
      ensures buf == old(buf) || fresh(buf)
    {
      var numToRead := bufSize - moved - 1;
      while numToRead <= 0
        invariant buf.Length == bufSize + 2 && 1 <= bufSize && moved <= bufSize
        invariant numToRead == bufSize - moved - 1
        invariant buf[..moved] == old(buf[..moved])
        invariant buf == old(buf) || fresh(buf)
        decreases -numToRead
      {
        bufSize := bufSize * 2;
        var bigger := new byte[bufSize + 2](_ => NUL);
        forall i | 0 <= i < buf.Length {
          bigger[i] := buf[i];
        }
        assert bigger[..moved] == buf[..moved];
        buf := bigger;
        numToRead := bufSize - moved - 1;
      }
      room := numToRead;
    }

    /** Copies the partial lexeme to the start of the buffer. */
    method MoveToStart(moved: nat)
      requires textPtr + moved <= buf.Length
      modifies buf
      ensures buf[..moved] == old(buf[textPtr..textPtr + moved])
    {
      for i := 0 to moved
        invariant buf[..i] == old(buf[textPtr..textPtr + i])
        invariant buf[textPtr + i..] == old(buf[textPtr + i..])
      {
        buf[i] := buf[textPtr + i];
      }
    }

    /** Counts the partial lexeme in, and puts two end markers behind the last byte. */
    method MarkEnd(moved: nat, ghost kept: seq<byte>, ghost unread: seq<byte>)
      requires buf.Length == bufSize + 2 && moved + nChars <= bufSize
      requires buf[..moved] == kept && buf[moved..moved + nChars] + file == unread
      modifies this`nChars, this`textPtr, buf
      ensures nChars == old(nChars) + moved && textPtr == 0
      ensures buf[nChars] == NUL && buf[nChars + 1] == NUL
      ensures buf[..moved] == kept && buf[..nChars] + file == kept + unread
    {
      ghost var got := buf[moved..moved + nChars];
      nChars := nChars + moved;
      buf[nChars] := NUL;
      buf[nChars + 1] := NUL;
      textPtr := 0;
      assert buf[..moved] == kept && buf[moved..nChars] == got;
      assert buf[..nChars] == kept + got;
      assert kept + got + file == kept + (got + file);
    }

    /** Reads behind the partial lexeme, growing the buffer first if it is full. */
    method Fill(moved: nat)
      requires buf.Length == bufSize + 2 && 1 <= bufSize && moved <= bufSize
      requires status == EofPending ==> file == []
      modifies this`buf, this`bufSize, this`nChars, this`file, buf
      ensures buf.Length == bufSize + 2 && 1 <= bufSize && moved + nChars <= bufSize
      ensures buf == old(buf) || fresh(buf)
      ensures buf[..moved] == old(buf[..moved])
      ensures buf[moved..moved + nChars] + file == old(file)
      ensures nChars == 0 <==> old(file) == []
      ensures |file| == |old(file)| - nChars
    {
      if status == EofPending {
        nChars := 0;
      } else {
        var room := Grow(moved);
        if room > YY_READ_BUF_SIZE {
          room := YY_READ_BUF_SIZE;
        }
        nChars := YyInput(moved, room);
      }
    }

    /**
      Refills the buffer. The partial lexeme and the unread text, end to end, are what they
      were, whatever the size of the read and however far the buffer had to grow.
     */
    method GetNextBuffer() returns (action: EobAction)
      requires Shape() && textPtr <= nChars && cBufP == nChars + 1
      modifies this, buf
      ensures Shape() && textPtr == 0
      ensures buf == old(buf) || fresh(buf)
      ensures var kept := old(buf[textPtr..nChars]);
              |kept| <= nChars && buf[..|kept|] == kept && buf[..nChars] + file == kept + old(file)
      ensures action == ContinueScan <==> old(file) != []
      ensures action == ContinueScan ==> |file| < |old(file)|
      ensures action != ContinueScan ==> file == []
      ensures action == LastMatch ==> old(textPtr) < old(nChars) && nChars == old(nChars - textPtr)
      ensures action == EndOfFile ==> old(textPtr) == old(nChars) && nChars == 0 && cBufP == 0 && holdChar == NUL
    {
      ghost var kept, unread := buf[textPtr..nChars], file;
      var moved: nat := cBufP - textPtr - 1;
      MoveToStart(moved);
      assert buf[..moved] == kept;
      Fill(moved);
      if nChars == 0 {
        if moved == 0 {
          action := EndOfFile;
          // yyrestart
          status := New;
          cBufP := 0;
          holdChar := NUL;
        } else {
          action := LastMatch;
          status := EofPending;
        }
      } else {
        action := ContinueScan;
      }
      MarkEnd(moved, kept, unread);
    }

    // ----- one lexeme -----------------------------------------------------------------------

    /** The start of the next lexeme: the byte held back returns to its place. */
    method Begin() returns (bp: nat)
      requires Valid()
      modifies buf
      ensures Shape() && bp == cBufP && buf[bp..nChars] + file == old(Unread())
    {
      bp := cBufP;
      buf[bp] := holdChar;
    }

    /** yy_find_action: backs up to the last accepting state if need be, and cuts off yytext. */
    method FindAction(bp: nat, s0: State, cp0: nat) returns (act: int, s: State, cp: nat)
      requires Shape() && s0 <= JAM
      requires s0 != JAM ==> bp < cp0 <= nChars && s0 == Run(buf[bp..cp0])
      requires s0 == JAM ==> bp < lastCpos <= nChars + 1 && lastState <= JAM
      requires s0 == JAM && lastState != EOB_STATE ==> lastCpos <= nChars && lastState == Run(buf[bp..lastCpos]) != JAM
      modifies this`textPtr, this`holdChar, this`cBufP, buf
      ensures s == (if s0 == JAM then lastState else s0) && cp == (if s0 == JAM then lastCpos else cp0)
      ensures act == YY_ACCEPT[s]
      ensures textPtr == bp && cBufP == cp && holdChar == old(buf[cp])
      ensures buf[..] == old(buf[..])[cp := NUL]
    {
      s, cp := s0, cp0;
      act := YY_ACCEPT[s];
      if s != JAM {
        RunMeans(buf[bp..cp]);
        AcceptMeans(s, buf[bp..cp]);
      }
      if act == 0 {
        cp := lastCpos;
        s := lastState;
        act := YY_ACCEPT[s];
      }
      textPtr := bp;
      holdChar := buf[cp];
      buf[cp] := NUL;
      cBufP := cp;
    }

    /** A NUL that belongs to the text is stepped over. */
    method StepOverNul() returns (s: State)
      requires Shape() && textPtr < cBufP <= nChars && buf[cBufP - 1] == NUL
      requires !Final(Run(buf[textPtr..cBufP - 1]))
      modifies this`cBufP, this`lastState, this`lastCpos
      ensures cBufP == old(cBufP) && s == Run(buf[textPtr..cBufP]) && !Final(s)
    {
      hide Next, Run;
      ghost var t := buf[textPtr..cBufP - 1];
      cBufP := cBufP - 1;
      s := GetPreviousState();
      if YY_ACCEPT[s] != 0 {
        lastState := s;
        lastCpos := cBufP;
      }
      NulGoesOn(t);
      s := Step(s, 1);
      cBufP := cBufP + 1;
      assert buf[textPtr..cBufP] == t + [NUL];
    }

    /** An end marker has the buffer refilled, and the scan goes back to where it met the marker. */
    method Refill(ghost text: seq<byte>) returns (action: EobAction)
      requires Shape() && textPtr <= nChars && cBufP == nChars + 1
      requires buf[textPtr..nChars] + file == text
      modifies this, buf
      ensures Shape() && (buf == old(buf) || fresh(buf))
      ensures textPtr == 0 && cBufP == old(nChars - textPtr) <= nChars
      ensures buf[textPtr..nChars] + file == text && buf[textPtr..cBufP] == old(buf[textPtr..nChars])
      ensures action == ContinueScan ==> |file| < |old(file)|
      ensures action != ContinueScan ==> file == old(file) == [] && cBufP == nChars
      ensures action == LastMatch ==> cBufP > 0
      ensures action == EndOfFile ==> text == [] && holdChar == NUL
    {
      var amount: nat := cBufP - textPtr - 1;
      ghost var t := buf[textPtr..nChars];
      action := GetNextBuffer();
      assert buf[..amount] == t && buf[0..nChars] == buf[..nChars] && buf[0..amount] == buf[..amount];
      match action
      case EndOfFile => cBufP := textPtr;
      case ContinueScan => cBufP := textPtr + amount;
      case LastMatch => cBufP := nChars;
    }

    /**
      YY_END_OF_BUFFER: a NUL of the text is stepped over, an end marker has the buffer
      refilled. Either way the text of the lexeme and after it is still `text`, and the scan
      resumes in the state it was in.
     */
    method EndOfBuffer(ghost text: seq<byte>) returns (how: Resume, s: State)
      requires Shape() && textPtr < cBufP <= nChars + 1 && buf[cBufP - 1] == NUL
      requires buf[textPtr..nChars] + file == text
      requires !Final(Run(buf[textPtr..cBufP - 1]))
      modifies this, buf
      ensures Shape() && (buf == old(buf) || fresh(buf))
      ensures textPtr <= cBufP <= nChars && buf[textPtr..nChars] + file == text
      ensures how == AtEnd ==> text == [] && cBufP == nChars && holdChar == NUL && file == []
      ensures how != AtEnd ==> s == Run(buf[textPtr..cBufP]) && !Final(s)
      ensures how == Rematch ==> |file| < |old(file)| || (file == old(file) && nChars - cBufP == old(nChars - cBufP))
      ensures how == TakeLast ==> file == old(file) == [] && textPtr < cBufP == nChars
    {
      hide Next, Run;
      if status == New {
        status := Normal;
      }
      if cBufP <= nChars {
        s := StepOverNul();
        return Rematch, s;
      }
      var action := Refill(text);
      if action == EndOfFile {
        return AtEnd, START;
      }
      s := GetPreviousState();
      return if action == ContinueScan then Rematch else TakeLast, s;
    }

    /** yytext holds flex's choice from `text`, and what follows it is still unread. */
    ghost predicate Taken(text: seq<byte>, act: int)
      reads this, buf
    {
      Valid() && textPtr < cBufP && buf[cBufP] == NUL
      && var n := cBufP - textPtr;
         n <= |text| && IsLexeme(text, act, n) && buf[textPtr..cBufP] == text[..n] && Unread() == text[n..]
    }

    /** The lexeme ends at `cBufP`, where a NUL has replaced the byte held back; `all` is the buffer before that. */
    lemma TakenHere(text: seq<byte>, all: seq<byte>, act: int)
      requires Shape() && textPtr < cBufP <= nChars
      requires |all| == buf.Length && buf[..] == all[cBufP := NUL] && holdChar == all[cBufP] && all[nChars] == NUL
      requires text == all[textPtr..nChars] + file
      requires IsLexeme(text, act, cBufP - textPtr)
      ensures Valid() && Taken(text, act)
    {
      hide IsLexeme;
      var n := cBufP - textPtr;
      var head := all[textPtr..nChars];
      assert buf[textPtr..cBufP] == buf[..][textPtr..cBufP] == head[..n] == text[..n];
      assert text[n..] == head[n..] + file;
      if cBufP < nChars {
        assert buf[cBufP + 1..nChars] == buf[..][cBufP + 1..nChars] == head[n + 1..];
        assert [holdChar] + buf[cBufP + 1..nChars] == head[n..];
      } else {
        assert head[n..] == [];
      }
    }

    /** yy_match, if the scan is to match at all; what it stops at is flex's choice, or a NUL. */
    method MatchText(bp: nat, s0: State, cp0: nat, matching: bool, ghost text: seq<byte>) returns (s: State, cp: nat)
      requires Shape() && bp <= cp0 <= nChars && buf[bp..nChars] + file == text
      requires s0 == Run(buf[bp..cp0]) && s0 <= JAM && s0 != JAM
      requires matching ==> !Final(s0)
      requires !matching ==> file == [] && bp < cp0 == nChars
      modifies this`lastState, this`lastCpos
      ensures s <= JAM
      ensures s != JAM ==> bp < cp <= nChars && Stopped(text, s, cp - bp) && s == Run(buf[bp..cp])
      ensures s == JAM && lastState != EOB_STATE ==>
                bp < lastCpos <= nChars && Stopped(text, lastState, lastCpos - bp)
                && lastState == Run(buf[bp..lastCpos]) && lastState < JAM
      ensures s == JAM && lastState == EOB_STATE ==>
                matching && cp0 < lastCpos <= nChars + 1 && buf[lastCpos - 1] == NUL
                && !Final(Run(buf[bp..lastCpos - 1]))
    {
      hide Next, Run, IsLexeme;
      ghost var all := buf[bp..nChars];
      if !matching {
        assert buf[bp..cp0] == all == text == text[..cp0 - bp];
        LexemeFound(text, cp0 - bp);
        return s0, cp0;
      }
      ghost var head := buf[bp..];
      assert head[..cp0 - bp] == buf[bp..cp0];
      s, cp := Match(bp, s0, cp0, head);
      assert head[..nChars - bp] == all == text[..nChars - bp];
      if s != JAM {
        FinalFound(head, text, nChars - bp, cp - bp);
        assert head[..cp - bp] == buf[bp..cp];
      } else if lastState != EOB_STATE {
        JammedFound(head, text, nChars - bp, lastState, lastCpos - bp);
        assert head[..lastCpos - bp] == buf[bp..lastCpos];
      } else {
        assert head[..lastCpos - 1 - bp] == buf[bp..lastCpos - 1];
      }
    }

    /** From yy_match (or, not matching, from yy_find_action) to the action it leads to. */
    method Attempt(bp: nat, s0: State, cp0: nat, matching: bool, ghost text: seq<byte>) returns (act: int)
      requires Shape() && bp <= cp0 <= nChars && buf[bp..nChars] + file == text
      requires s0 == Run(buf[bp..cp0]) && s0 <= JAM && s0 != JAM
      requires matching ==> !Final(s0)
      requires !matching ==> file == [] && bp < cp0 == nChars
      modifies this`lastState, this`lastCpos, this`textPtr, this`holdChar, this`cBufP, buf
      ensures 1 <= act && (!matching ==> act != END_OF_BUFFER)
      ensures act != END_OF_BUFFER ==> Valid() && Taken(text, act)
      ensures act == END_OF_BUFFER ==>
                Shape() && textPtr == bp && cp0 < cBufP <= nChars + 1 && buf[cBufP - 1] == NUL
                && buf[textPtr..nChars] + file == text && !Final(Run(buf[textPtr..cBufP - 1]))
    {
      hide Next, Run, IsLexeme, Taken;
      var s, cp := MatchText(bp, s0, cp0, matching, text);
      ghost var all := buf[..];
      act, s, cp := FindAction(bp, s, cp);
      if act == END_OF_BUFFER {
        buf[cp] := holdChar;
        assert buf[..] == all;
        assert buf[bp..nChars] == all[bp..nChars] == old(buf[bp..nChars]);
        assert buf[bp..cp - 1] == all[bp..cp - 1] == old(buf[bp..cp - 1]);
      } else {
        assert all[bp..nChars] == old(buf[bp..nChars]);
        TakenHere(text, all, act);
      }
    }

    /**
      One turn of yylex: flex's choice at the head of the unread text is taken off it, and is
      in yytext; the result is its rule, or 0 at the end of the text.
     */
    method ScanLexeme() returns (act: int)
      requires Valid()
      modifies this, buf
      ensures Valid() && (buf == old(buf) || fresh(buf))
      ensures act == 0 ==> old(Unread()) == [] && Unread() == []
      ensures act != 0 ==> Taken(old(Unread()), act)
    {
      hide Next, Run, Taken;
      ghost var text := Unread();
      var bp: nat := Begin();
      var s, cp: nat := START, bp;
      var matching := true;
      RunStart();
      assert buf[bp..bp] == [];
      while true
        invariant Shape() && (buf == old(buf) || fresh(buf))
        invariant bp <= cp <= nChars && buf[bp..nChars] + file == text
        invariant s == Run(buf[bp..cp]) && s <= JAM && s != JAM
        invariant matching ==> !Final(s)
        invariant !matching ==> file == [] && bp < cp == nChars
        decreases |file|, matching, nChars - cp
      {
        act := Attempt(bp, s, cp, matching, text);
        if act != END_OF_BUFFER {
          return;
        }
        var how: Resume;
        how, s := EndOfBuffer(text);
        if how == AtEnd {
          return 0;
        }
        bp, cp := textPtr, cBufP;
        matching := how == Rematch;
      }
    }

    // ----- tokens ---------------------------------------------------------------------------

    /** The tokens still to come. */
    ghost function Upcoming(): seq<Token>
      requires Valid()
      reads this, buf
    {
      Tokens(Unread())
    }

    /** newsb: the value of a TKSTRING is yytext, up to its terminator. */
    method TokenValue() returns (value: seq<byte>)
      requires Valid() && buf[cBufP] == NUL
      ensures value == CStr(buf[textPtr..cBufP])
    {
      value := CStr(buf[textPtr..cBufP]);
    }

    /** yylex: the next token of the text, wherever the reads have cut it; none at its end. */
    method YyLex() returns (token: Option<Token>)
      requires Valid()
      modifies this, buf
      ensures Valid() && (buf == old(buf) || fresh(buf))
      ensures token.None? ==> old(Upcoming()) == [] && Upcoming() == []
      ensures token.Some? ==> old(Upcoming()) == [token.value] + Upcoming()
      ensures |Unread()| <= |old(Unread())|
    {
      hide Tokens, IsLexeme, CStr;
      while true
        invariant Valid() && (buf == old(buf) || fresh(buf))
        invariant Upcoming() == old(Upcoming())
        invariant |Unread()| <= |old(Unread())|
        decreases |Unread()|
      {
        ghost var text := Unread();
        var act := ScanLexeme();
        if act == 0 {
          NoTokens();
          return None;
        }
        TakeLexeme(text, act, cBufP - textPtr);
        match act
        case 1 =>
        case 2 =>
        case 3 => return Some(LineEnd);
        case 4 =>
          var value := TokenValue();
          return Some(Word(value));
        case _ => assert false;
      }
    }
  }

  /** tknext and its statics: end of file is remembered, newlines are counted. */
  class Tokenizer {
    const scanner: Scanner
    var eof: bool
    var lineCount: nat

    ghost function Repr(): set<object>
      reads this, scanner
    {
      {this, scanner, scanner.buf}
    }

    ghost predicate Valid()
      reads Repr()
    {
      scanner.Valid() && (eof ==> scanner.Upcoming() == [])
    }

    ghost function Upcoming(): seq<Token>
      requires Valid()
      reads Repr()
    {
      scanner.Upcoming()
    }

    constructor (text: seq<byte>, size: nat)
      requires 1 <= size
      ensures Valid() && Upcoming() == Tokens(text) && fresh(Repr())
      ensures lineCount == 1
    {
      scanner := new Scanner(text, size);
      eof, lineCount := false, 1;
    }

    method TkNext() returns (token: Option<Token>)
      requires Valid()
      modifies Repr()
      ensures Valid() && fresh(Repr() - old(Repr()))
      ensures token.None? ==> old(Upcoming()) == [] && Upcoming() == []
      ensures token.Some? ==> old(Upcoming()) == [token.value] + Upcoming()
      ensures lineCount == old(lineCount) + if token == Some(LineEnd) then 1 else 0
    {
      hide Tokens;
      if eof {
        return None;
      }
      token := scanner.YyLex();
      if token == None {
        eof := true;
      } else if token == Some(LineEnd) {
        lineCount := lineCount + 1;
      }
    }

    /** Reading to the end gives the tokens of the text, whatever the buffer size and the reads. */
    static method ReadAll(text: seq<byte>, size: nat) returns (tokens: seq<Token>)
      requires 1 <= size
      ensures tokens == Tokens(text)
    {
      hide Tokens;
      var t := new Tokenizer(text, size);
      tokens := [];
      while true
        invariant fresh(t.Repr()) && t.Valid()
        invariant tokens + t.Upcoming() == Tokens(text)
        decreases |t.Upcoming()|
      {
        var token := t.TkNext();
        if token == None {
          return;
        }
        tokens := tokens + [token.value];
      }
    }
  }
}
