/** The list of servers in the environment: getservers of lib/obtainStatus.c. */
module ServerList {
  import opened Bytes

  const MAXSERVERS := 128

  // ----- words ------------------------------------------------------------------------------

  /** The length of the prefix without a separator. */
  function WordLength(s: seq<byte>, sep: byte): (n: nat)
    ensures n <= |s| && sep !in s[..n] && (n < |s| ==> s[n] == sep)
  {
    if s == [] || s[0] == sep then 0 else 1 + WordLength(s[1..], sep)
  }

  /** What lies between the separators, in order; separators may be repeated. */
  function Words(s: seq<byte>, sep: byte): seq<seq<byte>>
    decreases |s|
  {
    if s == [] then []
    else if s[0] == sep then Words(s[1..], sep)
    else [s[..WordLength(s, sep)]] + Words(s[WordLength(s, sep)..], sep)
  }

  function Without(s: seq<byte>, sep: byte): seq<byte> {
    if s == [] then [] else (if s[0] == sep then [] else [s[0]]) + Without(s[1..], sep)
  }

  lemma {:induction false} WithoutConcat(a: seq<byte>, b: seq<byte>, sep: byte)
    requires sep !in a
    ensures Without(a + b, sep) == a + Without(b, sep)
  {
    if a == [] {
      assert a + b == b;
    } else {
      assert (a + b)[1..] == a[1..] + b;
      WithoutConcat(a[1..], b, sep);
    }
  }

  /** Words are not empty and hold no separators, and nothing but separators is left out. */
  lemma {:induction false} WordsCover(s: seq<byte>, sep: byte)
    ensures Flatten(Words(s, sep)) == Without(s, sep)
    ensures forall i :: 0 <= i < |Words(s, sep)| ==> Words(s, sep)[i] != [] && sep !in Words(s, sep)[i]
    decreases |s|
  {
    if s != [] {
      if s[0] == sep {
        WordsCover(s[1..], sep);
      } else {
        var n := WordLength(s, sep);
        WordsCover(s[n..], sep);
        assert s == s[..n] + s[n..];
        WithoutConcat(s[..n], s[n..], sep);
      }
    }
  }

  lemma {:induction false} WordsSkip(s: seq<byte>, sep: byte, n: nat)
    requires n <= |s| && forall i :: 0 <= i < n ==> s[i] == sep
    ensures Words(s, sep) == Words(s[n..], sep)
  {
    if n > 0 {
      assert s[1..][n - 1..] == s[n..];
      WordsSkip(s[1..], sep, n - 1);
    }
  }

  lemma {:induction false} WordLengthIs(s: seq<byte>, sep: byte, n: nat)
    requires n <= |s| && (forall i :: 0 <= i < n ==> s[i] != sep) && (n < |s| ==> s[n] == sep)
    ensures WordLength(s, sep) == n
  {
    if n > 0 {
      WordLengthIs(s[1..], sep, n - 1);
    }
  }

  /** The first word of a string that does not begin with a separator. */
  lemma WordsFirst(s: seq<byte>, sep: byte, n: nat)
    requires 0 < n <= |s| && (forall i :: 0 <= i < n ==> s[i] != sep) && (n < |s| ==> s[n] == sep)
    ensures Words(s, sep) == [s[..n]] + Words(s[n..], sep)
  {
    WordLengthIs(s, sep, n);
  }

  // ----- words are the maximal substrings without a separator ---------------------------------

  /** `w` lies at `at`, is not empty, holds no separator, and cannot be extended on either side. */
  predicate MaximalAt(s: seq<byte>, sep: byte, at: nat, w: seq<byte>) {
    w != [] && sep !in w && at + |w| <= |s| && s[at..at + |w|] == w
    && (at > 0 ==> s[at - 1] == sep) && (at + |w| < |s| ==> s[at + |w|] == sep)
  }

  /** Where the words of `s[from..]` begin. */
  function Starts(s: seq<byte>, sep: byte, from: nat): seq<nat>
    requires from <= |s|
    decreases |s| - from
  {
    if from == |s| then []
    else if s[from] == sep then Starts(s, sep, from + 1)
    else [from] + Starts(s, sep, from + WordLength(s[from..], sep))
  }

  /** All words from `from` on: each is maximal, they lie in order, and no maximal one is missed. */
  ghost predicate AllWords(s: seq<byte>, sep: byte, from: nat, starts: seq<nat>, words: seq<seq<byte>>) {
    |starts| == |words|
    && (forall k :: 0 <= k < |words| ==> from <= starts[k] && MaximalAt(s, sep, starts[k], words[k]))
    && (forall k, l :: 0 <= k < l < |starts| ==> starts[k] < starts[l])
    && forall at: nat, w :: from <= at && MaximalAt(s, sep, at, w) ==> at in starts
  }

  lemma NoneWithin(s: seq<byte>, sep: byte, at: nat, w: seq<byte>)
    requires MaximalAt(s, sep, at, w)
    ensures forall i :: at <= i < at + |w| ==> s[i] != sep
  {
    forall i | at <= i < at + |w| ensures s[i] != sep {
      assert s[i] == w[i - at];
    }
  }

  /** A maximal substring that begins in another one is that one. */
  lemma SameWord(s: seq<byte>, sep: byte, from: nat, v: seq<byte>, at: nat, w: seq<byte>)
    requires MaximalAt(s, sep, from, v) && MaximalAt(s, sep, at, w) && from <= at < from + |v|
    ensures at == from && w == v
  {
    NoneWithin(s, sep, from, v);
    NoneWithin(s, sep, at, w);
  }

  /** One word in front of the others. */
  lemma WordInFront(s: seq<byte>, sep: byte, from: nat, v: seq<byte>, starts: seq<nat>, words: seq<seq<byte>>)
    requires MaximalAt(s, sep, from, v) && AllWords(s, sep, from + |v|, starts, words)
    ensures AllWords(s, sep, from, [from] + starts, [v] + words)
  {
    assert v != [];
    hide MaximalAt;
    forall at: nat, w | from <= at && MaximalAt(s, sep, at, w) ensures at in [from] + starts {
      if at < from + |v| {
        SameWord(s, sep, from, v, at, w);
      }
    }
  }

  lemma FirstIsMaximal(s: seq<byte>, sep: byte, from: nat)
    requires from < |s| && s[from] != sep && (from > 0 ==> s[from - 1] == sep)
    ensures MaximalAt(s, sep, from, s[from..][..WordLength(s[from..], sep)])
  {
  }

  /** The words of a suffix, by its first byte. */
  lemma WordsAt(s: seq<byte>, sep: byte, from: nat)
    requires from < |s|
    ensures s[from] == sep ==> Words(s[from..], sep) == Words(s[from + 1..], sep)
    ensures var w := s[from..][..WordLength(s[from..], sep)];
            s[from] != sep ==> 0 < |w| <= |s| - from && Words(s[from..], sep) == [w] + Words(s[from + |w|..], sep)
  {
    var rest := s[from..];
    assert rest[1..] == s[from + 1..];
    var n := WordLength(rest, sep);
    assert rest[n..] == s[from + n..];
  }

  lemma {:induction false} WordsFrom(s: seq<byte>, sep: byte, from: nat)
    requires from <= |s| && (0 < from < |s| ==> s[from - 1] == sep || s[from] == sep)
    ensures AllWords(s, sep, from, Starts(s, sep, from), Words(s[from..], sep))
    decreases |s| - from
  {
    hide AllWords, MaximalAt, Words, WordLength;
    if from == |s| {
      NoWordsLeft(s, sep);
    } else if s[from] == sep {
      WordsAt(s, sep, from);
      WordsFrom(s, sep, from + 1);
      SkipSeparator(s, sep, from, Starts(s, sep, from + 1), Words(s[from + 1..], sep));
    } else {
      WordsAt(s, sep, from);
      var w := s[from..][..WordLength(s[from..], sep)];
      FirstIsMaximal(s, sep, from);
      WordsFrom(s, sep, from + |w|);
      WordInFront(s, sep, from, w, Starts(s, sep, from + |w|), Words(s[from + |w|..], sep));
    }
  }

  lemma NoWordsLeft(s: seq<byte>, sep: byte)
    ensures AllWords(s, sep, |s|, [], []) && Words(s[|s|..], sep) == []
  {
  }

  lemma SkipSeparator(s: seq<byte>, sep: byte, from: nat, starts: seq<nat>, words: seq<seq<byte>>)
    requires from < |s| && s[from] == sep && AllWords(s, sep, from + 1, starts, words)
    ensures AllWords(s, sep, from, starts, words)
  {
    forall at: nat, w | from <= at && MaximalAt(s, sep, at, w) ensures from + 1 <= at {
      assert w[0] == s[at..at + |w|][0] == s[at];
    }
  }

  /** The words of a string are exactly its maximal substrings without a separator, in order. */
  lemma WordsAreMaximal(s: seq<byte>, sep: byte)
    ensures AllWords(s, sep, 0, Starts(s, sep, 0), Words(s, sep))
  {
    WordsFrom(s, sep, 0);
    assert s[0..] == s;
  }

  // ----- the separator the documentation names -------------------------------------------------

  lemma {:induction false} WithoutMembers(s: seq<byte>, sep: byte, b: byte)
    ensures b in Without(s, sep) <==> b in s && b != sep
  {
    if s != [] {
      WithoutMembers(s[1..], sep, b);
    }
  }

  /** A string without separators is one word, or none. */
  lemma WholeWord(s: seq<byte>, sep: byte)
    requires sep !in s
    ensures Words(s, sep) == if s == [] then [] else [s]
  {
    if s != [] {
      WordsFirst(s, sep, |s|);
      assert s[..|s|] == s && s[|s|..] == [];
    }
  }

  /** Cutting at spaces reads a colon-separated list as it is meant iff there is nothing to cut. */
  lemma {:induction false} ColonListIff(s: seq<byte>)
    ensures Words(s, SPACE) == Words(s, COLON) <==> SPACE !in s && COLON !in s
  {
    if SPACE !in s && COLON !in s {
      WholeWord(s, SPACE);
      WholeWord(s, COLON);
    } else {
      WordsCover(s, SPACE);
      WordsCover(s, COLON);
      var b := if SPACE in s then SPACE else COLON;
      WithoutMembers(s, SPACE, b);
      WithoutMembers(s, COLON, b);
    }
  }

  /** `a:b` names two servers by the documentation, and one by the code. */
  lemma ColonListUncut()
    ensures var s := [Ascii('a'), COLON, Ascii('b')];
            Words(s, COLON) == [[Ascii('a')], [Ascii('b')]] && Words(s, SPACE) == [s]
  {
    var s := [Ascii('a'), COLON, Ascii('b')];
    WordsFirst(s, COLON, 1);
    WordsSkip(s[1..], COLON, 1);
    assert s[..1] == [Ascii('a')] && s[1..][1..] == [Ascii('b')];
    WholeWord([Ascii('b')], COLON);
    WholeWord(s, SPACE);
  }

  // ----- getservers ----------------------------------------------------------------------------

  /** A pointer into the copy, or NULL. */
  type Pointer = Option<nat>

  /** index(3): the first space at or after `at`, or NULL. */
  method Index(copy: array<byte>, at: nat) returns (p: Pointer)
    requires at < copy.Length && copy[copy.Length - 1] == NUL
    requires forall i :: at <= i < copy.Length - 1 ==> copy[i] != NUL
    ensures p.Some? ==> at <= p.value < copy.Length - 1 && copy[p.value] == SPACE
                        && forall i :: at <= i < p.value ==> copy[i] != SPACE
    ensures p.None? ==> forall i :: at <= i < copy.Length - 1 ==> copy[i] != SPACE
  {
    var i := at;
    while copy[i] != NUL
      invariant at <= i < copy.Length
      invariant forall j :: at <= j < i ==> copy[j] != SPACE
      decreases copy.Length - i
    {
      if copy[i] == SPACE {
        return Some(i);
      }
      i := i + 1;
    }
    return None;
  }

  /** Past the spaces at `at`. */
  method SkipSpaces(copy: array<byte>, at: nat) returns (p: nat)
    requires at < copy.Length && copy[copy.Length - 1] == NUL
    ensures at <= p < copy.Length && copy[p] != SPACE
    ensures forall i :: at <= i < p ==> copy[i] == SPACE
  {
    p := at;
    while copy[p] == SPACE
      invariant at <= p < copy.Length
      invariant forall i :: at <= i < p ==> copy[i] == SPACE
      decreases copy.Length - p
    {
      p := p + 1;
    }
  }

  /** The words found so far lie, terminated, before `limit`, and the slots point at them. */
  ghost predicate Listed(copy: seq<byte>, slots: seq<Pointer>, words: seq<seq<byte>>, limit: nat) {
    |words| <= |slots|
    && forall k :: 0 <= k < |words| ==>
         slots[k].Some? && slots[k].value + |words[k]| < limit <= |copy|
         && copy[slots[k].value..slots[k].value + |words[k]| + 1] == words[k] + [NUL]
  }

  lemma ListedStays(copy: seq<byte>, copy': seq<byte>, slots: seq<Pointer>, slots': seq<Pointer>,
                    words: seq<seq<byte>>, limit: nat, limit': nat)
    requires Listed(copy, slots, words, limit) && limit <= limit' <= |copy'| && limit <= |copy|
    requires copy'[..limit] == copy[..limit]
    requires |words| <= |slots'| && slots'[..|words|] == slots[..|words|]
    ensures Listed(copy', slots', words, limit')
  {
    forall k | 0 <= k < |words|
      ensures slots'[k].Some? && slots'[k].value + |words[k]| < limit'
              && copy'[slots'[k].value..slots'[k].value + |words[k]| + 1] == words[k] + [NUL]
    {
      var p, e := slots[k].value, slots[k].value + |words[k]| + 1;
      assert slots'[k] == slots'[..|words|][k] == slots[..|words|][k] == slots[k];
      assert copy'[p..e] == copy'[..limit][p..e] == copy[..limit][p..e] == copy[p..e];
    }
  }

  lemma ListedMore(copy: seq<byte>, slots: seq<Pointer>, words: seq<seq<byte>>, word: seq<byte>, limit: nat)
    requires Listed(copy, slots, words, limit) && |words| < |slots| && slots[|words|].Some?
    requires slots[|words|].value + |word| < limit <= |copy|
    requires copy[slots[|words|].value..slots[|words|].value + |word| + 1] == word + [NUL]
    ensures Listed(copy, slots, words + [word], limit)
  {
  }

  /** A string that does not begin with a space lies at `cp`, up to the end of the copy. */
  ghost predicate StringAt(copy: array<byte>, cp: nat)
    reads copy
  {
    cp < copy.Length && copy[copy.Length - 1] == NUL && copy[cp] != SPACE
    && forall i :: cp <= i < copy.Length - 1 ==> copy[i] != NUL
  }

  /** Cuts the first word off the string at `cp`; the result is where the next one begins, or NULL. */
  method TakeWord(copy: array<byte>, cp: nat) returns (sb: Pointer, ghost word: seq<byte>)
    requires StringAt(copy, cp) && copy[cp] != NUL
    modifies copy
    ensures copy[..cp] == old(copy[..cp])
    ensures cp + |word| < copy.Length && copy[cp..cp + |word| + 1] == word + [NUL]
    ensures sb.Some? ==>
              cp + |word| < sb.value && StringAt(copy, sb.value)
              && old(Words(copy[cp..copy.Length - 1], SPACE)) == [word] + Words(copy[sb.value..copy.Length - 1], SPACE)
    ensures sb.None? ==> old(Words(copy[cp..copy.Length - 1], SPACE)) == [word]
  {
    hide Words;
    ghost var s := copy[cp..copy.Length - 1];
    var space := Index(copy, cp);
    if space.Some? {
      var j := space.value;
      word := s[..j - cp];
      assert s[j - cp] == SPACE;
      WordsFirst(s, SPACE, j - cp);
      copy[j] := NUL;
      var p := SkipSpaces(copy, j + 1);
      sb := Some(p);
      ghost var rest := s[j - cp..];
      forall k | 0 <= k < p - j ensures rest[k] == SPACE {
        assert rest[k] == s[j - cp + k];
        assert k > 0 ==> copy[j + k] == SPACE && s[j - cp + k] == copy[j + k];
      }
      WordsSkip(rest, SPACE, p - j);
      assert rest[p - j..] == copy[p..copy.Length - 1];
      assert copy[cp..j + 1] == word + [NUL];
    } else {
      word := s;
      sb := None;
      WordsFirst(s, SPACE, |s|);
      NoWords();
      assert s[..|s|] == s && s[|s|..] == [];
      assert copy[cp..copy.Length] == s + [NUL];
    }
  }

  lemma NoWords()
    ensures Words([], SPACE) == []
  {
  }

  /** A copy of the environment string, from its first word on. */
  method CopyOf(env: seq<byte>) returns (copy: array<byte>)
    requires NUL !in env
    ensures StringAt(copy, 0)
    ensures Words(copy[..copy.Length - 1], SPACE) == Words(env, SPACE)
    ensures fresh(copy)
  {
    var lead := 0;
    while lead < |env| && env[lead] == SPACE
      invariant lead <= |env| && forall i :: 0 <= i < lead ==> env[i] == SPACE
    {
      lead := lead + 1;
    }
    WordsSkip(env, SPACE, lead);
    var text := env[lead..];
    copy := new byte[|text| + 1];
    forall i | 0 <= i < |text| {
      copy[i] := text[i];
    }
    copy[|text|] := NUL;
    assert copy[..copy.Length - 1] == text;
  }

  /**
    The servers of an environment string: a copy that is cut up in place, a table of pointers
    to the words, in order, at most 127 of them, and NULL behind the last.
   */
  method GetServers(env: seq<byte>) returns (copy: array<byte>, slots: array<Pointer>, count: nat)
    requires NUL !in env
    ensures slots.Length == 128
    ensures count == if |Words(env, SPACE)| >= 128 then 127 else |Words(env, SPACE)|
    ensures Listed(copy[..], slots[..], Words(env, SPACE)[..count], copy.Length)
    ensures slots[count] == None
  {
    hide Words, Listed;
    copy := CopyOf(env);
    slots := new Pointer[MAXSERVERS];
    ghost var words: seq<seq<byte>> := [];
    var i, cp: nat := 0, 0;
    var sb: Pointer := Some(0);
    assert copy[0..copy.Length - 1] == copy[..copy.Length - 1] && [] + Words(env, SPACE) == Words(env, SPACE);
    NoneListed(copy[..], slots[..], 0);
    NoWords();
    while sb.Some? && copy[sb.value] != NUL
      invariant slots.Length == MAXSERVERS && |words| == i < MAXSERVERS && cp < copy.Length
      invariant sb.Some? ==>
                  sb.value == cp && StringAt(copy, cp)
                  && Words(env, SPACE) == words + Words(copy[cp..copy.Length - 1], SPACE)
      invariant sb.None? ==> Words(env, SPACE) == words
      invariant Listed(copy[..], slots[..], words, if sb.Some? then cp else copy.Length)
      decreases if sb.Some? then copy.Length - cp else 0
    {
      ghost var copy0, slots0 := copy[..], slots[..];
      ghost var word;
      sb, word := TakeWord(copy, cp);
      slots[i] := Some(cp);
      NextListed(copy0, copy[..], slots0, slots[..], words, word, cp, if sb.Some? then sb.value else copy.Length);
      words := words + [word];
      if sb.Some? {
        cp := sb.value;
      }
      if i >= MAXSERVERS - 1 {
        break;
      }
      i := i + 1;
    }
    if sb.Some? && |words| == i {
      assert copy[cp..copy.Length - 1] == [];
      assert words + [] == words;
    }
    assert words[..i] == Words(env, SPACE)[..i];
    ListedSome(copy[..], slots[..], words, i, if sb.Some? then cp else copy.Length);
    ghost var slots1 := slots[..];
    slots[i] := None;
    assert slots[..][..i] == slots1[..i];
    ListedStays(copy[..], copy[..], slots1, slots[..], words[..i], if sb.Some? then cp else copy.Length, copy.Length);
    return copy, slots, i;
  }

  lemma NextListed(copy: seq<byte>, copy': seq<byte>, slots: seq<Pointer>, slots': seq<Pointer>,
                   words: seq<seq<byte>>, word: seq<byte>, cp: nat, limit: nat)
    requires Listed(copy, slots, words, cp) && cp <= |copy| && |words| < |slots|
    requires slots' == slots[|words| := Some(cp)]
    requires cp + |word| < limit <= |copy'| && copy'[..cp] == copy[..cp]
    requires copy'[cp..cp + |word| + 1] == word + [NUL]
    ensures Listed(copy', slots', words + [word], limit)
  {
    hide Listed;
    assert slots'[..|words|] == slots[..|words|];
    ListedStays(copy, copy', slots, slots', words, cp, limit);
    ListedMore(copy', slots', words, word, limit);
  }

  lemma NoneListed(copy: seq<byte>, slots: seq<Pointer>, limit: nat)
    ensures Listed(copy, slots, [], limit)
  {
  }

  lemma ListedSome(copy: seq<byte>, slots: seq<Pointer>, words: seq<seq<byte>>, n: nat, limit: nat)
    requires Listed(copy, slots, words, limit) && n <= |words|
    ensures Listed(copy, slots, words[..n], limit)
  {
  }
}
