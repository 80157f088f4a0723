/**
  Numbers as text: how the server prints how long a connection has been open, and what the
  client reads back from it.
 */
module Elapsed {
  import opened Bytes

  const RESERVETIME := 10

  // ----- C integer arithmetic -----------------------------------------------------------

  /** `/` and `%` truncate towards zero. */
  function CDiv(a: int, b: nat): int
    requires b > 0
  {
    if a >= 0 then a / b else -((-a) / b)
  }

  function CMod(a: int, b: nat): int
    requires b > 0
  {
    if a >= 0 then a % b else -((-a) % b)
  }

  // ----- printing -------------------------------------------------------------------------

  function Digit(d: nat): byte
    requires d < 10
  {
    48 + d
  }

  predicate IsDigit(b: byte) {
    48 <= b <= 57
  }

  /** `%d` of a number that is not negative. */
  function Digits(n: nat): (s: seq<byte>)
    ensures s != [] && forall i :: 0 <= i < |s| ==> IsDigit(s[i])
  {
    if n < 10 then [Digit(n)] else Digits(n / 10) + [Digit(n % 10)]
  }

  /** `%02d` */
  function Pad2(n: int): seq<byte> {
    if n < 0 then [45] + Digits(-n)
    else if n < 10 then [48] + Digits(n)
    else Digits(n)
  }

  /** The time field of a status record, `e` seconds after the connection was made. */
  function TimeText(e: int): seq<byte> {
    var rest := CMod(e, 3600);
    Pad2(CDiv(e, 3600)) + [COLON] + Pad2(CDiv(rest, 60)) + [COLON] + Pad2(CMod(rest, 60))
  }

  lemma {:induction false} DigitsLength(n: nat, width: nat, bound: nat)
    requires width > 0 && n < bound
    requires bound <= Power10(width)
    ensures |Digits(n)| <= width
    decreases width
  {
    if n >= 10 {
      DigitsLength(n / 10, width - 1, Power10(width - 1));
    }
  }

  function Power10(k: nat): nat {
    if k == 0 then 1 else 10 * Power10(k - 1)
  }

  /** Below 100000 hours the text and its terminator fit the 12 bytes of the field. */
  lemma TimeTextFits(e: int)
    requires 0 <= e < 360000000
    ensures |TimeText(e)| <= 11 && NUL !in TimeText(e)
  {
    var hours, minutes, seconds := e / 3600, e % 3600 / 60, e % 3600 % 60;
    assert Power10(1) == 10 && Power10(2) == 100;
    assert Power10(3) == 1000 && Power10(4) == 10 * Power10(3) && Power10(5) == 10 * Power10(4);
    DigitsLength(hours, 5, 100000);
    DigitsLength(minutes, 2, 60);
    DigitsLength(seconds, 2, 60);
    assert NUL !in Pad2(hours) && NUL !in Pad2(minutes) && NUL !in Pad2(seconds);
    if hours < 10 {
      DigitsLength(hours, 1, 10);
    }
    if minutes < 10 {
      DigitsLength(minutes, 1, 10);
    }
    if seconds < 10 {
      DigitsLength(seconds, 1, 10);
    }
  }

  // ----- reading back ---------------------------------------------------------------------

  datatype Scanned = Mismatch | Number(value: int, rest: seq<byte>)

  predicate IsSpace(b: byte) {
    b == SPACE || 9 <= b <= 13
  }

  function SkipSpaces(s: seq<byte>): (t: seq<byte>)
    ensures |t| <= |s|
  {
    if s != [] && IsSpace(s[0]) then SkipSpaces(s[1..]) else s
  }

  function ScanDigits(s: seq<byte>, acc: nat): Scanned
    decreases |s|
  {
    if s != [] && IsDigit(s[0]) then ScanDigits(s[1..], 10 * acc + (s[0] - 48)) else Number(acc, s)
  }

  /** `%d`: spaces, a sign, digits. */
  function ScanInt(s: seq<byte>): Scanned {
    var t := SkipSpaces(s);
    if t == [] then Mismatch
    else
      var signed := t[0] == 43 || t[0] == 45;
      var u := if signed then t[1..] else t;
      if u == [] || !IsDigit(u[0]) then Mismatch
      else
        var n := ScanDigits(u, 0);
        if n.Mismatch? then Mismatch
        else Number(if t[0] == 45 then -n.value else n.value, n.rest)
  }

  /** atoi(3): zero when there is no number. */
  function Atoi(s: seq<byte>): int {
    match ScanInt(s) case Mismatch => 0 case Number(v, _) => v
  }

  lemma ScanThreeDigits(s: seq<byte>, acc: nat)
    ensures var n := ScanDigits(s, acc);
            n.Number? && n.value >= 0 && (|s| == 0 ==> n.value <= acc) && (|s| <= 1 ==> n.value <= 10 * acc + 9)
            && (|s| <= 2 ==> n.value <= 100 * acc + 99) && (|s| <= 3 ==> n.value <= 1000 * acc + 999)
    decreases |s|
  {
    if s != [] && IsDigit(s[0]) {
      ScanThreeDigits(s[1..], 10 * acc + (s[0] - 48));
    }
  }

  /** Three bytes hold no number beyond 999. */
  lemma AtoiThreeBytes(s: seq<byte>)
    requires |s| <= 3
    ensures Atoi(s) <= 999
  {
    var t := SkipSpaces(s);
    if t != [] {
      ScanThreeDigits(t, 0);
      ScanThreeDigits(t[1..], 0);
    }
  }

  /** getMinutes: nothing when the hours or the minutes cannot be read (the source then returns garbage). */
  function GetMinutes(s: seq<byte>): Option<int> {
    match ScanInt(s)
    case Mismatch => None
    case Number(hours, rest) =>
      if rest == [] || rest[0] != COLON then None
      else match ScanInt(rest[1..])
        case Mismatch => None
        case Number(minutes, _) => Some(if hours > 0 then minutes + hours * 60 else minutes)
  }

  lemma {:induction false} ScanDigitsOf(n: nat, rest: seq<byte>)
    ensures ScanDigits(Digits(n) + rest, 0) == ScanDigits(rest, n)
    decreases n
  {
    if n < 10 {
      assert ([Digit(n)] + rest)[1..] == rest;
    } else {
      var later := [Digit(n % 10)] + rest;
      ScanDigitsOf(n / 10, later);
      assert Digits(n) + rest == Digits(n / 10) + later;
      assert later[1..] == rest;
    }
  }

  /** A number printed in front of something else than a digit is read back. */
  lemma ScanPrinted(n: nat, rest: seq<byte>)
    requires rest == [] || !IsDigit(rest[0])
    ensures ScanInt(Pad2(n) + rest) == Number(n, rest)
    ensures ScanInt(Digits(n) + rest) == Number(n, rest)
  {
    ScanDigitsOf(n, rest);
    var s := Digits(n) + rest;
    assert s[0] == Digits(n)[0];
    assert ([48] + Digits(n) + rest)[1..] == s;
  }

  lemma AtoiDigits(n: nat)
    ensures Atoi(Digits(n)) == n
  {
    ScanPrinted(n, []);
    assert Digits(n) + [] == Digits(n);
  }

  /** The client reads the minutes the server measured, for as long as the connection may last. */
  lemma MinutesRoundTrip(e: int)
    requires 0 <= e
    ensures GetMinutes(TimeText(e)) == Some(e / 60)
  {
    hide ScanInt, Pad2;
    var hours, minutes, seconds := e / 3600, e % 3600 / 60, e % 3600 % 60;
    var afterMinutes := [COLON] + Pad2(seconds);
    var afterHours := [COLON] + (Pad2(minutes) + afterMinutes);
    assert TimeText(e) == Pad2(hours) + afterHours;
    ScanPrinted(hours, afterHours);
    assert afterHours[1..] == Pad2(minutes) + afterMinutes;
    ScanPrinted(minutes, afterMinutes);
    assert e == 3600 * hours + e % 3600 && e % 3600 == 60 * minutes + seconds;
  }

  /** Two digits, for what is below sixty. */
  function TwoDigitText(n: nat): seq<byte>
    requires n < 100
  {
    [48 + n / 10, 48 + n % 10]
  }

  lemma PadsToTwo(n: nat)
    requires n < 100
    ensures Pad2(n) == TwoDigitText(n)
  {
    if n >= 10 {
      assert Digits(n / 10) == [48 + n / 10];
    }
  }

  /** The text is hours, minutes and seconds, of at least two digits each, with colons between them. */
  lemma TimeTextIs(e: int)
    requires 0 <= e
    ensures var hours := Pad2(e / 3600);
            |hours| >= 2 && Atoi(hours) == e / 3600
            && TimeText(e) == hours + [58] + TwoDigitText(e / 60 % 60) + [58] + TwoDigitText(e % 60)
  {
    var minutes, seconds := e % 3600 / 60, e % 3600 % 60;
    assert minutes == e / 60 % 60 && seconds == e % 60 by {
      assert e == 3600 * (e / 3600) + 60 * minutes + seconds;
      assert e / 60 == 60 * (e / 3600) + minutes;
    }
    PadsToTwo(minutes);
    PadsToTwo(seconds);
    ScanPrinted(e / 3600, []);
    assert Pad2(e / 3600) + [] == Pad2(e / 3600);
    if e / 3600 >= 10 {
      assert Digits(e / 3600 / 10) != [];
    }
  }

  lemma AtoiSkips(blank: byte, s: seq<byte>)
    requires IsSpace(blank)
    ensures Atoi([blank] + s) == Atoi(s)
  {
    assert ([blank] + s)[1..] == s;
  }

  lemma AtoiSigns(n: nat)
    ensures Atoi([43] + Digits(n)) == n && Atoi([45] + Digits(n)) == 0 - n
  {
    ScanDigitsOf(n, []);
    var d := Digits(n);
    assert d + [] == d && ([43] + d)[1..] == d && ([45] + d)[1..] == d;
  }

  /** atoi skips spaces, takes a sign, and reads as zero what begins with neither a sign nor a digit. */
  lemma AtoiForms(n: nat, word: seq<byte>)
    requires word == [] || (!IsSpace(word[0]) && !IsDigit(word[0]) && word[0] != 43 && word[0] != 45)
    ensures Atoi([SPACE] + Digits(n)) == n == Atoi([43] + Digits(n)) && Atoi([45] + Digits(n)) == 0 - n
    ensures Atoi(word) == 0
  {
    AtoiSkips(SPACE, Digits(n));
    AtoiDigits(n);
    AtoiSigns(n);
  }

  lemma MinutesOf(text: seq<byte>, hours: int, later: seq<byte>, minutes: int, rest: seq<byte>)
    requires ScanInt(text) == Number(hours, [58] + later) && ScanInt(later) == Number(minutes, rest)
    ensures GetMinutes(text) == Some(if hours > 0 then minutes + 60 * hours else minutes)
  {
    hide ScanInt;
    assert ([58] + later)[1..] == later;
  }

  /** Hours below zero do not count. */
  lemma NegativeHours(hours: nat, minutes: nat, rest: seq<byte>)
    requires rest == [] || !IsDigit(rest[0])
    ensures GetMinutes([45] + (Digits(hours) + ([58] + (Digits(minutes) + rest)))) == Some(minutes)
  {
    var later := Digits(minutes) + rest;
    ScanPrinted(minutes, rest);
    MinusScanned(hours, [58] + later);
    hide ScanInt, GetMinutes, Digits;
    MinutesOf([45] + (Digits(hours) + ([58] + later)), 0 - hours, later, minutes, rest);
  }

  /** Without a colon behind the hours there is nothing to read. */
  lemma NoMinutes(hours: nat)
    ensures GetMinutes(Digits(hours)) == None == GetMinutes([])
  {
    ScanPrinted(hours, []);
    assert Digits(hours) + [] == Digits(hours);
  }

  lemma MinusScanned(n: nat, rest: seq<byte>)
    requires rest == [] || !IsDigit(rest[0])
    ensures ScanInt([45] + (Digits(n) + rest)) == Number(0 - n, rest)
  {
    ScanDigitsOf(n, rest);
    var s := Digits(n) + rest;
    assert s[0] == Digits(n)[0] && ([45] + s)[1..] == s;
  }

  /** A connection can be taken over exactly when the server has measured ten minutes. */
  lemma StealIff(e: int)
    requires 0 <= e
    ensures GetMinutes(TimeText(e)).Some?
    ensures GetMinutes(TimeText(e)).value >= RESERVETIME <==> e >= 600
  {
    MinutesRoundTrip(e);
  }
}
