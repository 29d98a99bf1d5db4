/**
 * The PHP built-ins the core relies on, each written out as a function with
 * the behaviour it has on the values the core hands it: character classes of
 * PCRE patterns, digit strings and PHP's integer conversions, trim/ltrim/rtrim,
 * substr, str_replace, implode and str_split, number_format, sprintf('%02d')
 * and checkdate.
 */
module Php {
  import opened Wrappers

  // ---------------------------------------------------------------- characters

  predicate IsDigit(c: char) { '0' <= c <= '9' }

  function DigitValue(c: char): (d: nat)
    requires IsDigit(c)
    ensures d < 10
  {
    c as int - '0' as int
  }

  function DigitChar(d: nat): (c: char)
    requires d < 10
    ensures IsDigit(c) && DigitValue(c) == d
  {
    ('0' as int + d) as char
  }

  predicate AllDigits(s: string) { forall i :: 0 <= i < |s| ==> IsDigit(s[i]) }

  /**
   * Whitespace as both PCRE's \s (without the u flag) and PHP's numeric-string
   * reader understand it: space, HT, LF, VT, FF and CR.
   */
  const SpaceChars: set<char> := {' ', '\t', '\n', 11 as char, 12 as char, '\r'}

  predicate IsSpace(c: char) { c in SpaceChars }

  predicate AllSpace(s: string) { forall i :: 0 <= i < |s| ==> IsSpace(s[i]) }

  /** The characters trim() strips when it is given no character list. */
  const TrimChars: set<char> := {' ', '\t', '\n', '\r', '\0', 11 as char}

  /** Solver aid: no digit is among the characters trim() strips by default. */
  lemma DigitNotTrimmed(c: char)
    requires IsDigit(c)
    ensures c !in TrimChars
  {
  }

  // ------------------------------------------------------------- digit strings

  /** The value of a string of decimal digits, as PHP's (int) reads it. */
  function DigitsValue(s: string): nat
    requires AllDigits(s)
  {
    if s == [] then 0 else DigitsValue(s[..|s| - 1]) * 10 + DigitValue(s[|s| - 1])
  }

  /** The decimal representation of n without leading zeros (PHP's (string) of an int). */
  function Digits(n: nat): (s: string)
    ensures 1 <= |s| && AllDigits(s)
    ensures s[0] == '0' <==> n == 0
    ensures |s| == 1 <==> n < 10
    ensures 10 <= n < 100 ==> |s| == 2
  {
    if n < 10 then [DigitChar(n)] else Digits(n / 10) + [DigitChar(n % 10)]
  }

  lemma {:induction false} DigitsValueOfDigits(n: nat)
    ensures DigitsValue(Digits(n)) == n
  {
    if n >= 10 {
      var s := Digits(n);
      assert s[..|s| - 1] == Digits(n / 10);
      DigitsValueOfDigits(n / 10);
    }
  }

  /** sprintf('%02d', n) for n >= 0: the decimal digits of n, padded with zeros to at least two. */
  function Pad2(n: nat): (s: string)
    ensures |s| >= 2 && AllDigits(s) && DigitsValue(s) == n
    ensures n < 100 ==> |s| == 2
    ensures |s| == 2 || s[0] != '0'
  {
    if n < 10 then
      var s := ['0', DigitChar(n)];
      assert s[..1] == ['0'] && ['0'][..0] == [];
      assert DigitsValue(['0']) == 0;
      s
    else
      DigitsValueOfDigits(n);
      Digits(n)
  }

  /** Below 100, Pad2 gives the tens digit and the units digit. */
  lemma Pad2OfTwoDigits(n: nat)
    requires n < 100
    ensures Pad2(n) == [DigitChar(n / 10), DigitChar(n % 10)]
  {
    if n < 10 {
      assert n / 10 == 0 && n % 10 == n && DigitChar(0) == '0';
    } else {
      assert Digits(n) == Digits(n / 10) + [DigitChar(n % 10)];
      assert Digits(n / 10) == [DigitChar(n / 10)];
    }
  }

  /** Reading one more digit multiplies the value by ten and adds that digit. */
  lemma DigitsValueSnoc(s: string, c: char)
    requires AllDigits(s) && IsDigit(c)
    ensures AllDigits(s + [c]) && DigitsValue(s + [c]) == DigitsValue(s) * 10 + DigitValue(c)
  {
    assert forall i :: 0 <= i < |s + [c]| ==> (s + [c])[i] == if i < |s| then s[i] else c;
    assert (s + [c])[..|s|] == s;
  }

  function Pow10(n: nat): (p: nat)
    ensures p >= 1
  {
    if n == 0 then 1 else 10 * Pow10(n - 1)
  }

  /** The value of a + b: the value of a shifted by the length of b, plus the value of b. */
  lemma {:induction false} DigitsValueAppend(a: string, b: string)
    requires AllDigits(a) && AllDigits(b)
    ensures AllDigits(a + b) && DigitsValue(a + b) == DigitsValue(a) * Pow10(|b|) + DigitsValue(b)
  {
    if b == [] {
      assert a + b == a;
    } else {
      var b' := b[..|b| - 1];
      var c := b[|b| - 1];
      assert b == b' + [c];
      assert a + b == (a + b') + [c];
      DigitsValueAppend(a, b');
      DigitsValueSnoc(a + b', c);
      ShiftDigit(DigitsValue(a), Pow10(|b'|), DigitsValue(b'), DigitValue(c));
    }
  }

  /** Solver aid for DigitsValueAppend: the one step of nonlinear arithmetic it needs. */
  lemma ShiftDigit(x: int, p: int, y: int, d: int)
    ensures (x * p + y) * 10 + d == x * (10 * p) + (y * 10 + d)
  {
    assert (x * p) * 10 == x * (10 * p);
  }

  /** The longest prefix of s made of decimal digits. */
  function DigitRun(s: string): (r: string)
    ensures AllDigits(r) && |r| <= |s| && r == s[..|r|]
    ensures AllDigits(s) ==> r == s
  {
    if s != [] && IsDigit(s[0]) then [s[0]] + DigitRun(s[1..]) else []
  }

  /**
   * PHP's (int) cast of a string of at most two characters: leading
   * whitespace is skipped, an optional sign is read, then the leading digits;
   * a string with no leading digits gives 0. (Longer strings may hold a
   * fraction with an exponent, which this reading does not cover.)
   */
  function IntCast(s: string): (n: int)
    requires |s| <= 2
  {
    var t := LTrim(s, SpaceChars);
    if t != [] && (t[0] == '-' || t[0] == '+') then
      (if t[0] == '-' then -1 else 1) * DigitsValue(DigitRun(t[1..]))
    else
      DigitsValue(DigitRun(t))
  }

  /** A cast of at most two characters lies between -9 and 99. */
  lemma IntCastBounds(s: string)
    requires |s| <= 2
    ensures -9 <= IntCast(s) <= 99
  {
    var t := LTrim(s, SpaceChars);
    if t != [] && (t[0] == '-' || t[0] == '+') {
      TwoDigitsBelow100(DigitRun(t[1..]));
    } else {
      TwoDigitsBelow100(DigitRun(t));
    }
  }

  /** Solver aid for IntCastBounds: at most two digits are worth at most 99. */
  lemma TwoDigitsBelow100(d: string)
    requires |d| <= 2 && AllDigits(d)
    ensures DigitsValue(d) <= 99
  {
    if d != [] {
      assert DigitsValue(d[..|d| - 1]) <= 9 by {
        if |d| == 2 {
          assert d[..1][..0] == [];
        }
      }
    }
  }

  lemma IntCastOfDigits(s: string)
    requires |s| <= 2 && AllDigits(s)
    ensures IntCast(s) == DigitsValue(s)
  {
    if s != [] {
      assert s[0] !in SpaceChars;
    }
    assert LTrim(s, SpaceChars) == s;
  }

  // ------------------------------------------------------------------ trimming

  /** ltrim(s, cs): the characters of cs removed from the start. */
  function LTrim(s: string, cs: set<char>): (r: string)
    ensures |r| <= |s| && r == s[|s| - |r|..]
    ensures forall i :: 0 <= i < |s| - |r| ==> s[i] in cs
    ensures r != [] ==> r[0] !in cs
    decreases |s|
  {
    if s != [] && s[0] in cs then LTrim(s[1..], cs) else s
  }

  /** rtrim(s, cs): the characters of cs removed from the end. */
  function RTrim(s: string, cs: set<char>): (r: string)
    ensures |r| <= |s| && r == s[..|r|]
    ensures forall i :: |r| <= i < |s| ==> s[i] in cs
    ensures r != [] ==> r[|r| - 1] !in cs
    decreases |s|
  {
    if s != [] && s[|s| - 1] in cs then RTrim(s[..|s| - 1], cs) else s
  }

  /** trim(s, cs): the characters of cs removed from both ends. */
  function Trim(s: string, cs: set<char>): string
  {
    RTrim(LTrim(s, cs), cs)
  }

  /** Appending a strippable character does not change what trim() gives. */
  lemma TrimAppendStripped(s: string, c: char, cs: set<char>)
    requires c in cs && s != [] && s[0] !in cs
    ensures Trim(s + [c], cs) == Trim(s, cs)
  {
    assert LTrim(s + [c], cs) == s + [c];
    assert LTrim(s, cs) == s;
    assert (s + [c])[..|s|] == s;
  }

  /** A string that starts with a character trim() keeps does not trim to "". */
  lemma TrimKeepsFirst(s: string, cs: set<char>)
    requires s != [] && s[0] !in cs
    ensures Trim(s, cs) != [] && Trim(s, cs)[0] == s[0]
  {
    assert LTrim(s, cs) == s;
  }

  /** A string whose first and last characters are kept is its own trim. */
  lemma TrimUntouched(s: string, cs: set<char>)
    requires s != [] && s[0] !in cs && s[|s| - 1] !in cs
    ensures Trim(s, cs) == s
  {
    assert LTrim(s, cs) == s;
  }

  // ---------------------------------------------------------- sequences, bytes

  /** substr(s, start, length) of PHP 8 for non-negative start and length. */
  function Substr(s: string, start: nat, length: nat): (r: string)
    ensures |r| <= length
    ensures start + length <= |s| ==> r == s[start..start + length]
    ensures start >= |s| ==> r == []
    ensures start < |s| < start + length ==> r == s[start..]
  {
    if start >= |s| then [] else s[start..if start + length <= |s| then start + length else |s|]
  }

  /** s with every x deleted: str_replace(x, '', s), or preg_replace of a one-character class by ''. */
  function Remove<T(==)>(s: seq<T>, x: T): (r: seq<T>)
    ensures x !in r && |r| <= |s|
  {
    if s == [] then [] else (if s[0] == x then [] else [s[0]]) + Remove(s[1..], x)
  }

  lemma {:induction false} RemoveAppend<T>(a: seq<T>, b: seq<T>, x: T)
    ensures Remove(a + b, x) == Remove(a, x) + Remove(b, x)
  {
    if a == [] {
      assert a + b == b;
    } else {
      assert (a + b)[0] == a[0] && (a + b)[1..] == a[1..] + b;
      RemoveAppend(a[1..], b, x);
      var h := if a[0] == x then [] else [a[0]];
      assert Remove(a + b, x) == h + Remove(a[1..] + b, x);
      assert Remove(a, x) == h + Remove(a[1..], x);
    }
  }

  lemma {:induction false} RemoveAbsent<T>(s: seq<T>, x: T)
    requires x !in s
    ensures Remove(s, x) == s
  {
    if s != [] {
      RemoveAbsent(s[1..], x);
    }
  }

  /** str_replace(x, rep, s) for a one-element search: every x replaced by rep, left to right. */
  function ReplaceAll<T(==)>(s: seq<T>, x: T, rep: seq<T>): (r: seq<T>)
    ensures x !in rep ==> x !in r
    ensures |s| == 1 ==> r == (if s[0] == x then rep else s)
  {
    if s == [] then [] else (if s[0] == x then rep else [s[0]]) + ReplaceAll(s[1..], x, rep)
  }

  /**
   * One occurrence becomes the replacement. With ReplaceAllAppend and
   * ReplaceAllAbsent this fixes the result on every string.
   */
  lemma ReplaceAllSingle<T>(x: T, rep: seq<T>)
    ensures ReplaceAll([x], x, rep) == rep
  {
    assert [x][1..] == [];
  }

  lemma {:induction false} ReplaceAllAbsent<T>(s: seq<T>, x: T, rep: seq<T>)
    requires x !in s
    ensures ReplaceAll(s, x, rep) == s
  {
    if s != [] {
      ReplaceAllAbsent(s[1..], x, rep);
    }
  }

  lemma {:induction false} ReplaceAllAppend<T>(a: seq<T>, b: seq<T>, x: T, rep: seq<T>)
    ensures ReplaceAll(a + b, x, rep) == ReplaceAll(a, x, rep) + ReplaceAll(b, x, rep)
  {
    if a == [] {
      assert a + b == b;
    } else {
      assert (a + b)[0] == a[0] && (a + b)[1..] == a[1..] + b;
      ReplaceAllAppend(a[1..], b, x, rep);
      var h := if a[0] == x then rep else [a[0]];
      assert ReplaceAll(a + b, x, rep) == h + ReplaceAll(a[1..] + b, x, rep);
      assert ReplaceAll(a, x, rep) == h + ReplaceAll(a[1..], x, rep);
    }
  }

  /** Replacing x by itself changes nothing. */
  lemma {:induction false} ReplaceAllIdentity<T>(s: seq<T>, x: T)
    ensures ReplaceAll(s, x, [x]) == s
  {
    if s != [] {
      ReplaceAllIdentity(s[1..], x);
    }
  }

  /** implode(sep, parts). */
  function Join(sep: string, parts: seq<string>): (r: string)
    ensures parts != [] ==> |r| >= |parts[0]| && r[..|parts[0]|] == parts[0]
  {
    if parts == [] then "" else if |parts| == 1 then parts[0] else parts[0] + sep + Join(sep, parts[1..])
  }

  // ------------------------------------------------------------ digit grouping

  /**
   * implode(' ', str_split(s, 3)): s cut into pieces of three characters from
   * the left (the last may be shorter) joined by single spaces.
   */
  function GroupInThrees(s: string): (r: string)
    ensures s != [] ==> |r| == |s| + (|s| - 1) / 3
    ensures s == [] ==> r == []
    decreases |s|
  {
    if |s| <= 3 then s else s[..3] + " " + GroupInThrees(s[3..])
  }

  /** Removing the spaces gives s back, and the spaces stand exactly at every fourth place. */
  lemma GroupInThreesLayout(s: string)
    requires ' ' !in s
    ensures Remove(GroupInThrees(s), ' ') == s
    ensures var r := GroupInThrees(s);
      forall i :: 0 <= i < |r| ==> (r[i] == ' ' <==> i % 4 == 3)
    ensures var r := GroupInThrees(s);
      s != [] ==> |r| == |s| + (|s| - 1) / 3 && r[|r| - 1] != ' '
  {
    GroupInThreesRemove(s);
    GroupInThreesSpaces(s);
    if s != [] {
      LastGroupPosition(|s|);
    }
  }

  /** The last character of n characters grouped in threes is not at a separator position. */
  lemma LastGroupPosition(n: int)
    requires n >= 1
    ensures (n + (n - 1) / 3 - 1) % 4 != 3
  {
    var k := (n - 1) / 3;
    var j := (n - 1) % 3;
    assert n - 1 == 3 * k + j;
    assert n + k - 1 == 4 * k + j;
  }

  lemma {:induction false} GroupInThreesRemove(s: string)
    requires ' ' !in s
    ensures Remove(GroupInThrees(s), ' ') == s
    decreases |s|
  {
    if |s| <= 3 {
      RemoveAbsent(s, ' ');
    } else {
      var g := GroupInThrees(s[3..]);
      GroupInThreesRemove(s[3..]);
      assert GroupInThrees(s) == s[..3] + " " + g;
      RemoveAppend(s[..3] + " ", g, ' ');
      RemoveAppend(s[..3], " ", ' ');
      RemoveAbsent(s[..3], ' ');
      assert s[..3] + s[3..] == s;
    }
  }

  lemma {:induction false} GroupInThreesSpaces(s: string)
    requires ' ' !in s
    ensures forall i :: 0 <= i < |GroupInThrees(s)| ==> (GroupInThrees(s)[i] == ' ' <==> i % 4 == 3)
    decreases |s|
  {
    var r := GroupInThrees(s);
    if |s| <= 3 {
      assert forall i :: 0 <= i < |r| ==> r[i] == s[i] && s[i] in s;
    } else {
      var g := GroupInThrees(s[3..]);
      GroupInThreesSpaces(s[3..]);
      assert r == s[..3] + " " + g;
      forall i | 0 <= i < |r|
        ensures r[i] == ' ' <==> i % 4 == 3
      {
        if i >= 4 {
          assert r[i] == g[i - 4] && (i - 4) % 4 == i % 4;
        } else if i < 3 {
          assert r[i] == s[i] && s[i] in s;
        } else {
          assert r[i] == ' ';
        }
      }
    }
  }

  /** The digits of s in groups of three counted from the right, separated by single spaces. */
  function GroupThousands(s: string): (r: string)
    ensures |s| > 0 ==> |r| > 0 && r[0] == s[0]
    decreases |s|
  {
    if |s| <= 3 then s else GroupThousands(s[..|s| - 3]) + " " + s[|s| - 3..]
  }

  /** Removing the spaces gives s back, and the spaces stand exactly at every fourth place from the right. */
  lemma GroupThousandsLayout(s: string)
    requires ' ' !in s
    ensures Remove(GroupThousands(s), ' ') == s
    ensures SpacedFromRight(GroupThousands(s))
  {
    GroupThousandsRemove(s);
    GroupThousandsSpaces(s);
  }

  lemma {:induction false} GroupThousandsRemove(s: string)
    requires ' ' !in s
    ensures Remove(GroupThousands(s), ' ') == s
    decreases |s|
  {
    if |s| <= 3 {
      RemoveAbsent(s, ' ');
    } else {
      var p, t := s[..|s| - 3], s[|s| - 3..];
      assert p + t == s;
      assert ' ' !in p by { assert forall i :: 0 <= i < |p| ==> p[i] == s[i]; }
      assert ' ' !in t by { assert forall i :: 0 <= i < |t| ==> t[i] == s[|s| - 3 + i]; }
      GroupThousandsRemove(p);
      RemoveSpaceJoin(GroupThousands(p), t);
    }
  }

  /** The spaces of r stand exactly at every fourth place counted from its end. */
  predicate SpacedFromRight(r: string)
  {
    forall i :: 0 <= i < |r| ==> (r[i] == ' ' <==> (|r| - 1 - i) % 4 == 3)
  }

  lemma {:induction false} GroupThousandsSpaces(s: string)
    requires ' ' !in s
    ensures SpacedFromRight(GroupThousands(s))
    decreases |s|
  {
    if |s| <= 3 {
      forall i | 0 <= i < |s| ensures s[i] != ' ' && (|s| - 1 - i) % 4 != 3 {
      }
    } else {
      var p, t := s[..|s| - 3], s[|s| - 3..];
      assert ' ' !in p by { assert forall i :: 0 <= i < |p| ==> p[i] == s[i]; }
      assert ' ' !in t by { assert forall i :: 0 <= i < |t| ==> t[i] == s[|s| - 3 + i]; }
      GroupThousandsSpaces(p);
      SpacesFromRight(GroupThousands(p), t);
    }
  }

  lemma RemoveSpaceJoin(g: string, t: string)
    requires ' ' !in t
    ensures Remove(g + " " + t, ' ') == Remove(g, ' ') + t
  {
    RemoveAppend(g + " ", t, ' ');
    RemoveAbsent(t, ' ');
    assert Remove(g + " " + t, ' ') == Remove(g + " ", ' ') + t;
    RemoveAppend(g, " ", ' ');
    RemoveSingle(' ');
    assert Remove(g + " ", ' ') == Remove(g, ' ');
  }

  lemma RemoveSingle<T>(x: T)
    ensures Remove([x], x) == []
  {
    assert [x][1..] == [];
  }

  /** One more group of three behind a correctly spaced prefix keeps the spacing. */
  lemma SpacesFromRight(g: string, t: string)
    requires |t| == 3 && ' ' !in t
    requires SpacedFromRight(g)
    ensures SpacedFromRight(g + " " + t)
  {
    var r := g + " " + t;
    forall i | 0 <= i < |r|
      ensures r[i] == ' ' <==> (|r| - 1 - i) % 4 == 3
    {
      if i < |g| {
        assert r[i] == g[i];
        assert |r| - 1 - i == (|g| - 1 - i) + 4;
      } else if i > |g| {
        assert r[i] == t[i - |g| - 1];
      }
    }
  }

  /** number_format(n, 0, '.', ' '): a minus sign for negative n, then the magnitude in groups of thousands. */
  function NumberFormat(n: int): (r: string)
    ensures r != [] && (r[0] == '-' <==> n < 0)
    ensures n >= 0 ==> IsDigit(r[0])
  {
    (if n < 0 then "-" else "") + GroupThousands(Digits(if n < 0 then -n else n))
  }

  /** Below a thousand number_format adds no separator. */
  lemma NumberFormatBelow1000(n: int)
    requires 0 <= n < 1000
    ensures NumberFormat(n) == Digits(n)
  {
    if n >= 100 {
      assert Digits(n) == Digits(n / 10) + [DigitChar(n % 10)];
      assert |Digits(n / 10)| == 2;
    }
    assert |Digits(n)| <= 3;
    assert NumberFormat(n) == "" + GroupThousands(Digits(n));
  }

  /** The reference reading of a whole number written with space-separated thousands. */
  function ParseGrouped(t: string): Option<int>
  {
    var neg := |t| > 0 && t[0] == '-';
    var body := Remove(if neg then t[1..] else t, ' ');
    if body != [] && AllDigits(body) then
      var v: int := DigitsValue(body);
      Some(if neg then -v else v)
    else None
  }

  /** What number_format prints reads back as the same number. */
  lemma NumberFormatRoundTrip(n: int)
    ensures ParseGrouped(NumberFormat(n)) == Some(n)
  {
    var m := if n < 0 then -n else n;
    DigitsValueOfDigits(m);
    ParseSigned(Digits(m), m, n < 0);
  }

  /** A sign and grouped digits read back as the signed value of the digits. */
  lemma ParseSigned(d: string, m: int, neg: bool)
    requires d != [] && AllDigits(d) && DigitsValue(d) == m
    ensures ParseGrouped((if neg then "-" else "") + GroupThousands(d)) == Some(if neg then -m else m)
  {
    var g := GroupThousands(d);
    assert ' ' !in d by {
      assert forall i :: 0 <= i < |d| ==> IsDigit(d[i]);
    }
    GroupThousandsRemove(d);
    assert Remove(g, ' ') == d;
    var t := (if neg then "-" else "") + g;
    if neg {
      assert t[1..] == g;
      assert t[0] == '-';
    } else {
      assert t == g;
      assert g[0] == d[0];
      assert t[0] != '-';
    }
  }

  /** Solver aid for Czech.Inflection: number_format of a single digit is that digit. */
  lemma NumberFormatSmall(n: int)
    requires 0 <= n < 10
    ensures NumberFormat(n) == [DigitChar(n)]
  {
  }

  // ------------------------------------------------------------------ calendar

  /** The Gregorian leap-year rule. */
  predicate IsLeapYear(y: int) { y % 4 == 0 && (y % 100 != 0 || y % 400 == 0) }

  function DaysInMonth(month: int, year: int): (d: int)
    requires 1 <= month <= 12
    ensures 28 <= d <= 31
    ensures d == 29 <==> month == 2 && IsLeapYear(year)
  {
    if month == 2 then (if IsLeapYear(year) then 29 else 28)
    else if month == 4 || month == 6 || month == 9 || month == 11 then 30
    else 31
  }

  /** checkdate(month, day, year): a real day of the Gregorian calendar in years 1 to 32767. */
  predicate CheckDate(month: int, day: int, year: int)
  {
    1 <= month <= 12 && 1 <= year <= 32767 && 1 <= day <= DaysInMonth(month, year)
  }
}
