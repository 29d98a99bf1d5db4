/**
 * The Czech helpers: noun inflection by count, phone-number formatting, the
 * validation of birth numbers (rodné číslo) and company ids (IČO), and the
 * birth date and gender a birth number encodes.
 */
module Czech {
  import opened Wrappers
  import opened Php

  // ================================================================ inflection

  /** What inflection throws when its list of forms is incomplete. */
  datatype FunctionException = FunctionException

  /**
   * A PHP array of noun forms, by index. A null entry counts as missing, as it
   * does for isset.
   */
  type Forms = map<int, string>

  /** The list literal [a, b, c], without the entries that are null. */
  function FormList(a: Option<string>, b: Option<string>, c: Option<string>): (f: Forms)
    ensures (0 in f <==> a.Some?) && (1 in f <==> b.Some?) && (2 in f <==> c.Some?)
    ensures a.Some? ==> f[0] == a.value
    ensures b.Some? ==> f[1] == b.value
    ensures c.Some? ==> f[2] == c.value
  {
    (if a.Some? then map[0 := a.value] else map[])
    + (if b.Some? then map[1 := b.value] else map[])
    + (if c.Some? then map[2 := c.value] else map[])
  }

  /** The form Czech grammar puts after a count: 0 after one, 1 after two to four, 2 after any other. */
  function FormIndex(number: int): (k: int)
    ensures 0 <= k <= 2
  {
    if number == 1 then 0 else if 2 <= number <= 4 then 1 else 2
  }

  /**
   * Czech::inflection: the count, printed with space-separated thousands,
   * followed by the form the count calls for; a FunctionException when one of
   * the forms 0, 1 and 2 is missing.
   */
  function Inflection(number: int, parameters: Forms): (r: Result<string, FunctionException>)
    ensures r.Failure? <==> !(0 in parameters && 1 in parameters && 2 in parameters)
    ensures r.Success? ==> r.value == NumberFormat(number) + " " + parameters[FormIndex(number)]
  {
    var numberTxt := NumberFormat(number);
    if !(0 in parameters && 1 in parameters && 2 in parameters) then
      Failure(FunctionException)
    else
      var for1, for234, forOthers := parameters[0], parameters[1], parameters[2];
      NumberFormatSmall(0);
      NumberFormatSmall(1);
      if number == 0 then Success("0 " + forOthers)
      else if number == 1 then Success("1 " + for1)
      else if 2 <= number <= 4 then Success(numberTxt + " " + for234)
      else Success(numberTxt + " " + forOthers)
  }

  /** The count in front of the form reads back as the number that was inflected. */
  lemma InflectionCountReadsBack(number: int, parameters: Forms)
    requires Inflection(number, parameters).Success?
    ensures var text := Inflection(number, parameters).value;
      var form := parameters[FormIndex(number)];
      |text| > |form| && text[|text| - |form|..] == form && text[|text| - |form| - 1] == ' ' &&
      ParseGrouped(text[..|text| - |form| - 1]) == Some(number)
  {
    var text := Inflection(number, parameters).value;
    var form := parameters[FormIndex(number)];
    var n := NumberFormat(number);
    assert text == n + " " + form;
    assert text[..|text| - |form| - 1] == n;
    NumberFormatRoundTrip(number);
  }

  // ============================================================== phone number

  predicate IsPhoneChar(c: char) { IsDigit(c) || c == '+' }

  /** preg_replace('/[^0-9\+]+/', '', s): the digits and plus signs of s, in order. */
  function KeepPhoneChars(s: string): (r: string)
    ensures |r| <= |s|
    ensures forall i :: 0 <= i < |r| ==> IsPhoneChar(r[i])
    ensures |s| == 1 ==> (r == s <==> IsPhoneChar(s[0]))
  {
    if s == [] then []
    else (if IsPhoneChar(s[0]) then [s[0]] else []) + KeepPhoneChars(s[1..])
  }

  /**
   * What Czech::formatPhoneNumber returns. After the cleanup the prefix is
   * chosen by the first case that applies: nine digits get "+420 "; a
   * leading plus gets "+" with the plus signs trimmed from both ends; a
   * leading "00" gets "+" with the leading zeros stripped; anything else gets
   * none. The rest is cut into threes joined by spaces, and with the flag set
   * to true every space becomes "&nbsp;".
   */
  function PhoneText(phoneNumber: string, addNoBreakSpace: Option<bool>): string
  {
    var spaced := SpacedPhone(KeepPhoneChars(phoneNumber));
    if addNoBreakSpace == Some(true) then ReplaceAll(spaced, ' ', "&nbsp;") else spaced
  }

  /** The prefix and the groups of three for a cleaned-up number p. */
  function SpacedPhone(p: string): string
  {
    if |p| == 9 && AllDigits(p) then "+420 " + GroupInThrees(p)
    else if |p| >= 1 && p[0] == '+' then "+" + GroupInThrees(Trim(p, {'+'}))
    else if |p| >= 2 && p[..2] == "00" then "+" + GroupInThrees(LTrim(p, {'0'}))
    else GroupInThrees(p)
  }

  /** Czech::formatPhoneNumber, step by step as lines 67-89 take them. */
  method FormatPhoneNumber(phoneNumber: string, addNoBreakSpace: Option<bool>) returns (result: string)
    ensures result == PhoneText(phoneNumber, addNoBreakSpace)
    ensures addNoBreakSpace == Some(true) ==> result == ReplaceAll(PhoneText(phoneNumber, None), ' ', "&nbsp;")
    ensures addNoBreakSpace != Some(true) ==> result == PhoneText(phoneNumber, None)
    ensures addNoBreakSpace == Some(true) ==> ' ' !in result
  {
    var phone := KeepPhoneChars(phoneNumber);
    var prefix: string;
    if |phone| == 9 && AllDigits(phone) {
      prefix := "+420 ";
    } else if |phone| >= 1 && phone[0] == '+' {
      prefix := "+";
      phone := Trim(phone, {'+'});
    } else if |phone| >= 2 && phone[..2] == "00" {
      prefix := "+";
      phone := LTrim(phone, {'0'});
    } else {
      prefix := "";
      assert prefix + GroupInThrees(phone) == GroupInThrees(phone);
    }
    result := prefix + GroupInThrees(phone);
    if addNoBreakSpace == Some(true) {
      assert ' ' !in "&nbsp;";
      result := ReplaceAll(result, ' ', "&nbsp;");
      assert ' ' !in result;
    }
  }

  /**
   * Without the no-break flag the spaces are the only thing added: removing
   * them leaves the prefix sign and the cleaned-up number.
   */
  lemma PhoneDigitsKept(phoneNumber: string, addNoBreakSpace: Option<bool>)
    requires addNoBreakSpace != Some(true)
    ensures var p := KeepPhoneChars(phoneNumber);
      Remove(PhoneText(phoneNumber, addNoBreakSpace), ' ')
      == if |p| == 9 && AllDigits(p) then "+420" + p
         else if |p| >= 1 && p[0] == '+' then "+" + Trim(p, {'+'})
         else if |p| >= 2 && p[..2] == "00" then "+" + LTrim(p, {'0'})
         else p
  {
    var p := KeepPhoneChars(phoneNumber);
    assert ' ' !in p by {
      assert forall i :: 0 <= i < |p| ==> IsPhoneChar(p[i]);
    }
    if |p| == 9 && AllDigits(p) {
      Prefixed("+420 ", p);
      assert Remove("+420 ", ' ') == "+420";
    } else if |p| >= 1 && p[0] == '+' {
      var t := Trim(p, {'+'});
      NoSpaceLeft(p, t);
      Prefixed("+", t);
      assert Remove("+", ' ') == "+";
    } else if |p| >= 2 && p[..2] == "00" {
      var t := LTrim(p, {'0'});
      NoSpaceLeft(p, t);
      Prefixed("+", t);
      assert Remove("+", ' ') == "+";
    } else {
      GroupInThreesLayout(p);
    }
  }

  /** A trimmed piece of a string without spaces has no spaces. */
  lemma NoSpaceLeft(p: string, t: string)
    requires ' ' !in p
    requires t == Trim(p, {'+'}) || t == LTrim(p, {'0'})
    ensures ' ' !in t
  {
    if t == LTrim(p, {'0'}) {
      NoSpaceLTrim(p, {'0'});
    } else {
      NoSpaceLTrim(p, {'+'});
      NoSpaceRTrim(LTrim(p, {'+'}), {'+'});
    }
  }

  /** ltrim() of a string without spaces has none. */
  lemma NoSpaceLTrim(p: string, cs: set<char>)
    requires ' ' !in p
    ensures ' ' !in LTrim(p, cs)
  {
    var l := LTrim(p, cs);
    NoSpaceInSlice(p, |p| - |l|, |p|);
    assert l == p[|p| - |l|..|p|];
  }

  /** rtrim() of a string without spaces has none. */
  lemma NoSpaceRTrim(p: string, cs: set<char>)
    requires ' ' !in p
    ensures ' ' !in RTrim(p, cs)
  {
    var r := RTrim(p, cs);
    NoSpaceInSlice(p, 0, |r|);
    assert r == p[0..|r|];
  }

  /** A slice of a string without spaces has none. */
  lemma NoSpaceInSlice(p: string, i: nat, j: nat)
    requires i <= j <= |p| && ' ' !in p
    ensures ' ' !in p[i..j]
  {
    assert forall k :: 0 <= k < j - i ==> p[i..j][k] == p[i + k];
  }

  /** Removing the spaces of a prefix and a grouped number. */
  lemma Prefixed(prefix: string, t: string)
    requires ' ' !in t
    ensures Remove(prefix + GroupInThrees(t), ' ') == Remove(prefix, ' ') + t
  {
    RemoveAppend(prefix, GroupInThrees(t), ' ');
    GroupInThreesLayout(t);
  }

  /** A string of digits and plus signs passes the cleanup unchanged. */
  lemma {:induction false} KeepClean(s: string)
    requires forall i :: 0 <= i < |s| ==> IsPhoneChar(s[i])
    ensures KeepPhoneChars(s) == s
  {
    if s != [] {
      KeepClean(s[1..]);
    }
  }

  /** The cleanup works character by character: it distributes over concatenation. */
  lemma {:induction false} KeepPhoneCharsAppend(a: string, b: string)
    ensures KeepPhoneChars(a + b) == KeepPhoneChars(a) + KeepPhoneChars(b)
  {
    if a == [] {
      assert a + b == b;
    } else {
      assert (a + b)[0] == a[0] && (a + b)[1..] == a[1..] + b;
      KeepPhoneCharsAppend(a[1..], b);
      var h := if IsPhoneChar(a[0]) then [a[0]] else [];
      assert KeepPhoneChars(a + b) == h + KeepPhoneChars(a[1..] + b);
    }
  }

  /** A string of digits and plus signs is laid out without a cleanup. */
  lemma CleanText(s: string)
    requires forall i :: 0 <= i < |s| ==> IsPhoneChar(s[i])
    ensures PhoneText(s, None) == SpacedPhone(s)
  {
    KeepClean(s);
  }

  /** A number behind one plus sign keeps the plus and loses nothing else. */
  lemma PlusPrefixed(t: string)
    requires t != [] && IsDigit(t[0]) && IsDigit(t[|t| - 1])
    ensures SpacedPhone("+" + t) == "+" + GroupInThrees(t)
  {
    var s := "+" + t;
    assert !AllDigits(s) by { assert !IsDigit(s[0]); }
    assert s[0] == '+';
    PlusTrimmed(t);
  }

  /** Trimming the plus signs of "+" + t gives t when t starts and ends with a digit. */
  lemma PlusTrimmed(t: string)
    requires t != [] && IsDigit(t[0]) && IsDigit(t[|t| - 1])
    ensures Trim("+" + t, {'+'}) == t
  {
    var s := "+" + t;
    var cs := {'+'};
    assert s[0] in cs && s[1..] == t;
    assert LTrim(s, cs) == LTrim(t, cs);
    assert t[0] !in cs;
    assert LTrim(t, cs) == t;
    assert t[|t| - 1] !in cs;
    assert RTrim(t, cs) == t;
  }

  /**
   * A number that starts with a digit other than zero, behind "00". Seven
   * characters behind "00" make nine digits, where the first rule applies.
   */
  lemma ZeroPrefixed(t: string)
    requires t != [] && IsDigit(t[0]) && t[0] != '0' && |t| != 7
    ensures SpacedPhone("00" + t) == "+" + GroupInThrees(t)
  {
    var s := "00" + t;
    assert s[..2] == "00" && s[0] != '+' && |s| != 9;
    ZerosTrimmed(t);
  }

  /** Stripping the leading zeros of "00" + t gives t when t starts with another character. */
  lemma ZerosTrimmed(t: string)
    requires t != [] && t[0] != '0'
    ensures LTrim("00" + t, {'0'}) == t
  {
    var s := "00" + t;
    assert s[1..] == "0" + t;
    assert s[1..][1..] == t;
    assert LTrim(s, {'0'}) == LTrim(s[1..], {'0'});
    assert LTrim(s[1..], {'0'}) == LTrim(t, {'0'});
  }

  /** The national part of the documented example, grouped. */
  lemma GroupedNational()
    ensures GroupInThrees("777123456") == "777 123 456"
  {
    var s := "777123456";
    assert s[..3] == "777" && s[3..] == "123456";
    assert s[3..][..3] == "123" && s[3..][3..] == "456";
  }

  /** The documented example's digits after the plus sign, grouped. */
  lemma GroupedInternational()
    ensures GroupInThrees("420777123456") == "420 777 123 456"
  {
    var s := "420777123456";
    assert s[..3] == "420" && s[3..] == "777123456";
    GroupedNational();
  }

  /** The documented example, written with the international prefix. */
  lemma PhoneExampleInternational(s: string)
    requires s == "+420777123456"
    ensures PhoneText(s, None) == "+420 777 123 456"
  {
    var t := "420777123456";
    assert s == "+" + t;
    CleanText(s);
    PlusPrefixed(t);
    GroupedInternational();
    PlusText();
  }

  /** The documented example, written with "00" before the country code. */
  lemma PhoneExampleZeros(s: string)
    requires s == "00420777123456"
    ensures PhoneText(s, None) == "+420 777 123 456"
  {
    var t := "420777123456";
    assert s == "00" + t;
    CleanText(s);
    ZeroPrefixed(t);
    GroupedInternational();
    PlusText();
  }

  /** Solver aid for the phone examples: one literal concatenation, kept apart so that it is evaluated once. */
  lemma PlusText()
    ensures "+" + "420 777 123 456" == "+420 777 123 456"
  {
  }

  /** The documented example, written as nine national digits. */
  lemma PhoneExampleNational(s: string)
    requires s == "777123456"
    ensures PhoneText(s, None) == "+420 777 123 456"
  {
    KeepClean(s);
    assert PhoneText(s, None) == "+420 " + GroupInThrees(s);
    GroupedNational();
    NationalText();
  }

  /** Solver aid for the national phone example: one literal concatenation. */
  lemma NationalText()
    ensures "+420 " + "777 123 456" == "+420 777 123 456"
  {
  }

  // ============================================================== birth number

  /**
   * The pieces of a string matched by
   * #^\s*(\d\d)(\d\d)(\d\d)[ /]*(\d\d\d)(\d?)\s*$#: the leading whitespace,
   * the five groups and, between and after them, the separators and the
   * trailing whitespace.
   */
  datatype BirthNumberMatch = BirthNumberMatch(
    lead: string, year: string, month: string, day: string,
    sep: string, ext: string, check: string, trail: string)

  predicate IsSeparator(c: char) { c == ' ' || c == '/' }

  predicate AllSeparators(s: string) { forall i :: 0 <= i < |s| ==> IsSeparator(s[i]) }

  /** The shape the pattern demands of each piece. */
  predicate WellFormed(m: BirthNumberMatch)
  {
    AllSpace(m.lead) && |m.year| == 2 && AllDigits(m.year) &&
    |m.month| == 2 && AllDigits(m.month) && |m.day| == 2 && AllDigits(m.day) &&
    AllSeparators(m.sep) && |m.ext| == 3 && AllDigits(m.ext) &&
    |m.check| <= 1 && AllDigits(m.check) && AllSpace(m.trail)
  }

  /** The string the pieces come from. */
  function Assemble(m: BirthNumberMatch): string
  {
    m.lead + (m.year + (m.month + (m.day + (m.sep + (m.ext + (m.check + m.trail))))))
  }

  /** The number of whitespace characters s starts with. */
  function SpanSpace(s: string): (n: nat)
    ensures n <= |s| && AllSpace(s[..n])
  {
    if s != [] && IsSpace(s[0]) then 1 + SpanSpace(s[1..]) else 0
  }

  /** The number of separator characters s starts with. */
  function SpanSeparators(s: string): (n: nat)
    ensures n <= |s| && AllSeparators(s[..n])
  {
    if s != [] && IsSeparator(s[0]) then 1 + SpanSeparators(s[1..]) else 0
  }

  lemma {:induction false} SpanSpaceOf(x: string, y: string)
    requires AllSpace(x) && (y == [] || !IsSpace(y[0]))
    ensures SpanSpace(x + y) == |x|
  {
    if x == [] {
      assert x + y == y;
    } else {
      assert (x + y)[0] == x[0] && (x + y)[1..] == x[1..] + y;
      SpanSpaceOf(x[1..], y);
    }
  }

  lemma {:induction false} SpanSeparatorsOf(x: string, y: string)
    requires AllSeparators(x) && (y == [] || !IsSeparator(y[0]))
    ensures SpanSeparators(x + y) == |x|
  {
    if x == [] {
      assert x + y == y;
    } else {
      assert (x + y)[0] == x[0] && (x + y)[1..] == x[1..] + y;
      SpanSeparatorsOf(x[1..], y);
    }
  }

  /** preg_match with the birth-number pattern: the pieces when it matches, None when it does not. */
  function MatchBirthNumber(s: string): Option<BirthNumberMatch>
  {
    var a := SpanSpace(s);
    MatchDate(s[..a], s[a..])
  }

  /** The match after the leading whitespace: the three pairs of digits. */
  function MatchDate(lead: string, s: string): Option<BirthNumberMatch>
  {
    if |s| < 6 || !AllDigits(s[..6]) then None
    else
      var b := SpanSeparators(s[6..]);
      MatchExtension(lead, s[..2], s[2..4], s[4..6], s[6..][..b], s[6..][b..])
  }

  /** The match after the separators: three digits, an optional check digit, trailing whitespace. */
  function MatchExtension(lead: string, year: string, month: string, day: string, sep: string, s: string): Option<BirthNumberMatch>
  {
    if |s| < 3 || !AllDigits(s[..3]) then None
    else
      var rest := s[3..];
      var c := if rest != [] && IsDigit(rest[0]) then 1 else 0;
      if !AllSpace(rest[c..]) then None
      else Some(BirthNumberMatch(lead, year, month, day, sep, s[..3], rest[..c], rest[c..]))
  }

  lemma MatchExtensionSound(lead: string, year: string, month: string, day: string, sep: string, s: string)
    requires MatchExtension(lead, year, month, day, sep, s).Some?
    ensures var m := MatchExtension(lead, year, month, day, sep, s).value;
      m.lead == lead && m.year == year && m.month == month && m.day == day && m.sep == sep &&
      m.ext + (m.check + m.trail) == s && |m.ext| == 3 && AllDigits(m.ext) &&
      |m.check| <= 1 && AllDigits(m.check) && AllSpace(m.trail)
  {
    var rest := s[3..];
    var c := if rest != [] && IsDigit(rest[0]) then 1 else 0;
    assert rest == rest[..c] + rest[c..];
    assert s == s[..3] + rest;
  }

  lemma MatchDateSound(lead: string, s: string)
    requires MatchDate(lead, s).Some?
    ensures var m := MatchDate(lead, s).value;
      m.lead == lead && m.year + (m.month + (m.day + (m.sep + (m.ext + (m.check + m.trail))))) == s &&
      |m.year| == 2 && AllDigits(m.year) && |m.month| == 2 && AllDigits(m.month) &&
      |m.day| == 2 && AllDigits(m.day) && AllSeparators(m.sep) && |m.ext| == 3 && AllDigits(m.ext) &&
      |m.check| <= 1 && AllDigits(m.check) && AllSpace(m.trail)
  {
    var t := s[6..];
    var b := SpanSeparators(t);
    var m := MatchDate(lead, s).value;
    assert m == MatchExtension(lead, s[..2], s[2..4], s[4..6], t[..b], t[b..]).value;
    MatchExtensionSound(lead, s[..2], s[2..4], s[4..6], t[..b], t[b..]);
    DateDigits(s);
    assert m.sep + (m.ext + (m.check + m.trail)) == t;
    SplitAt(s, 4, 6);
    SplitAt(s, 2, 4);
    SplitAt(s, 0, 2);
    assert s[0..] == s && s[0..2] == s[..2];
  }

  lemma SplitAt(s: string, i: nat, j: nat)
    requires i <= j <= |s|
    ensures s[i..] == s[i..j] + s[j..]
  {
  }

  lemma DateDigits(s: string)
    requires |s| >= 6 && AllDigits(s[..6])
    ensures AllDigits(s[..2]) && AllDigits(s[2..4]) && AllDigits(s[4..6])
    ensures s[..6] == s[..2] + s[2..4] + s[4..6]
  {
    assert forall i :: 0 <= i < 2 ==> s[..2][i] == s[..6][i];
    assert forall i :: 0 <= i < 2 ==> s[2..4][i] == s[..6][i + 2];
    assert forall i :: 0 <= i < 2 ==> s[4..6][i] == s[..6][i + 4];
  }

  /** A match gives well-formed pieces that make up the whole input. */
  lemma MatchSound(s: string)
    requires MatchBirthNumber(s).Some?
    ensures WellFormed(MatchBirthNumber(s).value)
    ensures Assemble(MatchBirthNumber(s).value) == s
  {
    var a := SpanSpace(s);
    var lead, rest := s[..a], s[a..];
    assert MatchBirthNumber(s) == MatchDate(lead, rest);
    MatchLeadSound(lead, rest);
    assert s == lead + rest;
  }

  /** A match after leading whitespace gives well-formed pieces that make up the whitespace and the rest. */
  lemma MatchLeadSound(lead: string, rest: string)
    requires AllSpace(lead) && MatchDate(lead, rest).Some?
    ensures WellFormed(MatchDate(lead, rest).value)
    ensures Assemble(MatchDate(lead, rest).value) == lead + rest
  {
    MatchDateSound(lead, rest);
  }

  lemma MatchExtensionComplete(m: BirthNumberMatch)
    requires WellFormed(m)
    ensures MatchExtension(m.lead, m.year, m.month, m.day, m.sep, m.ext + (m.check + m.trail)) == Some(m)
  {
    var s := m.ext + (m.check + m.trail);
    assert s[..3] == m.ext;
    var rest := s[3..];
    assert rest == m.check + m.trail;
    var c := if rest != [] && IsDigit(rest[0]) then 1 else 0;
    if m.check == "" {
      assert rest == m.trail;
      assert m.trail != [] ==> IsSpace(m.trail[0]);
      assert c == 0;
    } else {
      assert rest[0] == m.check[0];
      assert c == 1;
    }
    assert rest[..c] == m.check && rest[c..] == m.trail;
  }

  lemma MatchDateComplete(m: BirthNumberMatch)
    requires WellFormed(m)
    ensures MatchDate(m.lead, m.year + (m.month + (m.day + (m.sep + (m.ext + (m.check + m.trail)))))) == Some(m)
  {
    var tail := m.ext + (m.check + m.trail);
    var t := m.sep + tail;
    var s := m.year + (m.month + (m.day + t));
    assert s[..2] == m.year && s[2..] == m.month + (m.day + t);
    assert s[2..4] == m.month && s[4..] == m.day + t;
    assert s[4..6] == m.day && s[6..] == t;
    assert forall i :: 0 <= i < 6 ==> s[..6][i] == if i < 2 then m.year[i] else if i < 4 then m.month[i - 2] else m.day[i - 4];
    SpanSeparatorsOf(m.sep, tail);
    assert t[..|m.sep|] == m.sep && t[|m.sep|..] == tail;
    MatchExtensionComplete(m);
    assert MatchDate(m.lead, s) == MatchExtension(m.lead, m.year, m.month, m.day, m.sep, tail);
  }

  /** Every well-formed set of pieces is matched, and gives back exactly those pieces. */
  lemma MatchComplete(m: BirthNumberMatch)
    requires WellFormed(m)
    ensures MatchBirthNumber(Assemble(m)) == Some(m)
  {
    var s1 := m.year + (m.month + (m.day + (m.sep + (m.ext + (m.check + m.trail)))));
    var s := Assemble(m);
    assert s == m.lead + s1;
    SpanSpaceOf(m.lead, s1);
    assert s[..|m.lead|] == m.lead && s[|m.lead|..] == s1;
    MatchDateComplete(m);
  }

  lemma AllDigitsConcat(a: string, b: string)
    requires AllDigits(a) && AllDigits(b)
    ensures AllDigits(a + b)
  {
    assert forall i :: 0 <= i < |a + b| ==> (a + b)[i] == if i < |a| then a[i] else b[i - |a|];
  }

  /** The nine digits before the check digit, read as one number (line 152). */
  function PrefixValue(m: BirthNumberMatch): nat
    requires WellFormed(m)
  {
    AllDigitsConcat(m.year, m.month);
    AllDigitsConcat(m.year + m.month, m.day);
    AllDigitsConcat(m.year + m.month + m.day, m.ext);
    DigitsValue(m.year + m.month + m.day + m.ext)
  }

  /** The check digit the modulo-11 rule asks for: the remainder, with 10 written as 0. */
  function CheckDigitOf(v: nat): (c: nat)
    ensures c <= 9 && (c == v % 11 || (c == 0 && v % 11 == 10))
  {
    var mod := v % 11;
    if mod == 10 then 0 else mod
  }

  /** The four-digit year of a two-digit one: 00-53 are 2000-2053, 54-99 are 1954-1999. */
  function FullYear(yy: int): (year: int)
    ensures 0 <= yy < 100 ==> 1954 <= year <= 2053 && year % 100 == yy
  {
    yy + if yy < 54 then 2000 else 1900
  }

  /** FullYear undoes the two-digit year on 1954-2053, and switches century exactly between 53 and 54. */
  lemma FullYearOfTwoDigits(year: int)
    requires 1954 <= year <= 2053
    ensures FullYear(year % 100) == year
    ensures FullYear(53) == 2053 && FullYear(54) == 1954
  {
  }

  /** The month with its offset removed, as Czech::isIdentificationNumber does it (lines 164-172). */
  function NormalizeMonth(year: int, month: int): int
  {
    if year > 2003 then
      if month > 70 then month - 70
      else if month > 20 then month - 20
      else month
    else if month > 50 then month - 50
    else month
  }

  /**
   * The month with its offset removed as the birth-number rules intend: 50
   * marks a woman in every year, 20 and 70 (men and women) appear only from
   * 2004 on.
   */
  function NormalizeMonthIntended(year: int, month: int): int
  {
    if month > 70 && year > 2003 then month - 70
    else if month > 50 then month - 50
    else if month > 20 && year > 2003 then month - 20
    else month
  }

  /** Lines 144-174 on the pieces of a match, as written. */
  function ValidMatch(m: BirthNumberMatch): bool
    requires WellFormed(m)
  {
    if m.check == "" then DigitsValue(m.year) < 54
    else if CheckDigitOf(PrefixValue(m)) != DigitValue(m.check[0]) then false
    else
      var year := FullYear(DigitsValue(m.year));
      CheckDate(NormalizeMonth(year, DigitsValue(m.month)), DigitsValue(m.day), year)
  }

  /** Lines 144-174 on the pieces of a match, with the intended month rule. */
  function ValidMatchIntended(m: BirthNumberMatch): bool
    requires WellFormed(m)
  {
    if m.check == "" then DigitsValue(m.year) < 54
    else if CheckDigitOf(PrefixValue(m)) != DigitValue(m.check[0]) then false
    else
      var year := FullYear(DigitsValue(m.year));
      CheckDate(NormalizeMonthIntended(year, DigitsValue(m.month)), DigitsValue(m.day), year)
  }

  /** Czech::isIdentificationNumber, as written. */
  function IsIdentificationNumber(rc: string): (valid: bool)
    ensures valid ==> MatchBirthNumber(rc).Some?
  {
    match MatchBirthNumber(rc)
    case None => false
    case Some(m) => MatchSound(rc); ValidMatch(m)
  }

  /** Czech::isIdentificationNumber with the intended month rule. */
  function IsIdentificationNumberIntended(rc: string): (valid: bool)
    ensures valid ==> MatchBirthNumber(rc).Some?
  {
    match MatchBirthNumber(rc)
    case None => false
    case Some(m) => MatchSound(rc); ValidMatchIntended(m)
  }

  /** A nine-digit number is valid exactly when its year digits are below 54; no date is checked. */
  lemma NineDigitRule(m: BirthNumberMatch)
    requires WellFormed(m) && m.check == ""
    ensures IsIdentificationNumber(Assemble(m)) == (DigitsValue(m.year) < 54)
    ensures IsIdentificationNumberIntended(Assemble(m)) == (DigitsValue(m.year) < 54)
  {
    MatchComplete(m);
  }

  /** A ten-digit number whose last digit is not the modulo-11 check digit is invalid. */
  lemma CheckDigitRule(m: BirthNumberMatch)
    requires WellFormed(m) && |m.check| == 1
    requires CheckDigitOf(PrefixValue(m)) != DigitValue(m.check[0])
    ensures !IsIdentificationNumber(Assemble(m)) && !IsIdentificationNumberIntended(Assemble(m))
  {
    MatchComplete(m);
  }

  /** A ten-digit number with the right check digit is valid exactly when its normalised date exists. */
  lemma CalendarRule(m: BirthNumberMatch)
    requires WellFormed(m) && |m.check| == 1
    requires CheckDigitOf(PrefixValue(m)) == DigitValue(m.check[0])
    ensures var year := FullYear(DigitsValue(m.year));
      IsIdentificationNumber(Assemble(m)) ==
        CheckDate(NormalizeMonth(year, DigitsValue(m.month)), DigitsValue(m.day), year)
  {
    MatchComplete(m);
  }

  /** Of the ten possible last digits exactly one passes the checksum. */
  lemma OneCheckDigit(m: BirthNumberMatch, d: char)
    requires WellFormed(m) && |m.check| == 1 && IsDigit(d)
    ensures var m' := m.(check := [DigitChar(CheckDigitOf(PrefixValue(m)))]);
      WellFormed(m') && CheckDigitOf(PrefixValue(m')) == DigitValue(m'.check[0])
    ensures CheckDigitOf(PrefixValue(m)) == DigitValue(d) <==> d == DigitChar(CheckDigitOf(PrefixValue(m)))
  {
  }

  /** Whitespace around the number and the separators between its halves do not affect the verdict. */
  lemma SeparatorsIrrelevant(m: BirthNumberMatch, lead: string, sep: string, trail: string)
    requires WellFormed(m) && AllSpace(lead) && AllSeparators(sep) && AllSpace(trail)
    ensures IsIdentificationNumber(Assemble(m.(lead := lead, sep := sep, trail := trail)))
         == IsIdentificationNumber(Assemble(m))
  {
    var m' := m.(lead := lead, sep := sep, trail := trail);
    MatchComplete(m);
    MatchComplete(m');
    assert PrefixValue(m') == PrefixValue(m);
  }

  /** The two versions differ only on months 51-70 of years after 2003. */
  lemma AsWrittenAgreesElsewhere(m: BirthNumberMatch)
    requires WellFormed(m)
    requires var year := FullYear(DigitsValue(m.year));
      year <= 2003 || !(50 < DigitsValue(m.month) <= 70)
    ensures IsIdentificationNumber(Assemble(m)) == IsIdentificationNumberIntended(Assemble(m))
  {
    MatchComplete(m);
  }

  /** The three digits of n < 1000, with leading zeros. */
  function Pad3(n: nat): (s: string)
    requires n < 1000
    ensures |s| == 3 && AllDigits(s) && DigitsValue(s) == n
  {
    var a, b, c := DigitChar(n / 100), DigitChar(n / 10 % 10), DigitChar(n % 10);
    DigitsValueSnoc([], a);
    assert [] + [a] == [a];
    DigitsValueSnoc([a], b);
    assert [a] + [b] == [a, b];
    DigitsValueSnoc([a, b], c);
    assert [a, b] + [c] == [a, b, c];
    assert n / 10 == n / 100 * 10 + n / 10 % 10;
    [a, b, c]
  }

  /**
   * The pieces of a ten-digit birth number as it is issued: yymmddeeec with
   * the offset added to the month and the modulo-11 check digit.
   */
  function IssuedMatch(year: int, month: int, day: int, offset: int, ext: int): (m: BirthNumberMatch)
    requires 1954 <= year <= 2053 && 1 <= month <= 12 && 0 <= day < 100
    requires offset == 0 || offset == 20 || offset == 50 || offset == 70
    requires 0 <= ext < 1000
    ensures WellFormed(m)
  {
    var m0 := BirthNumberMatch("", Pad2(year % 100), Pad2(month + offset), Pad2(day), "", Pad3(ext), "0", "");
    m0.(check := [DigitChar(CheckDigitOf(PrefixValue(m0)))])
  }

  /** A ten-digit birth number as it is issued, with no separator. */
  function IssueBirthNumber(year: int, month: int, day: int, offset: int, ext: int): (s: string)
    requires 1954 <= year <= 2053 && 1 <= month <= 12 && 0 <= day < 100
    requires offset == 0 || offset == 20 || offset == 50 || offset == 70
    requires 0 <= ext < 1000
    ensures |s| == 10 && AllDigits(s)
  {
    var m := IssuedMatch(year, month, day, offset, ext);
    IssuedLayout(m);
    Assemble(m)
  }

  /** An issued number is its ten digits in order, the date pairs first. */
  lemma IssuedLayout(m: BirthNumberMatch)
    requires WellFormed(m) && m.lead == "" && m.sep == "" && m.trail == "" && |m.check| == 1
    ensures var s := Assemble(m);
      |s| == 10 && AllDigits(s) && s[..2] == m.year && s[2..4] == m.month && s[4..6] == m.day
  {
    var tail := m.ext + m.check;
    assert m.check + m.trail == m.check;
    assert m.sep + tail == tail;
    AllDigitsConcat(m.ext, m.check);
    AllDigitsConcat(m.day, tail);
    AllDigitsConcat(m.month, m.day + tail);
    AllDigitsConcat(m.year, m.month + (m.day + tail));
    var s := Assemble(m);
    assert s == m.year + (m.month + (m.day + tail));
    SplitAt(s, 0, 2);
    SplitAt(s, 2, 4);
    SplitAt(s, 4, 6);
  }

  /** What the validator reads from an issued number: its check digit passes, and year, month offset and day come back. */
  lemma IssuedFields(year: int, month: int, day: int, offset: int, ext: int)
    requires 1954 <= year <= 2053 && 1 <= month <= 12 && 0 <= day < 100
    requires offset == 0 || offset == 20 || offset == 50 || offset == 70
    requires 0 <= ext < 1000
    ensures var m := IssuedMatch(year, month, day, offset, ext);
      |m.check| == 1 && CheckDigitOf(PrefixValue(m)) == DigitValue(m.check[0]) &&
      FullYear(DigitsValue(m.year)) == year && DigitsValue(m.month) == month + offset &&
      DigitsValue(m.day) == day
  {
    var m := IssuedMatch(year, month, day, offset, ext);
    var m0 := BirthNumberMatch("", Pad2(year % 100), Pad2(month + offset), Pad2(day), "", Pad3(ext), "0", "");
    assert m == m0.(check := [DigitChar(CheckDigitOf(PrefixValue(m0)))]);
    PrefixValueOfFields(m);
    PrefixValueOfFields(m0);
    FullYearOfTwoDigits(year);
  }

  /**
   * With the intended month rule, every ten-digit number issued for a date in
   * 1954-2053, with the offsets the rules allow for that year, is valid
   * exactly when the date exists.
   */
  lemma IntendedAcceptsIssued(year: int, month: int, day: int, offset: int, ext: int)
    requires 1954 <= year <= 2053 && 1 <= month <= 12 && 0 <= day < 100
    requires offset == 0 || offset == 50 || (year > 2003 && (offset == 20 || offset == 70))
    requires 0 <= ext < 1000
    ensures IsIdentificationNumberIntended(IssueBirthNumber(year, month, day, offset, ext)) == CheckDate(month, day, year)
  {
    var m := IssuedMatch(year, month, day, offset, ext);
    MatchComplete(m);
    IssuedFields(year, month, day, offset, ext);
    assert IsIdentificationNumberIntended(Assemble(m)) == ValidMatchIntended(m);
    assert NormalizeMonthIntended(year, month + offset) == month;
  }

  /** As written, every number of a woman born 2004-2053 with the usual +50 offset is refused. */
  lemma AsWrittenRefusesWomenAfter2003(year: int, month: int, day: int, ext: int)
    requires 2004 <= year <= 2053 && 1 <= month <= 12 && 0 <= day < 100 && 0 <= ext < 1000
    ensures !IsIdentificationNumber(IssueBirthNumber(year, month, day, 50, ext))
  {
    var m := IssuedMatch(year, month, day, 50, ext);
    IssuedFields(year, month, day, 50, ext);
    MonthsAbove50Refused(m);
  }

  /** As written, a ten-digit number of a year after 2003 whose month digits are 51-70 is always refused. */
  lemma MonthsAbove50Refused(m: BirthNumberMatch)
    requires WellFormed(m) && |m.check| == 1
    requires FullYear(DigitsValue(m.year)) > 2003 && 50 < DigitsValue(m.month) <= 70
    ensures !IsIdentificationNumber(Assemble(m))
  {
    MatchComplete(m);
  }

  /** The number of a woman born on 5 March 2010, 105305/0009, is refused as written and accepted as intended. */
  lemma AsWrittenCounterexample()
    ensures IssueBirthNumber(2010, 3, 5, 50, 0) == "1053050009"
    ensures CheckDate(3, 5, 2010)
    ensures !IsIdentificationNumber("1053050009") && IsIdentificationNumberIntended("1053050009")
  {
    IssuedExample();
    AsWrittenRefusesWomenAfter2003(2010, 3, 5, 0);
    IntendedAcceptsIssued(2010, 3, 5, 50, 0);
  }

  lemma IssuedExample()
    ensures IssueBirthNumber(2010, 3, 5, 50, 0) == "1053050009"
  {
    var m := IssuedMatch(2010, 3, 5, 50, 0);
    var m0 := BirthNumberMatch("", Pad2(10), Pad2(53), Pad2(5), "", Pad3(0), "0", "");
    PrefixValueOfFields(m0);
    assert PrefixValue(m0) == 105305000;
    assert m.check == [DigitChar(9)] == "9";
    Pad2OfTwoDigits(10);
    Pad2OfTwoDigits(53);
    Pad2OfTwoDigits(5);
    assert m.year == "10" && m.month == "53" && m.day == "05" && m.ext == "000";
  }

  /** The nine-digit prefix read as a number, from the values of its fields. */
  lemma PrefixValueOfFields(m: BirthNumberMatch)
    requires WellFormed(m)
    ensures PrefixValue(m) == DigitsValue(m.year) * 10000000 + DigitsValue(m.month) * 100000
                              + DigitsValue(m.day) * 1000 + DigitsValue(m.ext)
  {
    DigitsValueAppend(m.year, m.month);
    DigitsValueAppend(m.year + m.month, m.day);
    DigitsValueAppend(m.year + m.month + m.day, m.ext);
    assert Pow10(2) == 100 && Pow10(3) == 1000;
  }

  // ======================================================== birth date, gender

  datatype Gender = Male | Female

  /** The result array of getBornDateFromIdentificationNumber: the birth date and the gender. */
  datatype BornInfo<D> = BornInfo(bornDate: D, gender: Gender)

  /**
   * Czech::getBornDateFromIdentificationNumber. The \DateTime that the
   * source builds from "day.month.year" is the caller's makeDate, which may
   * refuse (None) as the constructor's exception does.
   */
  function GetBornDateFromIdentificationNumber<D>(rc: string, makeDate: (int, int, int) -> Option<D>): (r: Option<BornInfo<D>>)
    ensures rc == "" ==> r == None
    ensures r.Some? ==> (r.value.gender == Female <==> IntCast(Substr(Remove(rc, '/'), 2, 2)) > 12)
    ensures rc != "" ==>
      var s := Remove(rc, '/');
      var year := BornYear(s);
      var rawMonth := IntCast(Substr(s, 2, 2));
      var month := if rawMonth > 12 then rawMonth - 50 else rawMonth;
      var day := IntCast(Substr(s, 4, 2));
      (r.Some? <==> day > 0 && month > 0 && makeDate(day, month, year).Some?) &&
      (r.Some? ==> Some(r.value.bornDate) == makeDate(day, month, year))
  {
    if rc == "" then None
    else
      var s := Remove(rc, '/');
      BornDateOfFieldsGuard(BornYear(s), IntCast(Substr(s, 2, 2)), IntCast(Substr(s, 4, 2)), makeDate);
      BornDateOfDigits(s, makeDate)
  }

  /** The birth date and gender read from the number once its slashes are removed. */
  function BornDateOfDigits<D>(s: string, makeDate: (int, int, int) -> Option<D>): Option<BornInfo<D>>
  {
    var year := BornYear(s);
    BornDateOfFields(year, IntCast(Substr(s, 2, 2)), IntCast(Substr(s, 4, 2)), makeDate)
  }

  /** The year lines 236-240 read: 20yy for ten characters with yy below 54, 19yy otherwise. */
  function BornYear(s: string): (year: int)
    ensures year > 0
  {
    var yy := IntCast(Substr(s, 0, 2));
    IntCastBounds(Substr(s, 0, 2));
    if |s| == 10 && yy < 54 then yy + 2000 else yy + 1900
  }

  /** The date and gender of the year, the month as written (plus 50 for a woman) and the day. */
  function BornDateOfFields<D>(year: int, rawMonth: int, day: int, makeDate: (int, int, int) -> Option<D>): Option<BornInfo<D>>
  {
    var month := if rawMonth > 12 then rawMonth - 50 else rawMonth;
    if day > 0 && month > 0 && year > 0 then
      match makeDate(day, month, year)
      case None => None
      case Some(date) => Some(BornInfo(date, if rawMonth > 12 then Female else Male))
    else None
  }

  /** The fields give a result exactly when day and month are positive and makeDate accepts them. */
  lemma BornDateOfFieldsGuard<D>(year: int, rawMonth: int, day: int, makeDate: (int, int, int) -> Option<D>)
    requires year > 0
    ensures var r := BornDateOfFields(year, rawMonth, day, makeDate);
      var month := if rawMonth > 12 then rawMonth - 50 else rawMonth;
      (r.Some? <==> day > 0 && month > 0 && makeDate(day, month, year).Some?) &&
      (r.Some? ==> Some(r.value.bornDate) == makeDate(day, month, year) && (r.value.gender == Female <==> rawMonth > 12))
  {
  }

  /** Slashes anywhere in the input are ignored. */
  lemma BornDateIgnoresSlash<D>(a: string, b: string, makeDate: (int, int, int) -> Option<D>)
    ensures GetBornDateFromIdentificationNumber(a + "/" + b, makeDate)
         == GetBornDateFromIdentificationNumber(a + b, makeDate)
  {
    RemoveSlash(a, b);
    if a + b == "" {
      assert Remove(a + "/" + b, '/') == [];
      assert IntCast(Substr([], 4, 2)) == 0 by { assert Substr([], 4, 2) == []; }
    }
  }

  lemma RemoveSlash(a: string, b: string)
    ensures Remove(a + "/" + b, '/') == Remove(a + b, '/')
  {
    RemoveAppend(a + "/", b, '/');
    RemoveAppend(a, "/", '/');
    RemoveSingle('/');
    RemoveAppend(a, b, '/');
    assert Remove(a, '/') + [] == Remove(a, '/');
  }

  /**
   * A ten-digit number issued for a man (offset 0) or a woman (offset 50)
   * gives back the date it was issued for, and the gender.
   */
  lemma BornDateRoundTrip<D>(year: int, month: int, day: int, offset: int, ext: int, makeDate: (int, int, int) -> Option<D>)
    requires 1954 <= year <= 2053 && 1 <= month <= 12 && 1 <= day < 100 && 0 <= ext < 1000
    requires offset == 0 || offset == 50
    ensures GetBornDateFromIdentificationNumber(IssueBirthNumber(year, month, day, offset, ext), makeDate)
         == match makeDate(day, month, year)
            case None => None
            case Some(date) => Some(BornInfo(date, if offset == 50 then Female else Male))
  {
    IssuedDatePairs(year, month, day, offset, ext);
    BornDateOfPairs(IssueBirthNumber(year, month, day, offset, ext), year, month, day, offset, makeDate);
  }

  /** Ten digits whose pairs hold a valid year, month plus offset, and day give that date and gender back. */
  lemma BornDateOfPairs<D>(s: string, year: int, month: int, day: int, offset: int, makeDate: (int, int, int) -> Option<D>)
    requires |s| == 10 && AllDigits(s)
    requires 1954 <= year <= 2053 && 1 <= month <= 12 && 1 <= day < 100 && (offset == 0 || offset == 50)
    requires AllDigits(s[..2]) && AllDigits(s[2..4]) && AllDigits(s[4..6])
    requires FullYear(DigitsValue(s[..2])) == year && DigitsValue(s[2..4]) == month + offset && DigitsValue(s[4..6]) == day
    ensures GetBornDateFromIdentificationNumber(s, makeDate)
         == match makeDate(day, month, year)
            case None => None
            case Some(date) => Some(BornInfo(date, if offset == 50 then Female else Male))
  {
    NoSlashInDigits(s, makeDate);
    BornDateOfTenDigits(s, makeDate);
    assert BornDateOfDigits(s, makeDate) == BornDateOfFields(year, month + offset, day, makeDate);
    BornDateOfIssuedFields(year, month, day, offset, makeDate);
  }

  /**
   * A nine-digit number, as issued before 1954: yymmddeee with no check
   * digit, the month plus 50 for a woman.
   */
  function IssueNineDigitNumber(year: int, month: int, day: int, offset: int, ext: int): (s: string)
    requires 1900 <= year <= 1953 && 1 <= month <= 12 && 0 <= day < 100
    requires offset == 0 || offset == 50
    requires 0 <= ext < 1000
    ensures |s| == 9 && AllDigits(s)
  {
    var m := NineDigitMatch(year, month, day, offset, ext);
    NineDigitLayout(m);
    Assemble(m)
  }

  function NineDigitMatch(year: int, month: int, day: int, offset: int, ext: int): (m: BirthNumberMatch)
    requires 1900 <= year <= 1953 && 1 <= month <= 12 && 0 <= day < 100
    requires offset == 0 || offset == 50
    requires 0 <= ext < 1000
    ensures WellFormed(m) && m.check == ""
  {
    BirthNumberMatch("", Pad2(year - 1900), Pad2(month + offset), Pad2(day), "", Pad3(ext), "", "")
  }

  /** A nine-digit number is its digits in order, the date pairs first. */
  lemma NineDigitLayout(m: BirthNumberMatch)
    requires WellFormed(m) && m.lead == "" && m.sep == "" && m.trail == "" && m.check == ""
    ensures var s := Assemble(m);
      |s| == 9 && AllDigits(s) && s[..2] == m.year && s[2..4] == m.month && s[4..6] == m.day
  {
    assert m.check + m.trail == "";
    assert m.sep + (m.ext + "") == m.ext;
    AllDigitsConcat(m.day, m.ext);
    AllDigitsConcat(m.month, m.day + m.ext);
    AllDigitsConcat(m.year, m.month + (m.day + m.ext));
    var s := Assemble(m);
    assert s == m.year + (m.month + (m.day + m.ext));
    SplitAt(s, 0, 2);
    SplitAt(s, 2, 4);
    SplitAt(s, 4, 6);
  }

  /** isIdentificationNumber accepts every nine-digit number issued before 1954, whatever its date. */
  lemma NineDigitAccepted(year: int, month: int, day: int, offset: int, ext: int)
    requires 1900 <= year <= 1953 && 1 <= month <= 12 && 0 <= day < 100
    requires offset == 0 || offset == 50
    requires 0 <= ext < 1000
    ensures IsIdentificationNumber(IssueNineDigitNumber(year, month, day, offset, ext))
  {
    var m := NineDigitMatch(year, month, day, offset, ext);
    NineDigitRule(m);
  }

  /**
   * A nine-digit number issued for a date in 1900-1953 gives that date back,
   * with the year read as 19yy because the number is not ten digits long.
   */
  lemma BornDateRoundTripNineDigits<D>(year: int, month: int, day: int, offset: int, ext: int, makeDate: (int, int, int) -> Option<D>)
    requires 1900 <= year <= 1953 && 1 <= month <= 12 && 1 <= day < 100
    requires offset == 0 || offset == 50
    requires 0 <= ext < 1000
    ensures GetBornDateFromIdentificationNumber(IssueNineDigitNumber(year, month, day, offset, ext), makeDate)
         == match makeDate(day, month, year)
            case None => None
            case Some(date) => Some(BornInfo(date, if offset == 50 then Female else Male))
  {
    var m := NineDigitMatch(year, month, day, offset, ext);
    var s := IssueNineDigitNumber(year, month, day, offset, ext);
    NineDigitLayout(m);
    assert s == Assemble(m);
    NoSlashInDigits(s, makeDate);
    BornDateOfNineDigits(s, makeDate);
    assert NineteenHundreds(DigitsValue(s[..2])) == year && DigitsValue(s[2..4]) == month + offset && DigitsValue(s[4..6]) == day;
    BornDateOfIssuedFields(year, month, day, offset, makeDate);
  }

  /** What the date reading takes from nine digits: the pairs, with the year in the 1900s. */
  lemma BornDateOfNineDigits<D>(s: string, makeDate: (int, int, int) -> Option<D>)
    requires |s| == 9 && AllDigits(s)
    ensures AllDigits(s[..2]) && AllDigits(s[2..4]) && AllDigits(s[4..6])
    ensures BornDateOfDigits(s, makeDate)
      == BornDateOfFields(NineteenHundreds(DigitsValue(s[..2])), DigitsValue(s[2..4]), DigitsValue(s[4..6]), makeDate)
  {
    var year := NineteenHundreds(DigitsValue(s[..2]));
    var rawMonth, day := DigitsValue(s[2..4]), DigitsValue(s[4..6]);
    ReadNineDigitYear(s);
    ReadPair(s, 2);
    ReadPair(s, 4);
    assert BornDateOfDigits(s, makeDate) == BornDateOfFields(year, rawMonth, day, makeDate);
  }

  /** The year of a two-digit year field when the number is not ten digits long. */
  function NineteenHundreds(yy: nat): (year: int)
    ensures yy < 100 ==> 1900 <= year < 2000 && year % 100 == yy
  {
    yy + 1900
  }

  /** The year of a nine-digit number: its first two digits, in the 1900s. */
  lemma ReadNineDigitYear(s: string)
    requires |s| == 9 && AllDigits(s)
    ensures AllDigits(s[..2])
    ensures BornYear(s) == NineteenHundreds(DigitsValue(s[..2]))
  {
    ReadPair(s, 0);
    assert s[0..2] == s[..2];
    var yy := IntCast(Substr(s, 0, 2));
    assert yy == DigitsValue(s[..2]);
    assert BornYear(s) == yy + 1900;
  }

  /** The first three pairs of digits of an issued number hold the year, the month plus the offset, and the day. */
  lemma IssuedDatePairs(year: int, month: int, day: int, offset: int, ext: int)
    requires 1954 <= year <= 2053 && 1 <= month <= 12 && 0 <= day < 100
    requires offset == 0 || offset == 20 || offset == 50 || offset == 70
    requires 0 <= ext < 1000
    ensures var s := IssueBirthNumber(year, month, day, offset, ext);
      AllDigits(s[..2]) && AllDigits(s[2..4]) && AllDigits(s[4..6]) &&
      FullYear(DigitsValue(s[..2])) == year && DigitsValue(s[2..4]) == month + offset && DigitsValue(s[4..6]) == day
  {
    var m := IssuedMatch(year, month, day, offset, ext);
    var s := IssueBirthNumber(year, month, day, offset, ext);
    assert s == Assemble(m);
    DatePairs(s);
    IssuedFields(year, month, day, offset, ext);
    IssuedLayout(m);
  }

  /** The three date pairs of a ten-digit number are digits. */
  lemma DatePairs(s: string)
    requires |s| == 10 && AllDigits(s)
    ensures AllDigits(s[..2]) && AllDigits(s[2..4]) && AllDigits(s[4..6])
  {
    ReadPair(s, 0);
    ReadPair(s, 2);
    ReadPair(s, 4);
    assert s[0..2] == s[..2];
  }

  lemma BornDateOfIssuedFields<D>(year: int, month: int, day: int, offset: int, makeDate: (int, int, int) -> Option<D>)
    requires year > 0 && 1 <= month <= 12 && day > 0 && (offset == 0 || offset == 50)
    ensures BornDateOfFields(year, month + offset, day, makeDate)
         == match makeDate(day, month, year)
            case None => None
            case Some(date) => Some(BornInfo(date, if offset == 50 then Female else Male))
  {
  }

  lemma NoSlashInDigits<D>(s: string, makeDate: (int, int, int) -> Option<D>)
    requires s != [] && AllDigits(s)
    ensures GetBornDateFromIdentificationNumber(s, makeDate) == BornDateOfDigits(s, makeDate)
  {
    assert '/' !in s by { assert forall i :: 0 <= i < |s| ==> IsDigit(s[i]); }
    RemoveAbsent(s, '/');
  }

  /** What the date reading takes from ten digits: the year, month and day pairs. */
  lemma BornDateOfTenDigits<D>(s: string, makeDate: (int, int, int) -> Option<D>)
    requires |s| == 10 && AllDigits(s)
    ensures AllDigits(s[..2]) && AllDigits(s[2..4]) && AllDigits(s[4..6])
    ensures BornDateOfDigits(s, makeDate)
      == BornDateOfFields(FullYear(DigitsValue(s[..2])), DigitsValue(s[2..4]), DigitsValue(s[4..6]), makeDate)
  {
    DatePairs(s);
    var year := FullYear(DigitsValue(s[..2]));
    var rawMonth, day := DigitsValue(s[2..4]), DigitsValue(s[4..6]);
    ReadYear(s);
    ReadPair(s, 2);
    ReadPair(s, 4);
    assert BornDateOfDigits(s, makeDate) == BornDateOfFields(year, rawMonth, day, makeDate);
  }

  /** The year of a ten-digit number: its first two digits, in 1954-2053. */
  lemma ReadYear(s: string)
    requires |s| == 10 && AllDigits(s)
    ensures BornYear(s) == FullYear(DigitsValue(s[..2]))
  {
    ReadPair(s, 0);
    assert s[0..2] == s[..2];
  }

  lemma ReadPair(s: string, i: nat)
    requires i + 2 <= |s| && AllDigits(s)
    ensures AllDigits(s[i..i + 2]) && IntCast(Substr(s, i, 2)) == DigitsValue(s[i..i + 2])
  {
    assert s[i..i + 2][0] == s[i] && s[i..i + 2][1] == s[i + 1];
    IntCastOfDigits(s[i..i + 2]);
  }

  /**
   * As written, the date reading only knows the +50 offset: every number of a
   * man born 2004-2053 with the +20 offset gives no date at all, although
   * isIdentificationNumber accepts it (PlusTwentyAccepted).
   */
  lemma PlusTwentyGivesNull<D>(year: int, month: int, day: int, ext: int, makeDate: (int, int, int) -> Option<D>)
    requires 2004 <= year <= 2053 && 1 <= month <= 12 && 1 <= day < 100 && 0 <= ext < 1000
    ensures GetBornDateFromIdentificationNumber(IssueBirthNumber(year, month, day, 20, ext), makeDate) == None
  {
    var s := IssueBirthNumber(year, month, day, 20, ext);
    IssuedDatePairs(year, month, day, 20, ext);
    NoSlashInDigits(s, makeDate);
    BornDateOfTenDigits(s, makeDate);
    assert BornDateOfDigits(s, makeDate) == BornDateOfFields(year, month + 20, day, makeDate);
  }

  /** The number of a man born on 5 March 2010 with the +20 offset, 102305/0006: valid, but it gives no date. */
  lemma PlusTwentyExample<D>(makeDate: (int, int, int) -> Option<D>)
    ensures IssueBirthNumber(2010, 3, 5, 20, 0) == "1023050006"
    ensures IsIdentificationNumber("1023050006")
    ensures GetBornDateFromIdentificationNumber("1023050006", makeDate) == None
  {
    IssuedExampleTwenty();
    PlusTwentyAccepted(2010, 3, 5, 0);
    assert CheckDate(3, 5, 2010);
    PlusTwentyGivesNull(2010, 3, 5, 0, makeDate);
  }

  lemma IssuedExampleTwenty()
    ensures IssueBirthNumber(2010, 3, 5, 20, 0) == "1023050006"
  {
    var m := IssuedMatch(2010, 3, 5, 20, 0);
    var m0 := BirthNumberMatch("", Pad2(10), Pad2(23), Pad2(5), "", Pad3(0), "0", "");
    PrefixValueOfFields(m0);
    assert PrefixValue(m0) == 102305000;
    assert m.check == [DigitChar(6)] == "6";
    Pad2OfTwoDigits(10);
    Pad2OfTwoDigits(23);
    Pad2OfTwoDigits(5);
    assert m.year == "10" && m.month == "23" && m.day == "05" && m.ext == "000";
  }

  /** As written, isIdentificationNumber accepts a +20 number after 2003 exactly when its date exists. */
  lemma PlusTwentyAccepted(year: int, month: int, day: int, ext: int)
    requires 2004 <= year <= 2053 && 1 <= month <= 12 && 0 <= day < 100 && 0 <= ext < 1000
    ensures IsIdentificationNumber(IssueBirthNumber(year, month, day, 20, ext)) == CheckDate(month, day, year)
  {
    var m := IssuedMatch(year, month, day, 20, ext);
    assert IssueBirthNumber(year, month, day, 20, ext) == Assemble(m);
    IssuedFields(year, month, day, 20, ext);
    CalendarRule(m);
    assert NormalizeMonth(year, month + 20) == month;
  }

  /**
   * getBornDateFromIdentificationNumber with the month offsets that
   * isIdentificationNumber knows: 50 for a woman in every year, 20 and 70 for
   * men and women from 2004 on; the gender is female exactly for a month
   * above 50.
   */
  function GetBornDateIntended<D>(rc: string, makeDate: (int, int, int) -> Option<D>): Option<BornInfo<D>>
  {
    if rc == "" then None else BornDateOfDigitsIntended(Remove(rc, '/'), makeDate)
  }

  function BornDateOfDigitsIntended<D>(s: string, makeDate: (int, int, int) -> Option<D>): Option<BornInfo<D>>
  {
    var year := BornYear(s);
    BornDateOfFieldsIntended(year, IntCast(Substr(s, 2, 2)), IntCast(Substr(s, 4, 2)), makeDate)
  }

  function BornDateOfFieldsIntended<D>(year: int, rawMonth: int, day: int, makeDate: (int, int, int) -> Option<D>): Option<BornInfo<D>>
  {
    var month := NormalizeMonthIntended(year, rawMonth);
    if day > 0 && month > 0 && year > 0 then
      match makeDate(day, month, year)
      case None => None
      case Some(date) => Some(BornInfo(date, if rawMonth > 50 then Female else Male))
    else None
  }

  /**
   * With the intended offsets, every ten-digit number issued for a date gives
   * that date back, with the gender its offset stands for: 0 and 20 for a
   * man, 50 and 70 for a woman.
   */
  lemma BornDateRoundTripIntended<D>(year: int, month: int, day: int, offset: int, ext: int, makeDate: (int, int, int) -> Option<D>)
    requires 1954 <= year <= 2053 && 1 <= month <= 12 && 1 <= day < 100 && 0 <= ext < 1000
    requires offset == 0 || offset == 50 || (year > 2003 && (offset == 20 || offset == 70))
    ensures GetBornDateIntended(IssueBirthNumber(year, month, day, offset, ext), makeDate)
         == match makeDate(day, month, year)
            case None => None
            case Some(date) => Some(BornInfo(date, if offset >= 50 then Female else Male))
  {
    var s := IssueBirthNumber(year, month, day, offset, ext);
    IssuedDatePairs(year, month, day, offset, ext);
    IntendedOfPairs(s, year, month + offset, day, makeDate);
    IntendedOfIssuedFields(year, month, day, offset, makeDate);
  }

  /** Ten digits whose pairs hold the year, the month as written and the day. */
  lemma IntendedOfPairs<D>(s: string, year: int, rawMonth: int, day: int, makeDate: (int, int, int) -> Option<D>)
    requires |s| == 10 && AllDigits(s)
    requires AllDigits(s[..2]) && AllDigits(s[2..4]) && AllDigits(s[4..6])
    requires FullYear(DigitsValue(s[..2])) == year && DigitsValue(s[2..4]) == rawMonth && DigitsValue(s[4..6]) == day
    ensures GetBornDateIntended(s, makeDate) == BornDateOfFieldsIntended(year, rawMonth, day, makeDate)
  {
    IntendedOfTenDigits(s, makeDate);
  }

  /** The corrected field reading of a month with an offset in use. */
  lemma IntendedOfIssuedFields<D>(year: int, month: int, day: int, offset: int, makeDate: (int, int, int) -> Option<D>)
    requires year > 0 && 1 <= month <= 12 && day > 0
    requires offset == 0 || offset == 50 || (year > 2003 && (offset == 20 || offset == 70))
    ensures BornDateOfFieldsIntended(year, month + offset, day, makeDate)
         == match makeDate(day, month, year)
            case None => None
            case Some(date) => Some(BornInfo(date, if offset >= 50 then Female else Male))
  {
    assert NormalizeMonthIntended(year, month + offset) == month;
  }

  /** The corrected reading of ten digits: the slash removal changes nothing, and the pairs are read as values. */
  lemma IntendedOfTenDigits<D>(s: string, makeDate: (int, int, int) -> Option<D>)
    requires |s| == 10 && AllDigits(s)
    ensures AllDigits(s[..2]) && AllDigits(s[2..4]) && AllDigits(s[4..6])
    ensures GetBornDateIntended(s, makeDate)
      == BornDateOfFieldsIntended(FullYear(DigitsValue(s[..2])), DigitsValue(s[2..4]), DigitsValue(s[4..6]), makeDate)
  {
    assert '/' !in s by { assert forall i :: 0 <= i < |s| ==> IsDigit(s[i]); }
    RemoveAbsent(s, '/');
    DatePairs(s);
    ReadYear(s);
    ReadPair(s, 2);
    ReadPair(s, 4);
  }

  /** The corrected reading agrees with the written one on every number the written one reads back: offsets 0 and 50. */
  lemma IntendedAgreesOnZeroAndFifty<D>(year: int, month: int, day: int, offset: int, ext: int, makeDate: (int, int, int) -> Option<D>)
    requires 1954 <= year <= 2053 && 1 <= month <= 12 && 1 <= day < 100 && 0 <= ext < 1000
    requires offset == 0 || offset == 50
    ensures GetBornDateIntended(IssueBirthNumber(year, month, day, offset, ext), makeDate)
         == GetBornDateFromIdentificationNumber(IssueBirthNumber(year, month, day, offset, ext), makeDate)
  {
    BornDateRoundTrip(year, month, day, offset, ext, makeDate);
    BornDateRoundTripIntended(year, month, day, offset, ext, makeDate);
  }

  // ================================================================ company id

  /** preg_replace('#\s+#', '', s): s without its whitespace. */
  function RemoveSpaces(s: string): (r: string)
    ensures |r| <= |s| && forall i :: 0 <= i < |r| ==> !IsSpace(r[i])
    ensures |s| == 1 ==> (r == s <==> !IsSpace(s[0]))
  {
    if s == [] then [] else (if IsSpace(s[0]) then [] else [s[0]]) + RemoveSpaces(s[1..])
  }

  lemma {:induction false} RemoveSpacesAppend(a: string, b: string)
    ensures RemoveSpaces(a + b) == RemoveSpaces(a) + RemoveSpaces(b)
  {
    if a == [] {
      assert a + b == b;
    } else {
      assert (a + b)[0] == a[0] && (a + b)[1..] == a[1..] + b;
      RemoveSpacesAppend(a[1..], b);
      var h := if IsSpace(a[0]) then [] else [a[0]];
      assert RemoveSpaces(a + b) == h + RemoveSpaces(a[1..] + b);
    }
  }

  lemma {:induction false} RemoveSpacesOfDigits(s: string)
    requires AllDigits(s)
    ensures RemoveSpaces(s) == s
  {
    if s != [] {
      assert !IsSpace(s[0]);
      RemoveSpacesOfDigits(s[1..]);
    }
  }

  /** The weighted sum of the first n digits of s, the digit at place i weighing 8 - i. */
  function WeightedSum(s: string, n: nat): int
    requires n <= |s| && AllDigits(s)
  {
    if n == 0 then 0 else WeightedSum(s, n - 1) + DigitValue(s[n - 1]) * (8 - (n - 1))
  }

  /** The last digit a company id must have when its weighted sum leaves remainder a (lines 203-211). */
  function CompanyCheckDigit(a: int): (c: int)
    requires 0 <= a < 11
    ensures 0 <= c <= 9
  {
    if a == 0 then 1
    else if a == 10 then 1
    else if a == 1 then 0
    else 11 - a
  }

  /** A valid company id: eight digits once whitespace is removed, the last one the check digit of the first seven. */
  predicate ValidCompanyId(ic: string)
  {
    var s := RemoveSpaces(ic);
    |s| == 8 && AllDigits(s) && DigitValue(s[7]) == CompanyCheckDigit(WeightedSum(s, 7) % 11)
  }

  /** Czech::isCompanyId. */
  method IsCompanyId(ic: string) returns (valid: bool)
    ensures valid == ValidCompanyId(ic)
  {
    var s := RemoveSpaces(ic);
    if !(|s| == 8 && AllDigits(s)) {
      return false;
    }
    var a := 0;
    for i := 0 to 7
      invariant a == WeightedSum(s, i)
    {
      a := a + DigitValue(s[i]) * (8 - i);
    }
    a := a % 11;
    var c: int;
    if a == 0 {
      c := 1;
    } else if a == 10 {
      c := 1;
    } else if a == 1 {
      c := 0;
    } else {
      c := 11 - a;
    }
    valid := DigitValue(s[7]) == c;
  }

  lemma {:induction false} WeightedSumPrefix(s: string, t: string, n: nat)
    requires n <= |s| && AllDigits(s) && AllDigits(s + t)
    ensures WeightedSum(s + t, n) == WeightedSum(s, n)
  {
    if n > 0 {
      assert (s + t)[n - 1] == s[n - 1];
      WeightedSumPrefix(s, t, n - 1);
    }
  }

  /** Every seven digits can be completed to a valid company id by exactly one last digit. */
  lemma OneCompanyCheckDigit(p: string)
    requires |p| == 7 && AllDigits(p)
    ensures var c := CompanyCheckDigit(WeightedSum(p, 7) % 11);
      ValidCompanyId(p + [DigitChar(c)]) &&
      forall d :: IsDigit(d) && ValidCompanyId(p + [d]) ==> d == DigitChar(c)
  {
    var c := CompanyCheckDigit(WeightedSum(p, 7) % 11);
    forall d | IsDigit(d)
      ensures ValidCompanyId(p + [d]) <==> d == DigitChar(c)
    {
      AllDigitsConcat(p, [d]);
      RemoveSpacesOfDigits(p + [d]);
      WeightedSumPrefix(p, [d], 7);
      assert (p + [d])[7] == d;
    }
  }

  /** Whitespace anywhere in a company id is ignored. */
  lemma CompanyIdIgnoresSpace(a: string, c: char, b: string)
    requires IsSpace(c)
    ensures ValidCompanyId(a + [c] + b) == ValidCompanyId(a + b)
  {
    RemoveSpacesAppend(a + [c], b);
    RemoveSpacesAppend(a, [c]);
    RemoveSpacesAppend(a, b);
    assert RemoveSpaces([c]) == [] by { assert [c][1..] == []; }
    assert RemoveSpaces(a + [c]) == RemoveSpaces(a);
    assert RemoveSpaces(a + [c] + b) == RemoveSpaces(a + b);
  }

  /** A valid company id: 25596641 is valid, and by OneCompanyCheckDigit no other last digit is. */
  lemma CompanyIdExample()
    ensures ValidCompanyId("25596641")
  {
    var s := "25596641";
    assert AllDigits(s);
    assert WeightedSum(s, 1) == 16;
    assert WeightedSum(s, 2) == 51;
    assert WeightedSum(s, 3) == 81;
    assert WeightedSum(s, 4) == 126;
    assert WeightedSum(s, 5) == 150;
    assert WeightedSum(s, 6) == 168;
    assert WeightedSum(s, 7) == 176;
    ValidOfDigits(s);
  }

  /** Eight digits with the right last digit are a valid id. */
  lemma ValidOfDigits(s: string)
    requires |s| == 8 && AllDigits(s) && DigitValue(s[7]) == CompanyCheckDigit(WeightedSum(s, 7) % 11)
    ensures ValidCompanyId(s)
  {
    RemoveSpacesOfDigits(s);
  }

}
