/**
 * Time: the duration formatters of MatiCore\Utils\Time, which print a number
 * of seconds as "hh:mm:ss" or as Czech (or caller-labelled) words.
 */
module Time {
  import opened Wrappers
  import opened Php
  import opened Czech

  // ================================================================= h, m, s

  datatype Hms = Hms(hours: nat, minutes: nat, seconds: nat)

  /**
   * The hours, minutes and seconds of a duration as convertDurationToHms and
   * convertDurationToHmsLong compute them (src/Time.php:158-160 and 213-215): floor of a
   * division by 3600, then by 60 of what is left, then the remainder.
   */
  function Decompose(seconds: nat): (t: Hms)
    ensures t.hours * 3600 + t.minutes * 60 + t.seconds == seconds
    ensures t.minutes < 60 && t.seconds < 60
  {
    var hours := seconds / 3600;
    var minutes := (seconds - hours * 3600) / 60;
    Hms(hours, minutes, seconds - hours * 3600 - minutes * 60)
  }

  /** Decompose is the only split with minutes and seconds below 60. */
  lemma DecomposeUnique(seconds: nat, t: Hms)
    requires t.hours * 3600 + t.minutes * 60 + t.seconds == seconds
    requires t.minutes < 60 && t.seconds < 60
    ensures Decompose(seconds) == t
  {
    var d := Decompose(seconds);
    assert t.minutes * 60 + t.seconds < 3600;
    assert d.minutes * 60 + d.seconds < 3600;
    assert t.hours == d.hours;
    assert t.minutes == d.minutes;
  }

  // ======================================================= convertDurationToHms

  /** Time::convertDurationToHms: "hh:mm:ss" with every field zero-padded to two digits at least. */
  function ConvertDurationToHms(seconds: int): (r: string)
    ensures seconds < 0 ==> r == "??:??:??"
    ensures seconds == 0 ==> r == "00:00:00"
  {
    if seconds < 0 then "??:??:??"
    else if seconds == 0 then "00:00:00"
    else
      var t := Decompose(seconds);
      Pad2(t.hours) + ":" + Pad2(t.minutes) + ":" + Pad2(t.seconds)
  }

  /**
   * The three colon-separated fields of "h:mm:ss": the last two of two
   * digits, the first of two or more, all of them digits.
   */
  function HmsFields(r: string): Option<(string, string, string)>
  {
    if |r| >= 8 && r[|r| - 6] == ':' && r[|r| - 3] == ':' &&
       AllDigits(r[..|r| - 6]) && AllDigits(r[|r| - 5..|r| - 3]) && AllDigits(r[|r| - 2..])
    then Some((r[..|r| - 6], r[|r| - 5..|r| - 3], r[|r| - 2..]))
    else None
  }

  /** Reads "h:mm:ss" back as a number of seconds; None for anything else. */
  function ParseHms(r: string): Option<int>
  {
    match HmsFields(r)
    case None => None
    case Some((h, m, s)) => Some(DigitsValue(h) * 3600 + DigitsValue(m) * 60 + DigitsValue(s))
  }

  /**
   * For every duration that is not negative the result is three digit
   * fields separated by colons: minutes and seconds of two digits and below
   * 60, hours of two digits or more (zero-padded only up to two), and
   * h * 3600 + m * 60 + s is the duration.
   */
  lemma HmsLayout(seconds: int)
    requires seconds >= 0
    ensures var f := HmsFields(ConvertDurationToHms(seconds));
      f.Some? && |f.value.0| >= 2 && |f.value.1| == 2 && |f.value.2| == 2 &&
      (|f.value.0| == 2 || f.value.0[0] != '0') &&
      DigitsValue(f.value.1) < 60 && DigitsValue(f.value.2) < 60 &&
      DigitsValue(f.value.0) * 3600 + DigitsValue(f.value.1) * 60 + DigitsValue(f.value.2) == seconds
  {
    var t := Decompose(seconds);
    var r := ConvertDurationToHms(seconds);
    if seconds == 0 {
      assert t.hours == 0 && t.minutes == 0 && t.seconds == 0;
      assert r == "00:00:00";
      Pad2Zero();
    } else {
      assert r == Pad2(t.hours) + ":" + Pad2(t.minutes) + ":" + Pad2(t.seconds);
    }
    PaddedFields(r, t);
  }

  /** The fields of the padded hours, minutes and seconds of t are their digits. */
  lemma PaddedFields(r: string, t: Hms)
    requires t.minutes < 60 && t.seconds < 60
    requires r == Pad2(t.hours) + ":" + Pad2(t.minutes) + ":" + Pad2(t.seconds)
    ensures var f := HmsFields(r);
      f.Some? && |f.value.0| >= 2 && |f.value.1| == 2 && |f.value.2| == 2 &&
      (|f.value.0| == 2 || f.value.0[0] != '0') &&
      DigitsValue(f.value.1) < 60 && DigitsValue(f.value.2) < 60 &&
      DigitsValue(f.value.0) * 3600 + DigitsValue(f.value.1) * 60 + DigitsValue(f.value.2)
      == t.hours * 3600 + t.minutes * 60 + t.seconds
  {
    HmsFieldsOf(Pad2(t.hours), Pad2(t.minutes), Pad2(t.seconds));
  }

  /** Three digit fields joined by colons split back into those fields. */
  lemma HmsFieldsOf(h: string, m: string, s: string)
    requires |h| >= 2 && |m| == 2 && |s| == 2 && AllDigits(h) && AllDigits(m) && AllDigits(s)
    ensures HmsFields(h + ":" + m + ":" + s) == Some((h, m, s))
  {
    ColonFields(h, m, s);
  }

  lemma Pad2Zero()
    ensures Pad2(0) + ":" + Pad2(0) + ":" + Pad2(0) == "00:00:00"
  {
    assert DigitChar(0) == '0';
    assert Pad2(0) == "00";
  }

  /** The pieces of h + ":" + m + ":" + s, found from its end. */
  lemma ColonFields(h: string, m: string, s: string)
    requires |m| == 2 && |s| == 2
    ensures var r := h + ":" + m + ":" + s;
      |r| == |h| + 6 && r[..|h|] == h && r[..|r| - 6] == h && r[|r| - 6] == ':' &&
      r[|r| - 5..|r| - 3] == m && r[|r| - 3] == ':' && r[|r| - 2..] == s
  {
  }

  /** Reading the text back gives the duration; the text of a negative duration does not read. */
  lemma HmsRoundTrip(seconds: int)
    ensures ParseHms(ConvertDurationToHms(seconds)) == if seconds >= 0 then Some(seconds) else None
  {
    var r := ConvertDurationToHms(seconds);
    if seconds >= 0 {
      HmsLayout(seconds);
      ParseLaidOut(r, seconds);
    } else {
      assert r == "??:??:??";
      Unreadable();
    }
  }

  lemma ParseLaidOut(r: string, seconds: int)
    requires var f := HmsFields(r);
      f.Some? && DigitsValue(f.value.0) * 3600 + DigitsValue(f.value.1) * 60 + DigitsValue(f.value.2) == seconds
    ensures ParseHms(r) == Some(seconds)
  {
  }

  lemma Unreadable()
    ensures HmsFields("??:??:??") == None
  {
    var r := "??:??:??";
    assert r[..|r| - 6] == "??";
    assert !IsDigit(r[..|r| - 6][0]);
  }

  /** The examples of the documentation: 7 seconds is "00:00:07", 70 seconds is "00:01:10". */
  lemma HmsExamples()
    ensures ConvertDurationToHms(7) == "00:00:07"
    ensures ConvertDurationToHms(70) == "00:01:10"
  {
    SevenSeconds();
    SeventySeconds();
  }

  lemma SevenSeconds()
    ensures ConvertDurationToHms(7) == "00:00:07"
  {
    HmsExample(7, 0, 7);
    assert [DigitChar(0), DigitChar(7)] == "07";
  }

  lemma SeventySeconds()
    ensures ConvertDurationToHms(70) == "00:01:10"
  {
    HmsExample(70, 1, 10);
    assert [DigitChar(0), DigitChar(1)] == "01" && [DigitChar(1), DigitChar(0)] == "10";
  }

  /** A duration under an hour of m minutes and s seconds. */
  lemma HmsExample(seconds: int, m: nat, s: nat)
    requires 0 < seconds == m * 60 + s && m < 60 && s < 60
    ensures ConvertDurationToHms(seconds) == "00" + ":" + [DigitChar(m / 10), DigitChar(m % 10)] + ":" + [DigitChar(s / 10), DigitChar(s % 10)]
  {
    DecomposeUnique(seconds, Hms(0, m, s));
    Pad2OfTwoDigits(0);
    Pad2OfTwoDigits(m);
    Pad2OfTwoDigits(s);
  }

  // ================================================== convertDurationToHmsHuman

  /** preg_replace('/^00\:/', '', t): one leading "00:" removed. */
  function StripZeroHours(t: string): (r: string)
    ensures r == t || "00:" + r == t
  {
    if |t| >= 3 && t[..3] == "00:" then t[3..] else t
  }

  /** Time::convertDurationToHmsHuman. */
  function ConvertDurationToHmsHuman(seconds: int): (r: string)
    ensures r == ConvertDurationToHms(seconds) || "00:" + r == ConvertDurationToHms(seconds)
  {
    StripZeroHours(ConvertDurationToHms(seconds))
  }

  /**
   * Below one hour the zero hours field is dropped and the rest is kept; from
   * one hour on, and for negative input, the text is unchanged.
   */
  lemma HumanDropsZeroHours(seconds: int)
    ensures var r := ConvertDurationToHmsHuman(seconds);
      var full := ConvertDurationToHms(seconds);
      (0 <= seconds < 3600 ==> "00:" + r == full) && (r == full <==> !(0 <= seconds < 3600))
  {
    var full := ConvertDurationToHms(seconds);
    if seconds > 0 {
      var t := Decompose(seconds);
      assert full == Pad2(t.hours) + ":" + Pad2(t.minutes) + ":" + Pad2(t.seconds);
      StripPadded(full, t);
      assert t.hours == 0 <==> seconds < 3600;
    } else if seconds == 0 {
      assert full == "00:00:00" && full[..3] == "00:";
    } else {
      assert full == "??:??:??" && full[0] == '?';
    }
  }

  /** The padded fields of t lose their leading "00:" exactly when there are no hours. */
  lemma StripPadded(full: string, t: Hms)
    requires t.minutes < 60 && t.seconds < 60
    requires full == Pad2(t.hours) + ":" + Pad2(t.minutes) + ":" + Pad2(t.seconds)
    ensures t.hours == 0 ==> "00:" + StripZeroHours(full) == full
    ensures StripZeroHours(full) == full <==> t.hours != 0
  {
    var h := Pad2(t.hours);
    ColonFields(h, Pad2(t.minutes), Pad2(t.seconds));
    Pad2StartsWithZeros(t.hours);
    assert full[..3] == "00:" <==> t.hours == 0 by {
      assert full[..2] == h[..2];
      if |h| == 2 {
        assert full[2] == ':';
      }
    }
  }

  /** Pad2(n) starts with "00" and has two characters exactly when n is zero. */
  lemma Pad2StartsWithZeros(n: nat)
    ensures Pad2(n)[..2] == "00" <==> n == 0
    ensures Pad2(n)[..2] == "00" ==> |Pad2(n)| == 2
  {
    if n < 10 {
      Pad2OfTwoDigits(n);
      assert DigitChar(0) == '0';
    } else {
      assert Pad2(n) == Digits(n);
    }
  }

  // =================================================== convertDurationToHmsLong

  /** The nine label parameters; None is a null label. */
  datatype DurationLabels = DurationLabels(
    hour1: Option<string>, hours234: Option<string>, hoursOther: Option<string>,
    minute1: Option<string>, minutes234: Option<string>, minutesOther: Option<string>,
    second1: Option<string>, seconds234: Option<string>, secondsOther: Option<string>)

  /** The default labels: hodina/hodiny/hodin, minuta/minuty/minut, sekunda/sekundy/sekund. */
  const CzechLabels := DurationLabels(
    Some("hodina"), Some("hodiny"), Some("hodin"),
    Some("minuta"), Some("minuty"), Some("minut"),
    Some("sekunda"), Some("sekundy"), Some("sekund"))

  /** A label as string concatenation prints it: null prints as "". */
  function LabelText(name: Option<string>): (s: string)
    ensures name.Some? ==> s == name.value
    ensures name.None? ==> s == ""
  {
    if name.Some? then name.value else ""
  }

  /** The inflected parts of a positive duration, in order, each followed by one space. */
  function Spaced(parts: seq<string>): (r: string)
    ensures parts != [] && parts[0] != [] ==> r != [] && r[0] == parts[0][0]
  {
    if parts == [] then "" else parts[0] + " " + Spaced(parts[1..])
  }

  lemma {:induction false} SpacedSnoc(parts: seq<string>, p: string)
    ensures Spaced(parts + [p]) == Spaced(parts) + p + " "
  {
    if parts == [] {
      assert parts + [p] == [p];
    } else {
      assert (parts + [p])[1..] == parts[1..] + [p];
      SpacedSnoc(parts[1..], p);
    }
  }

  /** The parts followed by spaces are the parts joined by spaces, and one more space. */
  lemma {:induction false} SpacedIsJoin(parts: seq<string>)
    requires parts != []
    ensures Spaced(parts) == Join(" ", parts) + " "
  {
    if |parts| > 1 {
      SpacedIsJoin(parts[1..]);
    } else {
      assert Spaced(parts[1..]) == "";
    }
  }

  /**
   * One step of the try block: when the part is present its inflection is
   * appended, and a FunctionException ends the block.
   */
  function AddPart(acc: Result<seq<string>, FunctionException>, present: bool, n: int, forms: Forms)
    : Result<seq<string>, FunctionException>
  {
    if acc.Failure? || !present then acc
    else match Inflection(n, forms)
      case Failure(e) => Failure(e)
      case Success(text) => Success(acc.value + [text])
  }

  function HourForms(labels: DurationLabels): Forms { FormList(labels.hour1, labels.hours234, labels.hoursOther) }
  function MinuteForms(labels: DurationLabels): Forms { FormList(labels.minute1, labels.minutes234, labels.minutesOther) }
  function SecondForms(labels: DurationLabels): Forms { FormList(labels.second1, labels.seconds234, labels.secondsOther) }

  /** The parts lines 217-228 emit for a positive duration: hours, minutes, seconds, each when above zero. */
  function DurationParts(t: Hms, includeSeconds: bool, labels: DurationLabels): Result<seq<string>, FunctionException>
  {
    var afterHours := AddPart(Success([]), t.hours > 0, t.hours, HourForms(labels));
    var afterMinutes := AddPart(afterHours, t.minutes > 0, t.minutes, MinuteForms(labels));
    AddPart(afterMinutes, t.seconds > 0 && includeSeconds, t.seconds, SecondForms(labels))
  }

  /** "< 1 " and the one-minute label, trimmed: the text for a duration with nothing to print. */
  function Fallback(labels: DurationLabels): string
  {
    Trim("< 1 " + LabelText(labels.minute1), TrimChars)
  }

  /** What Time::convertDurationToHmsLong returns. */
  function HmsLong(seconds: int, includeSeconds: bool, labels: DurationLabels): string
  {
    if seconds < 0 then "?"
    else if seconds == 0 then
      if includeSeconds then "0 " + LabelText(labels.secondsOther) else "< 1 " + LabelText(labels.minute1)
    else
      match DurationParts(Decompose(seconds), includeSeconds, labels)
      case Success(parts) => if parts == [] then Fallback(labels) else Trim(Spaced(parts), TrimChars)
      case Failure(_) => Fallback(labels)
  }

  /** Every inflected count of a positive number starts with its first digit. */
  lemma PartStartsWithDigit(n: int, forms: Forms)
    requires n > 0 && Inflection(n, forms).Success?
    ensures var text := Inflection(n, forms).value; text != [] && IsDigit(text[0])
  {
    assert NumberFormat(n) == GroupThousands(Digits(n));
  }

  /**
   * Time::convertDurationToHmsLong: the parts are appended one by one, a
   * FunctionException from inflection empties the result, an empty result
   * gets the fallback, and the whole is trimmed.
   */
  method ConvertDurationToHmsLong(seconds: int, includeSeconds: bool, labels: DurationLabels) returns (result: string)
    ensures result == HmsLong(seconds, includeSeconds, labels)
  {
    if seconds < 0 {
      result := "?";
    } else if seconds == 0 {
      result := if includeSeconds then "0 " + LabelText(labels.secondsOther) else "< 1 " + LabelText(labels.minute1);
    } else {
      var t := Decompose(seconds);
      result := "";
      var failed := false;
      ghost var acc: Result<seq<string>, FunctionException> := Success([]);
      result, failed := AppendPart(result, failed, acc, t.hours > 0, t.hours, HourForms(labels));
      acc := AddPart(acc, t.hours > 0, t.hours, HourForms(labels));
      result, failed := AppendPart(result, failed, acc, t.minutes > 0, t.minutes, MinuteForms(labels));
      acc := AddPart(acc, t.minutes > 0, t.minutes, MinuteForms(labels));
      result, failed := AppendPart(result, failed, acc, t.seconds > 0 && includeSeconds, t.seconds, SecondForms(labels));
      acc := AddPart(acc, t.seconds > 0 && includeSeconds, t.seconds, SecondForms(labels));
      assert acc == DurationParts(t, includeSeconds, labels);
      if failed {
        result := "";
      }
      if acc.Success? && acc.value != [] {
        PartsStartWithDigit(t, includeSeconds, labels);
      }
      result := Finish(result, labels);
    }
  }

  /**
   * One guarded block of the try: when the part is present and nothing has
   * failed yet, the inflection and a space are appended, or the failure is
   * recorded.
   */
  method AppendPart(result: string, failed: bool, ghost acc: Result<seq<string>, FunctionException>,
                    present: bool, n: int, forms: Forms)
      returns (result': string, failed': bool)
    requires failed <==> acc.Failure?
    requires !failed ==> result == Spaced(acc.value)
    ensures failed' <==> AddPart(acc, present, n, forms).Failure?
    ensures !failed' ==> result' == Spaced(AddPart(acc, present, n, forms).value)
  {
    result', failed' := result, failed;
    if !failed && present {
      var r := Inflection(n, forms);
      if r.Failure? {
        failed' := true;
      } else {
        SpacedSnoc(acc.value, r.value);
        result' := result + r.value + " ";
      }
    }
  }

  /** Lines 231-237: the fallback when nothing was printed, then trim. */
  method Finish(result: string, labels: DurationLabels) returns (r: string)
    requires result == "" || IsDigit(result[0])
    ensures r == if result == "" then Fallback(labels) else Trim(result, TrimChars)
  {
    r := result;
    if r != "" {
      assert r[0] !in TrimChars;
      TrimKeepsFirst(r, TrimChars);
    }
    if Trim(r, TrimChars) == "" {
      assert r == "";
      r := r + "< 1 " + LabelText(labels.minute1);
      assert r == "< 1 " + LabelText(labels.minute1);
    }
    r := Trim(r, TrimChars);
  }

  /** The first part of a positive duration, when there is one, starts with a digit. */
  lemma PartsStartWithDigit(t: Hms, includeSeconds: bool, labels: DurationLabels)
    requires DurationParts(t, includeSeconds, labels).Success?
    requires DurationParts(t, includeSeconds, labels).value != []
    ensures var parts := DurationParts(t, includeSeconds, labels).value;
      parts[0] != [] && IsDigit(parts[0][0])
  {
    var afterHours := AddPart(Success([]), t.hours > 0, t.hours, HourForms(labels));
    var afterMinutes := AddPart(afterHours, t.minutes > 0, t.minutes, MinuteForms(labels));
    if t.hours > 0 {
      PartStartsWithDigit(t.hours, HourForms(labels));
    } else if t.minutes > 0 {
      PartStartsWithDigit(t.minutes, MinuteForms(labels));
    } else {
      PartStartsWithDigit(t.seconds, SecondForms(labels));
    }
  }

  // ------------------------------------------------------- what HmsLong means

  /** A full set of labels: none of the nine is null. */
  predicate Complete(labels: DurationLabels)
  {
    labels.hour1.Some? && labels.hours234.Some? && labels.hoursOther.Some? &&
    labels.minute1.Some? && labels.minutes234.Some? && labels.minutesOther.Some? &&
    labels.second1.Some? && labels.seconds234.Some? && labels.secondsOther.Some?
  }

  /** A FunctionException is raised exactly when a part that is printed lacks one of its three labels. */
  lemma PartsFailure(seconds: nat, includeSeconds: bool, labels: DurationLabels)
    ensures var t := Decompose(seconds);
      DurationParts(t, includeSeconds, labels).Failure? <==>
        (t.hours > 0 && !(labels.hour1.Some? && labels.hours234.Some? && labels.hoursOther.Some?)) ||
        (t.minutes > 0 && !(labels.minute1.Some? && labels.minutes234.Some? && labels.minutesOther.Some?)) ||
        (t.seconds > 0 && includeSeconds &&
          !(labels.second1.Some? && labels.seconds234.Some? && labels.secondsOther.Some?))
  {
  }

  /** The parts printed: hours, minutes and seconds in this order, each exactly when it is above zero. */
  lemma PartsPrinted(seconds: nat, includeSeconds: bool, labels: DurationLabels)
    requires Complete(labels)
    ensures var t := Decompose(seconds);
      DurationParts(t, includeSeconds, labels)
      == Success(Part(t.hours > 0, t.hours, HourForms(labels)) + Part(t.minutes > 0, t.minutes, MinuteForms(labels))
                 + Part(t.seconds > 0 && includeSeconds, t.seconds, SecondForms(labels)))
  {
    var t := Decompose(seconds);
    var p1 := Part(t.hours > 0, t.hours, HourForms(labels));
    var p2 := Part(t.minutes > 0, t.minutes, MinuteForms(labels));
    var p3 := Part(t.seconds > 0 && includeSeconds, t.seconds, SecondForms(labels));
    var a := AddPart(Success([]), t.hours > 0, t.hours, HourForms(labels));
    assert [] + p1 == p1;
    assert a == Success(p1);
    var b := AddPart(a, t.minutes > 0, t.minutes, MinuteForms(labels));
    assert p1 + [] == p1;
    assert b == Success(p1 + p2);
    assert p1 + p2 + [] == p1 + p2;
    assert AddPart(b, t.seconds > 0 && includeSeconds, t.seconds, SecondForms(labels)) == Success(p1 + p2 + p3);
  }

  /** The inflection of n, as a one-element list, when the part is printed. */
  function Part(present: bool, n: int, forms: Forms): (p: seq<string>)
    requires 0 in forms && 1 in forms && 2 in forms
    ensures |p| == if present then 1 else 0
  {
    if present then [Inflection(n, forms).value] else []
  }

  /**
   * With every label given, a positive duration falls back to "< 1 minute"
   * exactly when it is under a minute and seconds are not shown.
   */
  lemma FallbackExactly(seconds: int, includeSeconds: bool, labels: DurationLabels)
    requires seconds > 0 && Complete(labels)
    ensures HmsLong(seconds, includeSeconds, labels) == Fallback(labels) <==> seconds < 60 && !includeSeconds
  {
    var t := Decompose(seconds);
    PartsPrinted(seconds, includeSeconds, labels);
    var parts := DurationParts(t, includeSeconds, labels).value;
    assert |parts| == 0 <==> seconds < 60 && !includeSeconds;
    if parts == [] {
      assert HmsLong(seconds, includeSeconds, labels) == Fallback(labels);
    } else {
      PartsStartWithDigit(t, includeSeconds, labels);
      var spaced := Spaced(parts);
      assert spaced[0] !in TrimChars;
      TrimKeepsFirst(spaced, TrimChars);
      assert HmsLong(seconds, includeSeconds, labels) == Trim(spaced, TrimChars);
      FallbackStartsWithLess(labels);
      assert HmsLong(seconds, includeSeconds, labels)[0] != Fallback(labels)[0];
    }
  }

  lemma FallbackStartsWithLess(labels: DurationLabels)
    ensures Fallback(labels) != [] && Fallback(labels)[0] == '<'
  {
    var s := "< 1 " + LabelText(labels.minute1);
    assert s[0] == '<' && '<' !in TrimChars;
    TrimKeepsFirst(s, TrimChars);
  }

  /** A label that trim() leaves alone at its end: not empty, not ending in whitespace. */
  predicate Neat(name: Option<string>)
  {
    name.Some? && name.value != [] && name.value[|name.value| - 1] !in TrimChars
  }

  predicate NeatLabels(labels: DurationLabels)
  {
    Neat(labels.hour1) && Neat(labels.hours234) && Neat(labels.hoursOther) &&
    Neat(labels.minute1) && Neat(labels.minutes234) && Neat(labels.minutesOther) &&
    Neat(labels.second1) && Neat(labels.seconds234) && Neat(labels.secondsOther)
  }

  /**
   * For a positive duration that prints at least one part, with labels that
   * are non-empty and do not end in a character trim strips, the text is the
   * printed parts joined by single spaces.
   */
  lemma JoinedBySpaces(seconds: int, includeSeconds: bool, labels: DurationLabels)
    requires seconds > 0 && NeatLabels(labels)
    requires !(seconds < 60 && !includeSeconds)
    ensures var parts := DurationParts(Decompose(seconds), includeSeconds, labels);
      parts.Success? && parts.value != [] && HmsLong(seconds, includeSeconds, labels) == Join(" ", parts.value)
  {
    var t := Decompose(seconds);
    assert DurationParts(t, includeSeconds, labels).Success? && DurationParts(t, includeSeconds, labels).value != [] by {
      PartsPrinted(seconds, includeSeconds, labels);
    }
    var parts := DurationParts(t, includeSeconds, labels).value;
    assert HmsLong(seconds, includeSeconds, labels) == Trim(Spaced(parts), TrimChars);
    PartsJoined(t, includeSeconds, labels);
  }

  /** Trimming the spaced parts of neat labels joins them by single spaces. */
  lemma PartsJoined(t: Hms, includeSeconds: bool, labels: DurationLabels)
    requires NeatLabels(labels)
    requires DurationParts(t, includeSeconds, labels).Success?
    requires DurationParts(t, includeSeconds, labels).value != []
    ensures var parts := DurationParts(t, includeSeconds, labels).value;
      Trim(Spaced(parts), TrimChars) == Join(" ", parts)
  {
    var parts := DurationParts(t, includeSeconds, labels).value;
    PartsStartWithDigit(t, includeSeconds, labels);
    DigitNotTrimmed(parts[0][0]);
    PartsEndNeat(t, includeSeconds, labels);
    TrimSpaced(parts);
  }

  /** When the first and the last character are kept, trimming the spaced parts gives them joined by spaces. */
  lemma TrimSpaced(parts: seq<string>)
    requires parts != [] && parts[0] != [] && parts[0][0] !in TrimChars
    requires var last := parts[|parts| - 1]; last != [] && last[|last| - 1] !in TrimChars
    ensures Trim(Spaced(parts), TrimChars) == Join(" ", parts)
  {
    SpacedIsJoin(parts);
    var j := Join(" ", parts);
    assert j[0] == parts[0][0];
    TrimAppendStripped(j, ' ', TrimChars);
    JoinLast(parts);
    TrimUntouched(j, TrimChars);
  }

  /** The last character of parts joined by a separator is the last character of the last part. */
  lemma {:induction false} JoinLast(parts: seq<string>)
    requires parts != [] && parts[|parts| - 1] != []
    ensures var j := Join(" ", parts); j != [] && j[|j| - 1] == parts[|parts| - 1][|parts[|parts| - 1]| - 1]
  {
    if |parts| > 1 {
      JoinLast(parts[1..]);
    }
  }

  /** Every printed part ends with the last character of its label. */
  lemma PartsEndNeat(t: Hms, includeSeconds: bool, labels: DurationLabels)
    requires NeatLabels(labels)
    requires DurationParts(t, includeSeconds, labels).Success?
    requires DurationParts(t, includeSeconds, labels).value != []
    ensures var parts := DurationParts(t, includeSeconds, labels).value;
      var last := parts[|parts| - 1];
      last != [] && last[|last| - 1] !in TrimChars
  {
    var forms := if t.seconds > 0 && includeSeconds then SecondForms(labels)
      else if t.minutes > 0 then MinuteForms(labels) else HourForms(labels);
    var n := if t.seconds > 0 && includeSeconds then t.seconds else if t.minutes > 0 then t.minutes else t.hours;
    var form := forms[FormIndex(n)];
    assert form != [] && form[|form| - 1] !in TrimChars;
    var text := Inflection(n, forms).value;
    assert text == NumberFormat(n) + " " + form;
    assert text[|text| - 1] == form[|form| - 1];
  }

  /** The example of the documentation: 434 seconds are "7 minut 14 sekund". */
  lemma LongExample()
    ensures HmsLong(434, true, CzechLabels) == "7 minut 14 sekund"
  {
    LongOf(434, CzechLabels);
  }

  lemma LongOf(seconds: int, labels: DurationLabels)
    requires seconds == 434 && labels == CzechLabels
    ensures HmsLong(seconds, true, labels) == "7 minut 14 sekund"
  {
    assert NeatLabels(labels);
    var t := Decompose(seconds);
    DecomposeUnique(seconds, Hms(0, 7, 14));
    PartsPrinted(seconds, true, labels);
    JoinedBySpaces(seconds, true, labels);
    MinutesExample();
    SecondsExample();
    var parts := DurationParts(t, true, labels).value;
    assert parts == ["7 minut", "14 sekund"];
    assert Join(" ", parts) == "7 minut" + " " + "14 sekund";
    LongText();
  }

  /** Solver aid for LongOf: one literal concatenation. */
  lemma LongText()
    ensures "7 minut" + " " + "14 sekund" == "7 minut 14 sekund"
  {
  }

  lemma MinutesExample()
    ensures Part(true, 7, MinuteForms(CzechLabels)) == ["7 minut"]
  {
    NumberFormatBelow1000(7);
    assert MinuteForms(CzechLabels)[2] == "minut";
    assert Inflection(7, MinuteForms(CzechLabels)).value == "7" + " " + "minut";
    assert "7" + " " + "minut" == "7 minut";
  }

  lemma SecondsExample()
    ensures Part(true, 14, SecondForms(CzechLabels)) == ["14 sekund"]
  {
    NumberFormatBelow1000(14);
    assert Digits(14) == "14" by { assert Digits(14) == Digits(1) + [DigitChar(4)]; }
    assert SecondForms(CzechLabels)[2] == "sekund";
    assert Inflection(14, SecondForms(CzechLabels)).value == "14" + " " + "sekund";
    assert "14" + " " + "sekund" == "14 sekund";
  }

  /**
   * Under a minute, without seconds, no inflection is called, so whatever
   * labels are given the text is "< 1 " and the one-minute label (empty when
   * it is missing), trimmed; with a label that trim leaves alone, for
   * instance "< 1 minuta" with the default labels, nothing is trimmed.
   */
  lemma BelowAMinute(seconds: int, labels: DurationLabels)
    requires 0 < seconds < 60
    ensures HmsLong(seconds, false, labels) == Trim("< 1 " + LabelText(labels.minute1), TrimChars)
    ensures Neat(labels.minute1) ==> HmsLong(seconds, false, labels) == "< 1 " + labels.minute1.value
  {
    NothingPrinted(Decompose(seconds), labels);
    assert HmsLong(seconds, false, labels) == Fallback(labels);
    if Neat(labels.minute1) {
      FallbackOfNeat(labels);
    }
  }

  /** Solver aid for BelowAMinute: with no hours, no minutes and no seconds asked for, no part is printed. */
  lemma NothingPrinted(t: Hms, labels: DurationLabels)
    requires t.hours == 0 && t.minutes == 0
    ensures DurationParts(t, false, labels) == Success([])
  {
  }

  lemma FallbackOfNeat(labels: DurationLabels)
    requires Neat(labels.minute1)
    ensures Fallback(labels) == "< 1 " + labels.minute1.value
  {
    var s := "< 1 " + labels.minute1.value;
    assert s[0] == '<' && '<' !in TrimChars;
    TrimUntouched(s, TrimChars);
  }

  /** Zero and negative durations with the default labels. */
  lemma EdgeExamples()
    ensures HmsLong(0, true, CzechLabels) == "0 sekund"
    ensures HmsLong(0, false, CzechLabels) == "< 1 minuta"
    ensures HmsLong(-5, true, CzechLabels) == "?"
  {
  }
}
