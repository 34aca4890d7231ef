/**
 * The display rules of the controller: how each character of the passage is
 * marked against the input, the `m:ss` countdown label, the human-readable
 * duration, and the duration chosen from the menu's text value.
 *
 * The page itself (elements, screens, focus, event wiring) is not modelled; a
 * highlighted character is a value `Span` rather than an element.
 */
module App {
  import opened Wrappers
  import Metrics

  // ---------------------------------------------------------------------------
  // Passage highlighting
  // ---------------------------------------------------------------------------

  /** The classes a character can carry besides `char`: typed right, typed
      wrong, the cursor position, or not reached yet (no extra class). */
  datatype Mark = Correct | Incorrect | Current | Untyped

  /** One displayed character of the passage. */
  datatype Span = Span(ch: char, mark: Mark)

  /** The mark of passage position `i`: typed positions are compared with the
      input, the first untyped one is the cursor. */
  function MarkAt(passage: string, input: string, i: nat): Mark
    requires i < |passage|
  {
    if i < |input| then (if passage[i] == input[i] then Correct else Incorrect)
    else if i == |input| then Current
    else Untyped
  }

  /** The whole highlighted passage, one span per character. */
  function Highlight(passage: string, input: string): seq<Span> {
    seq(|passage|, i requires 0 <= i < |passage| => Span(passage[i], MarkAt(passage, input, i)))
  }

  /** The loop that rebuilds the display, one span per passage character. */
  method RenderPassageHighlight(passage: string, input: string) returns (spans: seq<Span>)
    ensures spans == Highlight(passage, input)
  {
    spans := [];
    var i := 0;
    while i < |passage|
      invariant 0 <= i <= |passage|
      invariant spans == Highlight(passage, input)[..i]
    {
      var mark := Untyped;
      if i < |input| {
        mark := if passage[i] == input[i] then Correct else Incorrect;
      } else if i == |input| {
        mark := Current;
      }
      spans := spans + [Span(passage[i], mark)];
      i := i + 1;
    }
  }

  /** The display shows the passage character for character; a span is correct
      or incorrect exactly when its position has been typed, according to
      whether the typed character matches; the only cursor is at the input's
      length, and there is one exactly when the input is shorter than the
      passage. */
  lemma HighlightRule(passage: string, input: string)
    ensures var spans := Highlight(passage, input);
      && |spans| == |passage|
      && (forall i :: 0 <= i < |spans| ==> spans[i].ch == passage[i])
      && (forall i :: 0 <= i < |spans| ==>
            (spans[i].mark == Correct <==> i < |input| && passage[i] == input[i]))
      && (forall i :: 0 <= i < |spans| ==>
            (spans[i].mark == Incorrect <==> i < |input| && passage[i] != input[i]))
      && (forall i :: 0 <= i < |spans| ==> (spans[i].mark == Current <==> i == |input|))
      && ((exists i :: 0 <= i < |spans| && spans[i].mark == Current) <==> |input| < |passage|)
  {
    var spans := Highlight(passage, input);
    if |input| < |passage| {
      assert spans[|input|].mark == Current;
    }
  }

  /** Number of spans carrying `m`. */
  function CountMark(spans: seq<Span>, m: Mark): (c: nat)
    ensures c <= |spans|
  {
    if spans == [] then 0
    else CountMark(spans[..|spans| - 1], m) + if spans[|spans| - 1].mark == m then 1 else 0
  }

  function Min(a: int, b: int): int {
    if a < b then a else b
  }

  lemma {:induction false} CorrectSpansUpTo(passage: string, input: string, k: nat)
    requires k <= |passage|
    ensures CountMark(Highlight(passage, input)[..k], Correct)
         == Metrics.CorrectCount(passage, input[..Min(k, |input|)])
  {
    var spans := Highlight(passage, input);
    if k > 0 {
      var j := k - 1;
      CorrectSpansUpTo(passage, input, j);
      assert spans[..k][..j] == spans[..j];
      if j < |input| {
        assert input[..k][..j] == input[..j];
      }
    }
  }

  /** The display marks as correct exactly as many characters as the engine
      counts as correct for the accuracy. */
  lemma CorrectSpansAreCorrectCount(passage: string, input: string)
    ensures CountMark(Highlight(passage, input), Correct) == Metrics.CorrectCount(passage, input)
  {
    CorrectSpansUpTo(passage, input, |passage|);
    assert Highlight(passage, input)[..|passage|] == Highlight(passage, input);
    if |input| > |passage| {
      Metrics.CorrectCountWithinPassage(passage, input);
    } else {
      assert input[..|input|] == input;
    }
  }

  // ---------------------------------------------------------------------------
  // Decimal text
  // ---------------------------------------------------------------------------

  predicate IsDigit(c: char) {
    '0' <= c <= '9'
  }

  function DigitChar(d: nat): (c: char)
    requires d < 10
    ensures IsDigit(c) && c as int - '0' as int == d
  {
    ('0' as int + d) as char
  }

  function DigitValue(c: char): (d: nat)
    requires IsDigit(c)
    ensures d < 10 && DigitChar(d) == c
  {
    (c as int - '0' as int)
  }

  /** `String(n)` for a whole number: its decimal digits, no leading zero. */
  function NatToString(n: nat): (s: string)
    ensures |s| > 0 && forall i :: 0 <= i < |s| ==> IsDigit(s[i])
    ensures |s| == 1 <==> n < 10
  {
    if n < 10 then [DigitChar(n)] else NatToString(n / 10) + [DigitChar(n % 10)]
  }

  /** `String(x)` for an integer: a minus sign in front of a negative one. */
  function IntToString(x: int): string {
    if x < 0 then "-" + NatToString(-x) else NatToString(x)
  }

  /** The value of a string of decimal digits. */
  function DigitsValue(s: string): nat
    requires forall i :: 0 <= i < |s| ==> IsDigit(s[i])
  {
    if s == [] then 0 else DigitsValue(s[..|s| - 1]) * 10 + DigitValue(s[|s| - 1])
  }

  lemma {:induction false} NatToStringRoundTrip(n: nat)
    ensures DigitsValue(NatToString(n)) == n
  {
    if n >= 10 {
      NatToStringRoundTrip(n / 10);
      var s := NatToString(n);
      assert s[..|s| - 1] == NatToString(n / 10);
    }
  }

  /** The longest prefix of `s` made of digits. */
  function DigitPrefix(s: string): (p: string)
    ensures |p| <= |s| && p == s[..|p|]
    ensures forall i :: 0 <= i < |p| ==> IsDigit(p[i])
    ensures |p| < |s| ==> !IsDigit(s[|p|])
  {
    if s == [] || !IsDigit(s[0]) then [] else [s[0]] + DigitPrefix(s[1..])
  }

  lemma {:induction false} DigitPrefixOfDigits(s: string)
    requires forall i :: 0 <= i < |s| ==> IsDigit(s[i])
    ensures DigitPrefix(s) == s
  {
    if s != [] {
      DigitPrefixOfDigits(s[1..]);
    }
  }

  /** `parseInt(s, 10)`: an optional sign and the digits that follow it; `None`
      stands for `NaN`, when no digit follows. */
  function ParseInt(s: string): (r: Option<int>)
    ensures r.None? <==> DigitPrefix(if |s| > 0 && (s[0] == '-' || s[0] == '+') then s[1..] else s) == []
  {
    var negative := |s| > 0 && s[0] == '-';
    var body := if |s| > 0 && (s[0] == '-' || s[0] == '+') then s[1..] else s;
    var digits := DigitPrefix(body);
    if digits == [] then None
    else
      var magnitude: int := DigitsValue(digits);
      Some(if negative then -magnitude else magnitude)
  }

  lemma ParseDigitsOf(n: nat)
    ensures ParseInt(NatToString(n)) == Some(n)
  {
    var s := NatToString(n);
    NatToStringRoundTrip(n);
    DigitPrefixOfDigits(s);
    assert !(s[0] == '-' || s[0] == '+');
  }

  lemma ParseNegativeOf(n: nat)
    requires n > 0
    ensures ParseInt("-" + NatToString(n)) == Some(-(n as int))
  {
    var s := "-" + NatToString(n);
    assert s[1..] == NatToString(n);
    NatToStringRoundTrip(n);
    DigitPrefixOfDigits(NatToString(n));
  }

  /** Reading back the decimal text of an integer gives the integer. */
  lemma IntToStringRoundTrip(x: int)
    ensures ParseInt(IntToString(x)) == Some(x)
  {
    if x < 0 {
      ParseNegativeOf(-x);
    } else {
      ParseDigitsOf(x);
    }
  }

  // ---------------------------------------------------------------------------
  // The chosen duration
  // ---------------------------------------------------------------------------

  /** `parseInt(value, 10) || 60`: the parsed duration, or 60 when the text
      does not start with a number or the number is zero. */
  function SelectedDuration(value: string): (d: int)
    ensures d != 0
    ensures ParseInt(value).Some? && ParseInt(value).value != 0 ==> d == ParseInt(value).value
    ensures ParseInt(value).None? || ParseInt(value) == Some(0) ==> d == 60
  {
    match ParseInt(value)
    case Some(n) => if n != 0 then n else 60
    case None => 60
  }

  /** A menu entry holding the text of a duration selects that duration; the
      text of zero selects the default. */
  lemma SelectedDurationOfText(d: int)
    ensures SelectedDuration(IntToString(d)) == if d == 0 then 60 else d
  {
    IntToStringRoundTrip(d);
  }

  // ---------------------------------------------------------------------------
  // The countdown label
  // ---------------------------------------------------------------------------

  /** JavaScript's `a % 60`: the remainder has the sign of `a`. */
  function JsRem60(a: int): (r: int)
    ensures -60 < r < 60
    ensures a >= 0 ==> 0 <= r
    ensures a <= 0 ==> r <= 0
    ensures (a - r) % 60 == 0
  {
    if a >= 0 then a % 60 else -((-a) % 60)
  }

  /** `s.padStart(2, "0")`. */
  function PadStart2(s: string): (p: string)
    ensures |p| == if |s| < 2 then 2 else |s|
    ensures p[|p| - |s|..] == s
    ensures forall i :: 0 <= i < |p| - |s| ==> p[i] == '0'
  {
    if |s| == 0 then "00" else if |s| == 1 then "0" + s else s
  }

  /** The countdown as shown each second: whole minutes (rounded down), a
      colon, and the remaining seconds on two digits. */
  function TimerLabel(remaining: int): (shown: string)
    ensures remaining >= 0 ==>
      shown == NatToString(remaining / 60) + ":" +
               [DigitChar(remaining % 60 / 10), DigitChar(remaining % 10)]
  {
    if remaining >= 0 then
      SecondsText(remaining);
      IntToString(remaining / 60) + ":" + PadStart2(IntToString(JsRem60(remaining)))
    else IntToString(remaining / 60) + ":" + PadStart2(IntToString(JsRem60(remaining)))
  }

  /** For a non-negative countdown: the seconds within the minute on two digits. */
  lemma SecondsText(remaining: nat)
    ensures PadStart2(IntToString(JsRem60(remaining))) ==
      [DigitChar(remaining % 60 / 10), DigitChar(remaining % 10)]
  {
    TwoDigits(remaining % 60);
    LastDigitWithinMinute(remaining);
  }

  lemma LastDigitWithinMinute(n: nat)
    ensures n % 60 % 10 == n % 10
  {
  }

  /** Reads a label of the form `<minutes>:<two digits>` back into seconds. */
  function ParseTimerLabel(shown: string): Option<int> {
    if |shown| < 3 || shown[|shown| - 3] != ':' then None
    else
      var minutes := shown[..|shown| - 3];
      var seconds := shown[|shown| - 2..];
      if minutes == [] || !(forall i :: 0 <= i < |minutes| ==> IsDigit(minutes[i]))
         || !IsDigit(seconds[0]) || !IsDigit(seconds[1])
      then None
      else Some(DigitsValue(minutes) * 60 + DigitsValue(seconds))
  }

  /** A number below 100 padded to two digits is its tens and units digit
      and reads back as itself. */
  lemma TwoDigits(s: nat)
    requires s < 100
    ensures var t := PadStart2(NatToString(s));
      && t == [DigitChar(s / 10), DigitChar(s % 10)]
      && DigitsValue(t) == s
  {
    var t := PadStart2(NatToString(s));
    if s < 10 {
      assert NatToString(s) == [DigitChar(s)];
    } else {
      assert NatToString(s / 10) == [DigitChar(s / 10)];
    }
    assert t[..1] == [DigitChar(s / 10)];
    assert t[..1][..0] == [];
    assert DigitsValue(t[..1]) == s / 10;
    assert DigitsValue(t) == DigitsValue(t[..1]) * 10 + s % 10;
  }

  /** For a countdown that has not gone below zero the label is minutes, a
      colon and exactly two digits of seconds below 60, and it reads back as
      the remaining time. */
  lemma TimerLabelRoundTrip(remaining: nat)
    ensures |TimerLabel(remaining)| >= 4
    ensures TimerLabel(remaining)[|TimerLabel(remaining)| - 3] == ':'
    ensures ParseTimerLabel(TimerLabel(remaining)) == Some(remaining)
  {
    var m := remaining / 60;
    var s := remaining % 60;
    var minutes := NatToString(m);
    var seconds := PadStart2(NatToString(s));
    var shown := TimerLabel(remaining);
    assert shown == minutes + ":" + seconds;
    TwoDigits(s);
    assert shown[..|shown| - 3] == minutes;
    assert shown[|shown| - 2..] == seconds;
    NatToStringRoundTrip(m);
  }

  // ---------------------------------------------------------------------------
  // Durations in words
  // ---------------------------------------------------------------------------

  /** Durations whose text is a whole number in the unit chosen for them. */
  predicate WholeUnits(seconds: int) {
    || seconds < 60
    || (seconds < 3600 && seconds % 60 == 0)
    || seconds % 3600 == 0
  }

  /** `formatDuration` as written: under a minute in seconds, under an hour in
      minutes, and from an hour on the number of hours, still labelled "min". */
  function FormatDurationAsWritten(seconds: int): (text: string)
    requires WholeUnits(seconds)
    ensures seconds < 60 ==> EndsWith(text, "s")
    ensures seconds >= 60 ==> EndsWith(text, " min")
  {
    if seconds < 60 then IntToString(seconds) + "s"
    else if seconds < 3600 then IntToString(seconds / 60) + " min"
    else IntToString(seconds / 3600) + " min"
  }

  /** `formatDuration` with the hour branch labelled in hours. */
  function FormatDuration(seconds: int): (text: string)
    requires WholeUnits(seconds)
    ensures seconds < 60 ==> EndsWith(text, "s")
    ensures 60 <= seconds < 3600 ==> EndsWith(text, " min")
    ensures seconds >= 3600 ==> EndsWith(text, " h")
  {
    if seconds < 60 then IntToString(seconds) + "s"
    else if seconds < 3600 then IntToString(seconds / 60) + " min"
    else IntToString(seconds / 3600) + " h"
  }

  predicate EndsWith(s: string, suffix: string) {
    |suffix| <= |s| && s[|s| - |suffix|..] == suffix
  }

  /** Reads a duration text back into seconds, by its unit. */
  function ParseDuration(text: string): Option<int> {
    var (number, unit) :=
      if EndsWith(text, " min") then (text[..|text| - 4], 60)
      else if EndsWith(text, " h") then (text[..|text| - 2], 3600)
      else if EndsWith(text, "s") then (text[..|text| - 1], 1)
      else (text, 0);
    if unit == 0 then None
    else match ParseInt(number)
      case Some(n) => Some(n * unit)
      case None => None
  }

  /** A number followed by `suffix` reads back as that number. */
  lemma ParseNumberBefore(n: int, suffix: string)
    requires |suffix| > 0
    ensures var text := IntToString(n) + suffix;
      text[..|text| - |suffix|] == IntToString(n) && EndsWith(text, suffix)
      && ParseInt(text[..|text| - |suffix|]) == Some(n)
  {
    var text := IntToString(n) + suffix;
    assert text[..|text| - |suffix|] == IntToString(n);
    assert text[|text| - |suffix|..] == suffix;
    IntToStringRoundTrip(n);
  }

  lemma ParseSeconds(n: int)
    ensures ParseDuration(IntToString(n) + "s") == Some(n)
  {
    var text := IntToString(n) + "s";
    ParseNumberBefore(n, "s");
    assert text[|text| - 1] == 's';
    assert !EndsWith(text, " min") by {
      if |text| >= 4 {
        assert text[|text| - 4..][3] == 's';
      }
    }
    assert !EndsWith(text, " h") by {
      if |text| >= 2 {
        assert text[|text| - 2..][1] == 's';
      }
    }
  }

  lemma ParseMinutes(n: int)
    ensures ParseDuration(IntToString(n) + " min") == Some(n * 60)
  {
    ParseNumberBefore(n, " min");
  }

  lemma ParseHours(n: int)
    ensures ParseDuration(IntToString(n) + " h") == Some(n * 3600)
  {
    var text := IntToString(n) + " h";
    ParseNumberBefore(n, " h");
    assert text[|text| - 1] == 'h';
    assert !EndsWith(text, " min") by {
      if |text| >= 4 {
        assert text[|text| - 4..][3] == 'h';
      }
    }
  }

  /** The corrected text reads back as the duration it describes. */
  lemma FormatDurationRoundTrip(seconds: int)
    requires WholeUnits(seconds)
    ensures ParseDuration(FormatDuration(seconds)) == Some(seconds)
  {
    if seconds < 60 {
      ParseSeconds(seconds);
    } else if seconds < 3600 {
      ParseMinutes(seconds / 60);
    } else {
      ParseHours(seconds / 3600);
    }
  }

  /** As written, an hour is shown as "1 min", which reads as one minute. */
  lemma FormatDurationAsWrittenMislabelsHours()
    ensures FormatDurationAsWritten(3600) == "1 min"
    ensures ParseDuration(FormatDurationAsWritten(3600)) == Some(60)
  {
    assert NatToString(1) == "1";
    ParseMinutes(1);
  }

  /** Below an hour the two versions agree. */
  lemma FormatDurationAgreesBelowAnHour(seconds: int)
    requires WholeUnits(seconds) && seconds < 3600
    ensures FormatDurationAsWritten(seconds) == FormatDuration(seconds)
  {
  }
}
