/** The frontend `parseTimeSlot`: the pattern `^(\d{1,2}):(\d{2})\s*-\s*(\d{1,2}):(\d{2})$`, then
    `parseInt(hour) * 60 + parseInt(minute)` for each endpoint. Hours and minutes are not
    range-checked and the end need not follow the start. */
module TimeSlotParser {
  import opened Common
  import opened Intervals

  /** `\d` without the `u` flag: the ASCII digits only. */
  predicate IsDigit(c: char) {
    '0' <= c <= '9'
  }

  /** `\s`: the ECMAScript WhiteSpace and LineTerminator code points. */
  predicate IsJsSpace(c: char) {
    var n := c as int;
    n == 0x09 || n == 0x0A || n == 0x0B || n == 0x0C || n == 0x0D || n == 0x20 || n == 0xA0
    || n == 0x1680 || (0x2000 <= n <= 0x200A) || n == 0x2028 || n == 0x2029 || n == 0x202F
    || n == 0x205F || n == 0x3000 || n == 0xFEFF
  }

  predicate AllDigits(s: string) {
    forall i | 0 <= i < |s| :: IsDigit(s[i])
  }

  predicate AllJsSpace(s: string) {
    forall i | 0 <= i < |s| :: IsJsSpace(s[i])
  }

  /** `parseInt` (radix 10) of a string of ASCII digits. */
  function DecimalValue(ds: string): nat
    requires AllDigits(ds)
  {
    if ds == [] then 0 else DecimalValue(ds[..|ds| - 1]) * 10 + ((ds[|ds| - 1] as int) - ('0' as int))
  }

  /** `(\d{1,2}):` at the front of `s`: the hour and what follows the colon. The greedy
      `\d{1,2}` backtracks to one digit, so three leading digits never match. */
  function HourThenColon(s: string): Option<(nat, string)> {
    if |s| >= 3 && IsDigit(s[0]) && IsDigit(s[1]) && s[2] == ':' then Some((DecimalValue(s[..2]), s[3..]))
    else if |s| >= 2 && IsDigit(s[0]) && s[1] == ':' then Some((DecimalValue(s[..1]), s[2..]))
    else None
  }

  /** `(\d{2})` at the front of `s`. */
  function TwoDigits(s: string): Option<(nat, string)> {
    if |s| >= 2 && IsDigit(s[0]) && IsDigit(s[1]) then Some((DecimalValue(s[..2]), s[2..])) else None
  }

  /** `\s*`: drops leading white space. */
  function SkipSpaces(s: string): string {
    if s != [] && IsJsSpace(s[0]) then SkipSpaces(s[1..]) else s
  }

  /** `(\d{1,2}):(\d{2})`: one endpoint in minutes from midnight, and the rest of the input. */
  function Clock(s: string): Option<(nat, string)> {
    var hour := HourThenColon(s);
    if hour.None? then None
    else
      var minute := TwoDigits(hour.value.1);
      if minute.None? then None
      else Some((hour.value.0 * 60 + minute.value.0, minute.value.1))
  }

  /** `parseTimeSlot`: `null` (here `None`) for the empty string or any string the pattern
      rejects. */
  function ParseTimeSlot(timeSlot: string): Option<TimeSlot> {
    if timeSlot == "" then None
    else
      var first := Clock(timeSlot);
      if first.None? then None
      else
        var dash := SkipSpaces(first.value.1);
        if dash == [] || dash[0] != '-' then None
        else
          var second := Clock(SkipSpaces(dash[1..]));
          if second.None? || second.value.1 != [] then None
          else Some(TimeSlot(first.value.0, second.value.0))
  }

  // ---------------------------------------------------------------------------------------
  // The pattern written out piece by piece, as an independent definition of what matches.

  /** The capture groups and the two `\s*` runs of one match. */
  predicate Pieces(h1: string, m1: string, w1: string, w2: string, h2: string, m2: string) {
    1 <= |h1| <= 2 && AllDigits(h1) && |m1| == 2 && AllDigits(m1)
    && AllJsSpace(w1) && AllJsSpace(w2)
    && 1 <= |h2| <= 2 && AllDigits(h2) && |m2| == 2 && AllDigits(m2)
  }

  function Assemble(h1: string, m1: string, w1: string, w2: string, h2: string, m2: string): string {
    h1 + (":" + (m1 + (w1 + ("-" + (w2 + (h2 + (":" + m2)))))))
  }

  /** Whole-string match of `^(\d{1,2}):(\d{2})\s*-\s*(\d{1,2}):(\d{2})$`. */
  ghost predicate MatchesPattern(s: string) {
    exists h1, m1, w1, w2, h2, m2 :: Pieces(h1, m1, w1, w2, h2, m2) && s == Assemble(h1, m1, w1, w2, h2, m2)
  }

  lemma HourOf(h: string, rest: string)
    requires 1 <= |h| <= 2 && AllDigits(h)
    ensures HourThenColon(h + (":" + rest)) == Some((DecimalValue(h), rest))
  {
    var s := h + (":" + rest);
    if |h| == 2 {
      assert s[2] == ':' && s[0] == h[0] && s[1] == h[1];
      assert s[..2] == h && s[3..] == rest;
    } else {
      assert s[1] == ':' && s[0] == h[0];
      assert s[..1] == h && s[2..] == rest;
    }
  }

  lemma TwoDigitsOf(m: string, rest: string)
    requires |m| == 2 && AllDigits(m)
    ensures TwoDigits(m + rest) == Some((DecimalValue(m), rest))
  {
    var s := m + rest;
    assert s[0] == m[0] && s[1] == m[1];
    assert s[..2] == m && s[2..] == rest;
  }

  lemma ClockStep(s: string, hour: nat, afterColon: string, minute: nat, rest: string)
    requires HourThenColon(s) == Some((hour, afterColon)) && TwoDigits(afterColon) == Some((minute, rest))
    ensures Clock(s) == Some((hour * 60 + minute, rest))
  {
  }

  lemma SkipSpacesOver(w: string, t: string)
    requires AllJsSpace(w)
    requires t == [] || !IsJsSpace(t[0])
    ensures SkipSpaces(w + t) == t
    decreases |w|
  {
    if w != [] {
      assert (w + t)[1..] == w[1..] + t;
      SkipSpacesOver(w[1..], t);
    }
  }

  /** Every string the pattern matches parses, to exactly `H1*60+M1` and `H2*60+M2`. */
  lemma {:induction false} ParseAssembled(h1: string, m1: string, w1: string, w2: string, h2: string, m2: string)
    requires Pieces(h1, m1, w1, w2, h2, m2)
    ensures ParseTimeSlot(Assemble(h1, m1, w1, w2, h2, m2))
         == Some(TimeSlot(DecimalValue(h1) * 60 + DecimalValue(m1), DecimalValue(h2) * 60 + DecimalValue(m2)))
  {
    var second := h2 + (":" + (m2 + ""));
    assert m2 + "" == m2;
    var dashed := "-" + (w2 + second);
    var tail := w1 + dashed;
    var s := Assemble(h1, m1, w1, w2, h2, m2);
    assert s == h1 + (":" + (m1 + tail));
    HourOf(h1, m1 + tail);
    TwoDigitsOf(m1, tail);
    ClockStep(s, DecimalValue(h1), m1 + tail, DecimalValue(m1), tail);
    SkipSpacesOver(w1, dashed);
    assert SkipSpaces(tail) == dashed;
    assert dashed[1..] == w2 + second;
    assert second[0] == h2[0];
    SkipSpacesOver(w2, second);
    HourOf(h2, m2 + "");
    TwoDigitsOf(m2, "");
    ClockStep(second, DecimalValue(h2), m2 + "", DecimalValue(m2), "");
    assert Clock(SkipSpaces(dashed[1..])) == Some((DecimalValue(h2) * 60 + DecimalValue(m2), ""));
  }

  /** A successful `(\d{1,2}):(\d{2})` consumed an hour, a colon and two minute digits. */
  lemma ClockSplits(s: string) returns (h: string, m: string)
    requires Clock(s).Some?
    ensures 1 <= |h| <= 2 && AllDigits(h) && |m| == 2 && AllDigits(m)
    ensures s == h + (":" + (m + Clock(s).value.1))
    ensures Clock(s).value.0 == DecimalValue(h) * 60 + DecimalValue(m)
  {
    var hour := HourThenColon(s);
    var afterColon := hour.value.1;
    h := if |s| >= 3 && IsDigit(s[0]) && IsDigit(s[1]) && s[2] == ':' then s[..2] else s[..1];
    assert s == h + (":" + afterColon);
    assert hour.value.0 == DecimalValue(h);
    var minute := TwoDigits(afterColon);
    m := afterColon[..2];
    assert minute.value.0 == DecimalValue(m);
    assert afterColon == m + minute.value.1;
    assert Clock(s).value == (hour.value.0 * 60 + minute.value.0, minute.value.1);
  }

  /** `\s*` consumed a run of white space. */
  lemma {:induction false} SkipSpacesSplits(s: string) returns (w: string)
    ensures AllJsSpace(w) && s == w + SkipSpaces(s)
    decreases |s|
  {
    if s != [] && IsJsSpace(s[0]) {
      var w' := SkipSpacesSplits(s[1..]);
      w := [s[0]] + w';
      assert s == [s[0]] + w' + SkipSpaces(s);
    } else {
      w := "";
      assert s == "" + SkipSpaces(s);
    }
  }

  /** `\s*-\s*` at the front of `rest`. */
  lemma DashSplits(rest: string) returns (w1: string, w2: string)
    requires SkipSpaces(rest) != [] && SkipSpaces(rest)[0] == '-'
    ensures AllJsSpace(w1) && AllJsSpace(w2)
    ensures rest == w1 + ("-" + (w2 + SkipSpaces(SkipSpaces(rest)[1..])))
  {
    var dash := SkipSpaces(rest);
    w1 := SkipSpacesSplits(rest);
    var after := SkipSpaces(dash[1..]);
    w2 := SkipSpacesSplits(dash[1..]);
    assert dash == "-" + (w2 + after);
  }

  /** `(\d{1,2}):(\d{2})$`: the second endpoint ends the input. */
  lemma EndSplits(after: string) returns (h2: string, m2: string)
    requires Clock(after).Some? && Clock(after).value.1 == []
    ensures 1 <= |h2| <= 2 && AllDigits(h2) && |m2| == 2 && AllDigits(m2)
    ensures after == h2 + (":" + m2) && Clock(after).value.0 == DecimalValue(h2) * 60 + DecimalValue(m2)
  {
    h2, m2 := ClockSplits(after);
    assert m2 + [] == m2;
  }

  /** What a successful `parseTimeSlot` went through. */
  lemma ParseSteps(s: string)
    requires ParseTimeSlot(s).Some?
    ensures Clock(s).Some?
    ensures var dash := SkipSpaces(Clock(s).value.1);
            && dash != [] && dash[0] == '-'
            && var second := Clock(SkipSpaces(dash[1..]));
            && second.Some? && second.value.1 == []
            && ParseTimeSlot(s).value == TimeSlot(Clock(s).value.0, second.value.0)
  {
  }

  /** Every string that parses is one the pattern matches, and its values are those of the
      capture groups. */
  lemma {:induction false} ParseSound(s: string) returns (h1: string, m1: string, w1: string, w2: string, h2: string, m2: string)
    requires ParseTimeSlot(s).Some?
    ensures Pieces(h1, m1, w1, w2, h2, m2) && s == Assemble(h1, m1, w1, w2, h2, m2)
    ensures ParseTimeSlot(s).value
            == TimeSlot(DecimalValue(h1) * 60 + DecimalValue(m1), DecimalValue(h2) * 60 + DecimalValue(m2))
  {
    ParseSteps(s);
    var rest := Clock(s).value.1;
    h1, m1 := ClockSplits(s);
    var after := SkipSpaces(SkipSpaces(rest)[1..]);
    w1, w2 := DashSplits(rest);
    h2, m2 := EndSplits(after);
    AssembleParts(s, rest, after, h1, m1, w1, w2, h2, m2);
  }

  lemma AssembleParts(s: string, rest: string, after: string,
                      h1: string, m1: string, w1: string, w2: string, h2: string, m2: string)
    requires s == h1 + (":" + (m1 + rest)) && rest == w1 + ("-" + (w2 + after)) && after == h2 + (":" + m2)
    ensures s == Assemble(h1, m1, w1, w2, h2, m2)
  {
  }

  /** `parseTimeSlot` returns an interval exactly for the strings the pattern matches. */
  lemma ParseIffMatches(s: string)
    ensures ParseTimeSlot(s).Some? <==> MatchesPattern(s)
  {
    if ParseTimeSlot(s).Some? {
      var h1, m1, w1, w2, h2, m2 := ParseSound(s);
    }
    if MatchesPattern(s) {
      var h1, m1, w1, w2, h2, m2 :| Pieces(h1, m1, w1, w2, h2, m2) && s == Assemble(h1, m1, w1, w2, h2, m2);
      ParseAssembled(h1, m1, w1, w2, h2, m2);
    }
  }

  /** No range check: an hour of 25 is read as 25 * 60 minutes. */
  lemma OutOfRangeHoursParse()
    ensures ParseTimeSlot("25:00-26:00") == Some(TimeSlot(1500, 1560))
  {
    AssembledOutOfRange();
    ParseAssembled("25", "00", "", "", "26", "00");
  }

  lemma AssembledOutOfRange()
    ensures Assemble("25", "00", "", "", "26", "00") == "25:00-26:00"
    ensures DecimalValue("25") == 25 && DecimalValue("00") == 0 && DecimalValue("26") == 26
  {
    assert ":" + "00" == ":00";
    assert "26" + ":00" == "26:00";
    assert "-" + ("" + "26:00") == "-26:00";
    assert "00" + ("" + "-26:00") == "00-26:00";
  }

  /** No order check: an end before the start still parses. */
  lemma ReversedRangeParses(s: string)
    requires s == "10:00 - 9:30"
    ensures ParseTimeSlot(s) == Some(TimeSlot(600, 570))
  {
    AssembledReversed();
    ParseAssembled("10", "00", " ", " ", "9", "30");
  }

  lemma AssembledReversed()
    ensures Pieces("10", "00", " ", " ", "9", "30")
    ensures Assemble("10", "00", " ", " ", "9", "30") == "10:00 - 9:30"
    ensures DecimalValue("10") == 10 && DecimalValue("00") == 0 && DecimalValue("9") == 9 && DecimalValue("30") == 30
  {
    assert IsJsSpace(' ');
    assert "9" + (":" + "30") == "9:30";
    assert "-" + (" " + "9:30") == "- 9:30";
    assert "00" + (" " + "- 9:30") == "00 - 9:30";
  }

  lemma EmptyDoesNotParse()
    ensures ParseTimeSlot("") == None
  {
  }
}
