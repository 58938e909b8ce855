/**
 * The `time_slot` check of `create_class`: the slot must read `H:M-H:M`, each endpoint an
 * `int:int` pair within a day, and the end after the start. A failed check becomes a 400 whose
 * detail keeps the `ValueError` text only when that text contains "must".
 */
module SlotValidation {
  import opened Common
  import opened Intervals
  import opened PyText
  import TimeSlotParser

  /** The `ValueError`s the check raises, in the order it can raise them. */
  datatype SlotError =
    | NoSeparator
    | Unpack(error: PyError)
    | OutOfRange
    | EndNotAfterStart

  /** `str(e)`. */
  function ErrorMessage(e: SlotError): string
  {
    match e
    case NoSeparator => "Time slot must contain a range with '-' separator"
    case Unpack(p) => ErrorText(p)
    case OutOfRange => "Invalid time values"
    case EndNotAfterStart => "End time must be after start time"
  }

  const FormatHint: string := ". Use 'HH:MM-HH:MM' format (e.g., '09:00-10:30')"

  /** The `detail` of the 400 response. */
  function Detail(e: SlotError): (r: string)
    ensures r == ErrorMessage(e) + FormatHint || r == "Invalid time_slot format" + FormatHint
  {
    (if Contains(ErrorMessage(e), "must") then ErrorMessage(e) else "Invalid time_slot format") + FormatHint
  }

  datatype ClockChecked = Minutes(value: int) | Bad(error: SlotError)

  /** One pass of the `for time_part in ...` loop: `hours, minutes = map(int, part.split(":"))`
    * and the range test. */
  function CheckClock(part: string): (r: ClockChecked)
    ensures r.Minutes? ==> 0 <= r.value < 24 * 60
  {
    match UnpackTwoInts(part)
    case Raised(e) => Bad(Unpack(e))
    case Pair(hours, minutes) =>
      if 0 <= hours < 24 && 0 <= minutes < 60 then Minutes(hours * 60 + minutes) else Bad(OutOfRange)
  }

  datatype Checked = Accepted(slot: TimeSlot) | Rejected(error: SlotError)

  /** The `try` block of `create_class` on a non-empty slot. The second reading of the same
    * parts before the end-after-start test cannot fail once the loop has passed. */
  function CheckTimeSlot(ts: string): (r: Checked)
    ensures r.Accepted? ==> 0 <= r.slot.start < r.slot.end < 24 * 60
  {
    if '-' !in ts then Rejected(NoSeparator)
    else
      var parts := Split(ts, '-');
      if |parts| != 2 then Rejected(Unpack(TooManyValues))
      else
        var start := CheckClock(Strip(parts[0]));
        if start.Bad? then Rejected(start.error)
        else
          var end := CheckClock(Strip(parts[1]));
          if end.Bad? then Rejected(end.error)
          else if end.value <= start.value then Rejected(EndNotAfterStart)
          else Accepted(TimeSlot(start.value, end.value))
  }

  /** `if class_data.time_slot:` guards the whole check, so a missing or empty slot passes. */
  function ValidateTimeSlot(timeSlot: Option<string>): (r: Option<HttpError>)
    ensures timeSlot.None? || timeSlot.value == "" ==> r.None?
    ensures r.Some? ==> (timeSlot.Some? && CheckTimeSlot(timeSlot.value).Rejected?
      && r.value == HttpError(BadRequest, Detail(CheckTimeSlot(timeSlot.value).error)))
    ensures r.None? && timeSlot.Some? && timeSlot.value != "" ==> CheckTimeSlot(timeSlot.value).Accepted?
  {
    if timeSlot.None? || timeSlot.value == "" then None
    else
      match CheckTimeSlot(timeSlot.value)
      case Accepted(_) => None
      case Rejected(e) => Some(HttpError(BadRequest, Detail(e)))
  }

  // ---------------------------------------------------------------------------
  // What is accepted, written out

  /** An endpoint the check accepts is `hours:minutes` with both pieces integers in range ... */
  lemma ClockAccepted(part: string) returns (hs: string, ms: string, h: int, m: int)
    requires CheckClock(part).Minutes?
    ensures part == hs + ":" + ms && ':' !in hs && ':' !in ms
    ensures PyInt(hs) == Some(h) && PyInt(ms) == Some(m)
    ensures 0 <= h < 24 && 0 <= m < 60 && CheckClock(part).value == h * 60 + m
  {
    UnpackIff(part);
    TwoPieces(part, ':');
    var pieces := Split(part, ':');
    hs, ms := pieces[0], pieces[1];
    h, m := PyInt(hs).value, PyInt(ms).value;
  }

  /** ... and every such endpoint is accepted. */
  lemma ClockOf(hs: string, ms: string, h: int, m: int)
    requires ':' !in hs && ':' !in ms && PyInt(hs) == Some(h) && PyInt(ms) == Some(m)
    requires 0 <= h < 24 && 0 <= m < 60
    ensures CheckClock(hs + ":" + ms) == Minutes(h * 60 + m)
  {
    SplitTwo(hs, ms, ':');
  }

  /** An accepted slot is two dash-free parts whose stripped forms are accepted endpoints, the
    * end after the start. */
  lemma SlotAccepted(ts: string) returns (a: string, b: string)
    requires CheckTimeSlot(ts).Accepted?
    ensures ts == a + "-" + b && '-' !in a && '-' !in b
    ensures CheckClock(Strip(a)) == Minutes(CheckTimeSlot(ts).slot.start)
    ensures CheckClock(Strip(b)) == Minutes(CheckTimeSlot(ts).slot.end)
    ensures CheckTimeSlot(ts).slot.start < CheckTimeSlot(ts).slot.end
  {
    TwoPieces(ts, '-');
    var parts := Split(ts, '-');
    a, b := parts[0], parts[1];
  }

  /** Any two such parts make an accepted slot. */
  lemma SlotOf(a: string, b: string, start: int, end: int)
    requires '-' !in a && '-' !in b
    requires CheckClock(Strip(a)) == Minutes(start) && CheckClock(Strip(b)) == Minutes(end)
    requires start < end
    ensures CheckTimeSlot(a + "-" + b) == Accepted(TimeSlot(start, end))
  {
    var ts := a + "-" + b;
    assert ts[|a|] == '-';
    SplitTwo(a, b, '-');
    assert Split(ts, '-') == [a, b];
  }

  /** A slot without a dash, or with more than one, is rejected before any endpoint is read. */
  lemma DashRejections(ts: string)
    ensures '-' !in ts ==> CheckTimeSlot(ts) == Rejected(NoSeparator)
    ensures multiset(ts)['-'] >= 2 ==> CheckTimeSlot(ts) == Rejected(Unpack(TooManyValues))
  {
    SplitPieces(ts, '-');
  }

  // ---------------------------------------------------------------------------
  // Slots both sides read

  /** The text of one endpoint, `H:MM`, as `parseTimeSlot`'s pattern captures it; around the dash
    * white space both languages count as such. */
  predicate FrontendForm(h1: string, m1: string, w1: string, w2: string, h2: string, m2: string)
  {
    TimeSlotParser.Pieces(h1, m1, w1, w2, h2, m2) && AllSpace(w1) && AllSpace(w2)
  }

  lemma FrontendDigits(t: string)
    requires TimeSlotParser.AllDigits(t)
    ensures AllDigits(t) && DigitsValue(t) == TimeSlotParser.DecimalValue(t)
    decreases |t|
  {
    if |t| > 0 {
      FrontendDigits(t[..|t| - 1]);
    }
  }

  lemma AssembleAround(h1: string, m1: string, w1: string, w2: string, h2: string, m2: string)
    ensures TimeSlotParser.Assemble(h1, m1, w1, w2, h2, m2) == ((h1 + ":" + m1) + w1) + "-" + (w2 + (h2 + ":" + m2))
  {
  }

  lemma EndpointText(h: string, m: string)
    requires |h| > 0 && |m| > 0 && TimeSlotParser.AllDigits(h) && TimeSlotParser.AllDigits(m)
    requires TimeSlotParser.DecimalValue(h) < 24 && TimeSlotParser.DecimalValue(m) < 60
    ensures CheckClock(h + ":" + m) == Minutes(TimeSlotParser.DecimalValue(h) * 60 + TimeSlotParser.DecimalValue(m))
  {
    FrontendDigits(h);
    FrontendDigits(m);
    PyIntDigits(h);
    PyIntDigits(m);
    DigitsHaveNoColon(h);
    DigitsHaveNoColon(m);
    ClockOf(h, m, DigitsValue(h), DigitsValue(m));
  }

  lemma DigitsHaveNoColon(t: string)
    requires AllDigits(t)
    ensures ':' !in t
  {
  }

  lemma EndpointAround(h: string, m: string, lead: string, trail: string)
    requires |h| > 0 && |m| > 0 && TimeSlotParser.AllDigits(h) && TimeSlotParser.AllDigits(m)
    requires AllSpace(lead) && AllSpace(trail)
    requires TimeSlotParser.DecimalValue(h) < 24 && TimeSlotParser.DecimalValue(m) < 60
    ensures CheckClock(Strip(lead + (h + ":" + m) + trail))
         == Minutes(TimeSlotParser.DecimalValue(h) * 60 + TimeSlotParser.DecimalValue(m))
  {
    var e := h + ":" + m;
    assert e[0] == h[0] && e[|e| - 1] == m[|m| - 1];
    StripSurrounded(lead, e, trail);
    EndpointText(h, m);
  }

  lemma NoDashAround(h: string, m: string, lead: string, trail: string)
    requires TimeSlotParser.AllDigits(h) && TimeSlotParser.AllDigits(m)
    requires TimeSlotParser.AllJsSpace(lead) && TimeSlotParser.AllJsSpace(trail)
    ensures '-' !in lead + (h + ":" + m) + trail
  {
  }

  /** A pattern match whose hours and minutes are within a day and whose end follows its start. */
  predicate InDay(h1: string, m1: string, w1: string, w2: string, h2: string, m2: string)
  {
    FrontendForm(h1, m1, w1, w2, h2, m2)
    && TimeSlotParser.DecimalValue(h1) < 24 && TimeSlotParser.DecimalValue(m1) < 60
    && TimeSlotParser.DecimalValue(h2) < 24 && TimeSlotParser.DecimalValue(m2) < 60
    && TimeSlotParser.DecimalValue(h1) * 60 + TimeSlotParser.DecimalValue(m1)
       < TimeSlotParser.DecimalValue(h2) * 60 + TimeSlotParser.DecimalValue(m2)
  }

  /** The two sides of the dash of a pattern match are dash-free endpoints the check accepts. */
  lemma SidesAccepted(h1: string, m1: string, w1: string, w2: string, h2: string, m2: string)
    requires InDay(h1, m1, w1, w2, h2, m2)
    ensures '-' !in (h1 + ":" + m1) + w1 && '-' !in w2 + (h2 + ":" + m2)
    ensures CheckClock(Strip((h1 + ":" + m1) + w1))
         == Minutes(TimeSlotParser.DecimalValue(h1) * 60 + TimeSlotParser.DecimalValue(m1))
    ensures CheckClock(Strip(w2 + (h2 + ":" + m2)))
         == Minutes(TimeSlotParser.DecimalValue(h2) * 60 + TimeSlotParser.DecimalValue(m2))
  {
    EndpointAround(h1, m1, "", w1);
    EndpointAround(h2, m2, w2, "");
    assert "" + (h1 + ":" + m1) + w1 == (h1 + ":" + m1) + w1;
    assert w2 + (h2 + ":" + m2) + "" == w2 + (h2 + ":" + m2);
    NoDashAround(h1, m1, "", w1);
    NoDashAround(h2, m2, w2, "");
  }

  lemma PiecesAccepted(h1: string, m1: string, w1: string, w2: string, h2: string, m2: string, start: int, end: int)
    requires InDay(h1, m1, w1, w2, h2, m2)
    requires start == TimeSlotParser.DecimalValue(h1) * 60 + TimeSlotParser.DecimalValue(m1)
    requires end == TimeSlotParser.DecimalValue(h2) * 60 + TimeSlotParser.DecimalValue(m2)
    ensures CheckTimeSlot(TimeSlotParser.Assemble(h1, m1, w1, w2, h2, m2)) == Accepted(TimeSlot(start, end))
  {
    SidesAccepted(h1, m1, w1, w2, h2, m2);
    SlotOf((h1 + ":" + m1) + w1, w2 + (h2 + ":" + m2), start, end);
    AssembleAround(h1, m1, w1, w2, h2, m2);
  }

  /** Every in-range slot the frontend's pattern matches, with the end after the start, is also
    * accepted by `create_class`, as the same interval. */
  lemma FrontendSlotsAccepted(h1: string, m1: string, w1: string, w2: string, h2: string, m2: string)
    requires InDay(h1, m1, w1, w2, h2, m2)
    ensures TimeSlotParser.ParseTimeSlot(TimeSlotParser.Assemble(h1, m1, w1, w2, h2, m2)).Some?
    ensures CheckTimeSlot(TimeSlotParser.Assemble(h1, m1, w1, w2, h2, m2))
         == Accepted(TimeSlotParser.ParseTimeSlot(TimeSlotParser.Assemble(h1, m1, w1, w2, h2, m2)).value)
  {
    TimeSlotParser.ParseAssembled(h1, m1, w1, w2, h2, m2);
    var parsed := TimeSlotParser.ParseTimeSlot(TimeSlotParser.Assemble(h1, m1, w1, w2, h2, m2)).value;
    PiecesAccepted(h1, m1, w1, w2, h2, m2, parsed.start, parsed.end);
  }

  // ---------------------------------------------------------------------------
  // Where the two sides part ways

  /** A first endpoint the check refuses refuses the slot with its error. */
  lemma SlotOfBadStart(a: string, b: string, e: SlotError)
    requires '-' !in a && '-' !in b && CheckClock(Strip(a)) == Bad(e)
    ensures CheckTimeSlot(a + "-" + b) == Rejected(e)
  {
    var ts := a + "-" + b;
    assert ts[|a|] == '-';
    SplitTwo(a, b, '-');
  }

  lemma FrontendNoMinutes(h: string, m: string, rest: string)
    requires 1 <= |h| <= 2 && TimeSlotParser.AllDigits(h) && |m| == 1
    requires rest == [] || !TimeSlotParser.IsDigit(rest[0])
    ensures TimeSlotParser.ParseTimeSlot(h + (":" + (m + rest))) == None
  {
    TimeSlotParser.HourOf(h, m + rest);
    var t := m + rest;
    assert |t| >= 2 ==> t[1] == rest[0];
  }

  /** `H:M` with digit runs for hours and minutes, within a day. */
  predicate PlainEndpoint(h: string, m: string)
  {
    |h| > 0 && |m| > 0 && TimeSlotParser.AllDigits(h) && TimeSlotParser.AllDigits(m)
    && TimeSlotParser.DecimalValue(h) < 24 && TimeSlotParser.DecimalValue(m) < 60
  }

  /** Two such endpoints, the second later than the first. */
  predicate PlainInDay(h1: string, m1: string, h2: string, m2: string)
  {
    PlainEndpoint(h1, m1) && PlainEndpoint(h2, m2)
    && TimeSlotParser.DecimalValue(h1) * 60 + TimeSlotParser.DecimalValue(m1)
       < TimeSlotParser.DecimalValue(h2) * 60 + TimeSlotParser.DecimalValue(m2)
  }

  lemma PlainSides(h1: string, m1: string, h2: string, m2: string)
    requires PlainInDay(h1, m1, h2, m2)
    ensures '-' !in h1 + ":" + m1 && '-' !in h2 + ":" + m2
    ensures CheckClock(Strip(h1 + ":" + m1))
         == Minutes(TimeSlotParser.DecimalValue(h1) * 60 + TimeSlotParser.DecimalValue(m1))
    ensures CheckClock(Strip(h2 + ":" + m2))
         == Minutes(TimeSlotParser.DecimalValue(h2) * 60 + TimeSlotParser.DecimalValue(m2))
  {
    EndpointAround(h1, m1, "", "");
    EndpointAround(h2, m2, "", "");
    assert "" + (h1 + ":" + m1) + "" == h1 + ":" + m1;
    assert "" + (h2 + ":" + m2) + "" == h2 + ":" + m2;
    NoDashAround(h1, m1, "", "");
    NoDashAround(h2, m2, "", "");
  }

  lemma PlainAccepted(h1: string, m1: string, h2: string, m2: string, start: int, end: int)
    requires PlainInDay(h1, m1, h2, m2)
    requires start == TimeSlotParser.DecimalValue(h1) * 60 + TimeSlotParser.DecimalValue(m1)
    requires end == TimeSlotParser.DecimalValue(h2) * 60 + TimeSlotParser.DecimalValue(m2)
    ensures CheckTimeSlot((h1 + ":" + m1) + "-" + (h2 + ":" + m2)) == Accepted(TimeSlot(start, end))
  {
    PlainSides(h1, m1, h2, m2);
    SlotOf(h1 + ":" + m1, h2 + ":" + m2, start, end);
  }

  /** Single-digit minutes pass the backend check, but `parseTimeSlot` wants two minute digits,
    * so such a class is stored and never drawn. */
  lemma ShortMinutesStoredNotShown(h1: string, m1: string, h2: string, m2: string, start: int, end: int)
    requires PlainInDay(h1, m1, h2, m2) && |h1| <= 2 && |m1| == 1
    requires start == TimeSlotParser.DecimalValue(h1) * 60 + TimeSlotParser.DecimalValue(m1)
    requires end == TimeSlotParser.DecimalValue(h2) * 60 + TimeSlotParser.DecimalValue(m2)
    ensures CheckTimeSlot((h1 + ":" + m1) + "-" + (h2 + ":" + m2)) == Accepted(TimeSlot(start, end))
    ensures TimeSlotParser.ParseTimeSlot((h1 + ":" + m1) + "-" + (h2 + ":" + m2)) == None
  {
    PlainAccepted(h1, m1, h2, m2, start, end);
    ShortMinutesNotParsed(h1, m1, h2 + ":" + m2);
  }

  lemma ShortMinutesNotParsed(h: string, m: string, b: string)
    requires 1 <= |h| <= 2 && TimeSlotParser.AllDigits(h) && |m| == 1
    ensures TimeSlotParser.ParseTimeSlot((h + ":" + m) + "-" + b) == None
  {
    FrontendNoMinutes(h, m, "-" + b);
    assert (h + ":" + m) + "-" + b == h + (":" + (m + ("-" + b)));
  }

  lemma ClockOutOfRange(h: string, m: string, lead: string, trail: string)
    requires |h| > 0 && |m| > 0 && TimeSlotParser.AllDigits(h) && TimeSlotParser.AllDigits(m)
    requires AllSpace(lead) && AllSpace(trail)
    requires TimeSlotParser.DecimalValue(h) >= 24
    ensures CheckClock(Strip(lead + (h + ":" + m) + trail)) == Bad(OutOfRange)
  {
    var e := h + ":" + m;
    assert e[0] == h[0] && e[|e| - 1] == m[|m| - 1];
    StripSurrounded(lead, e, trail);
    FrontendDigits(h);
    FrontendDigits(m);
    PyIntDigits(h);
    PyIntDigits(m);
    assert ':' !in h && ':' !in m;
    SplitTwo(h, m, ':');
  }

  /** `parseTimeSlot` reads hours past 23 and draws them below the grid; `create_class` refuses
    * such a slot, and its detail is the generic one. */
  lemma LateHoursShownNotStored(h1: string, m1: string, w1: string, w2: string, h2: string, m2: string)
    requires FrontendForm(h1, m1, w1, w2, h2, m2) && TimeSlotParser.DecimalValue(h1) >= 24
    ensures TimeSlotParser.ParseTimeSlot(TimeSlotParser.Assemble(h1, m1, w1, w2, h2, m2)).Some?
    ensures CheckTimeSlot(TimeSlotParser.Assemble(h1, m1, w1, w2, h2, m2)) == Rejected(OutOfRange)
    ensures Detail(OutOfRange) == "Invalid time_slot format" + FormatHint
  {
    TimeSlotParser.ParseAssembled(h1, m1, w1, w2, h2, m2);
    var a, b := (h1 + ":" + m1) + w1, w2 + (h2 + ":" + m2);
    ClockOutOfRange(h1, m1, "", w1);
    assert "" + (h1 + ":" + m1) + w1 == a;
    NoDashAround(h1, m1, "", w1);
    NoDashAround(h2, m2, w2, "");
    assert w2 + (h2 + ":" + m2) + "" == b;
    SlotOfBadStart(a, b, OutOfRange);
    AssembleAround(h1, m1, w1, w2, h2, m2);
    OutOfRangeDetail();
  }

  /** The range message does not contain "must", so its detail is the generic one. */
  lemma OutOfRangeDetail()
    ensures Detail(OutOfRange) == "Invalid time_slot format" + FormatHint
  {
    var s := ErrorMessage(OutOfRange);
    forall i | 0 <= i <= |s| ensures !OccursAt(s, "must", i) {
      if i <= |s| - 4 {
        assert s[i..i + 4][0] == s[i] && s[i..i + 4][1] == s[i + 1];
      }
    }
  }

  lemma MustAt(s: string, i: int)
    requires 0 <= i && i + 4 <= |s| && s[i] == 'm' && s[i + 1] == 'u' && s[i + 2] == 's' && s[i + 3] == 't'
    ensures Contains(s, "must")
  {
    assert s[i..i + 4] == "must";
    assert OccursAt(s, "must", i);
  }

  /** The check's own messages contain "must" and are passed through. */
  lemma OwnMessagesKept()
    ensures Detail(NoSeparator) == "Time slot must contain a range with '-' separator" + FormatHint
    ensures Detail(EndNotAfterStart) == "End time must be after start time" + FormatHint
  {
    MustAt(ErrorMessage(NoSeparator), 10);
    MustAt(ErrorMessage(EndNotAfterStart), 9);
  }
}
