/**
 * `add-delay`: the duration grammar of `parse_duration`, the append of
 * `add_delay` and the seconds kept by `command`.
 *
 * A duration is read with the pattern `^((\d+?)hr)?((\d+?)m)?((\d+?)s)?$`
 * (anchored at the start by `re.match`), and, when that fails, as a bare
 * run of digits meaning seconds. Python's `$` also matches just before a
 * final newline, which the model keeps.
 */
module AddDelay {
  import opened Wrappers
  import opened Text

  const SecondsPerDay: nat := 86400
  /** `timedelta` refuses more than this many days (`OverflowError`). */
  const MaxDays: nat := 999999999

  datatype DelayError =
    | BadDuration(text: string)   // BadDurationException
    | DurationOverflow            // OverflowError from timedelta
    | DelaysNotAList              // `.append` on a value that is not a list

  // ---------------------------------------------------------------------
  // The pattern
  // ---------------------------------------------------------------------

  /** The digits captured by the three optional groups of the pattern. */
  datatype Fields = Fields(hours: Option<string>, minutes: Option<string>, seconds: Option<string>)

  predicate ValidPart(p: Option<string>) {
    p.Some? ==> IsDigits(p.value)
  }

  predicate ValidFields(f: Fields) {
    ValidPart(f.hours) && ValidPart(f.minutes) && ValidPart(f.seconds)
  }

  /** The text one optional group matches: its digits followed by its unit. */
  function Part(p: Option<string>, unit: string): string {
    if p.Some? then p.value + unit else ""
  }

  /** Reference definition of the pattern's language: the strings it reads as `f`. */
  function Render(f: Fields): string {
    Part(f.hours, "hr") + Part(f.minutes, "m") + Part(f.seconds, "s")
  }

  function PartValue(p: Option<string>): nat
    requires ValidPart(p)
  {
    if p.Some? then DigitsValue(p.value) else 0
  }

  /** The length `timedelta(hours=h, minutes=m, seconds=s)` stands for. */
  function FieldsSeconds(f: Fields): nat
    requires ValidFields(f)
  {
    3600 * PartValue(f.hours) + 60 * PartValue(f.minutes) + PartValue(f.seconds)
  }

  /** Length of the run of ASCII digits at the front of `s`. */
  function DigitRun(s: string): (n: nat)
    ensures n <= |s|
    ensures forall i :: 0 <= i < n ==> IsDigitChar(s[i])
    ensures n < |s| ==> !IsDigitChar(s[n])
    decreases |s|
  {
    if |s| == 0 || !IsDigitChar(s[0]) then 0 else 1 + DigitRun(s[1..])
  }

  /**
   * One optional group `((\d+?)unit)?` at the front of `s`: the captured
   * digits and what follows, or no capture and `s` untouched.
   */
  function TakeUnit(s: string, unit: string): (r: (Option<string>, string))
    ensures r.0.Some? ==> IsDigits(r.0.value) && s == r.0.value + unit + r.1
    ensures r.0.None? ==> r.1 == s
  {
    var n := DigitRun(s);
    if n > 0 && unit <= s[n..] then
      assert s == s[..n] + unit + s[n + |unit|..];
      (Some(s[..n]), s[n + |unit|..])
    else (None, s)
  }

  lemma TakenPart(s: string, unit: string)
    ensures s == Part(TakeUnit(s, unit).0, unit) + TakeUnit(s, unit).1
  {
  }

  /**
   * The three groups, each tried in turn, and then the end of the text. The
   * group boundaries are forced (every group ends with a letter), so no
   * backtracking changes the outcome.
   */
  function MatchBody(body: string): (r: Option<Fields>)
    ensures r.Some? ==> ValidFields(r.value) && Render(r.value) == body
  {
    var (h, r1) := TakeUnit(body, "hr");
    var (m, r2) := TakeUnit(r1, "m");
    var (sec, r3) := TakeUnit(r2, "s");
    TakenPart(body, "hr");
    TakenPart(r1, "m");
    TakenPart(r2, "s");
    if r3 == "" then
      MatchedParts(body, h, m, sec, r1, r2);
      Some(Fields(h, m, sec))
    else None
  }

  lemma MatchedParts(body: string, h: Option<string>, m: Option<string>, sec: Option<string>, r1: string, r2: string)
    requires body == Part(h, "hr") + r1 && r1 == Part(m, "m") + r2 && r2 == Part(sec, "s")
    ensures body == Render(Fields(h, m, sec))
  {
    SeqAssoc(Part(h, "hr"), Part(m, "m"), Part(sec, "s"));
  }

  /** `time_parse_regex.match(s)`: `$` also accepts one final newline. */
  function MatchPattern(s: string): Option<Fields> {
    if |s| > 0 && s[|s| - 1] == '\n' then MatchBody(s[..|s| - 1]) else MatchBody(s)
  }

  /**
   * `parse_duration`, as a number of seconds: the pattern's groups summed,
   * else a bare run of digits, else `BadDurationException`; `timedelta`
   * overflows past `MaxDays` days.
   */
  function ParseDuration(s: string): (r: Result<nat, DelayError>)
    ensures r.Failure? ==> r.error == BadDuration(s) || r.error == DurationOverflow
    ensures r.Success? ==> r.value / SecondsPerDay <= MaxDays
  {
    var total :- match MatchPattern(s)
                 case Some(f) => Success(FieldsSeconds(f))
                 case None =>
                   if IsDigits(s) then Success(DigitsValue(s)) else Failure(BadDuration(s));
    if total / SecondsPerDay > MaxDays then Failure(DurationOverflow) else Success(total)
  }

  /** The strings the pattern accepts, with or without the final newline. */
  ghost predicate PatternAccepts(s: string, f: Fields) {
    ValidFields(f) && (s == Render(f) || s == Render(f) + "\n")
  }

  // ---------------------------------------------------------------------
  // The pattern matches exactly the rendered strings
  // ---------------------------------------------------------------------

  lemma {:induction false} DigitRunOf(d: string, t: string)
    requires forall i :: 0 <= i < |d| ==> IsDigitChar(d[i])
    requires |t| == 0 || !IsDigitChar(t[0])
    ensures DigitRun(d + t) == |d|
    decreases |d|
  {
    if |d| > 0 {
      assert (d + t)[0] == d[0];
      assert (d + t)[1..] == d[1..] + t;
      DigitRunOf(d[1..], t);
    } else {
      assert d + t == t;
    }
  }

  /** No group with this unit starts at the front of `s`. */
  predicate NoGroupAt(s: string, unit: string) {
    var n := DigitRun(s);
    !(n > 0 && unit <= s[n..])
  }

  /** A group with another unit blocks a group with this one. */
  lemma OtherGroupBlocks(d: string, other: string, t: string, unit: string)
    requires IsDigits(d) && |other| > 0 && |unit| > 0
    requires !IsDigitChar(other[0]) && other[0] != unit[0]
    ensures NoGroupAt(d + other + t, unit)
  {
    var s := d + other + t;
    DigitRunOf(d, other + t);
    assert s[|d|..] == other + t;
    assert s[|d|..][0] == other[0];
  }

  /** A group whose unit follows the digits captures them. */
  lemma TakeUnitPresent(d: string, unit: string, t: string)
    requires IsDigits(d) && |unit| > 0 && !IsDigitChar(unit[0])
    ensures TakeUnit(d + unit + t, unit) == (Some(d), t)
  {
    var s := d + unit + t;
    DigitRunOf(d, unit + t);
    assert s[|d|..] == unit + t;
    assert s[..|d|] == d;
    assert s[|d| + |unit|..] == t;
  }

  lemma TakePart(p: Option<string>, unit: string, rest: string)
    requires ValidPart(p) && |unit| > 0 && !IsDigitChar(unit[0])
    requires NoGroupAt(rest, unit)
    ensures TakeUnit(Part(p, unit) + rest, unit) == (p, rest)
  {
    if p.Some? {
      TakeUnitPresent(p.value, unit, rest);
    } else {
      assert Part(p, unit) + rest == rest;
    }
  }

  /** The text after a group: the later groups, which block a group with this unit. */
  lemma LaterPartsBlock(p: Option<string>, pUnit: string, rest: string, unit: string)
    requires ValidPart(p) && |pUnit| > 0 && |unit| > 0
    requires !IsDigitChar(pUnit[0]) && pUnit[0] != unit[0]
    requires NoGroupAt(rest, unit)
    ensures NoGroupAt(Part(p, pUnit) + rest, unit)
  {
    if p.Some? {
      assert Part(p, pUnit) + rest == p.value + pUnit + rest;
      OtherGroupBlocks(p.value, pUnit, rest, unit);
    } else {
      assert Part(p, pUnit) + rest == rest;
    }
  }

  /** Every rendering of valid fields is matched, with those fields. */
  lemma {:induction false} MatchBodyRender(f: Fields)
    requires ValidFields(f)
    ensures MatchBody(Render(f)) == Some(f)
  {
    var hs := Part(f.hours, "hr");
    var ms := Part(f.minutes, "m");
    var ss := Part(f.seconds, "s");
    assert NoGroupAt("", "s") && NoGroupAt("", "m") && NoGroupAt("", "hr");
    TakePart(f.seconds, "s", "");
    assert ss + "" == ss;
    LaterPartsBlock(f.seconds, "s", "", "m");
    LaterPartsBlock(f.seconds, "s", "", "hr");
    TakePart(f.minutes, "m", ss);
    LaterPartsBlock(f.minutes, "m", ss, "hr");
    TakePart(f.hours, "hr", ms + ss);
    assert TakeUnit(hs + (ms + ss), "hr") == (f.hours, ms + ss);
    assert TakeUnit(ms + ss, "m") == (f.minutes, ss);
    assert TakeUnit(ss, "s") == (f.seconds, "");
    assert Render(f) == hs + ms + ss;
    SeqAssoc(hs, ms, ss);
  }

  lemma SeqAssoc(a: string, b: string, c: string)
    ensures a + b + c == a + (b + c)
  {
  }

  /** What the pattern reads, it reads from a rendering, with at most a final newline added. */
  lemma MatchPatternSound(s: string, f: Fields)
    requires MatchPattern(s) == Some(f)
    ensures PatternAccepts(s, f)
  {
    if |s| > 0 && s[|s| - 1] == '\n' {
      var body := s[..|s| - 1];
      assert MatchBody(body) == Some(f);
      assert Render(f) == body;
      assert s == body + "\n";
    } else {
      assert MatchBody(s) == Some(f);
    }
  }

  /** Every rendering, with or without a final newline, is read back as its fields. */
  lemma MatchPatternComplete(s: string, f: Fields)
    requires PatternAccepts(s, f)
    ensures MatchPattern(s) == Some(f)
  {
    MatchBodyRender(f);
    if s == Render(f) + "\n" {
      assert s[..|s| - 1] == Render(f);
    } else {
      RenderEndsInLetter(f);
    }
  }

  /** The pattern's language is exactly the renderings, each with an optional final newline. */
  lemma MatchPatternExact(s: string, f: Fields)
    ensures MatchPattern(s) == Some(f) <==> PatternAccepts(s, f)
  {
    if PatternAccepts(s, f) {
      MatchPatternComplete(s, f);
    }
    if MatchPattern(s) == Some(f) {
      MatchPatternSound(s, f);
    }
  }

  /** A rendering is empty or ends with a unit letter, never with a newline. */
  lemma RenderEndsInLetter(f: Fields)
    ensures |Render(f)| == 0 || Render(f)[|Render(f)| - 1] in "rms"
  {
  }

  /** Matched text is empty or ends with a unit letter or the final newline. */
  lemma MatchedEnding(s: string)
    ensures MatchPattern(s).Some? ==> |s| == 0 || s[|s| - 1] in "rms\n"
  {
    if MatchPattern(s).Some? {
      var f := MatchPattern(s).value;
      MatchPatternExact(s, f);
      RenderEndsInLetter(f);
    }
  }

  /** A bare run of digits is never a rendering: every group needs its unit. */
  lemma DigitsAreNotRendered(s: string)
    requires IsDigits(s)
    ensures MatchPattern(s).None?
  {
    MatchedEnding(s);
    assert IsDigitChar(s[|s| - 1]);
  }

  // ---------------------------------------------------------------------
  // What parse_duration returns
  // ---------------------------------------------------------------------

  /** Units in the fixed order hr, m, s give hours·3600 + minutes·60 + seconds. */
  lemma ParseRendered(s: string, f: Fields)
    requires PatternAccepts(s, f) && FieldsSeconds(f) / SecondsPerDay <= MaxDays
    ensures ParseDuration(s) == Success(FieldsSeconds(f))
  {
    MatchPatternExact(s, f);
  }

  /** A string of digits alone is that many seconds. */
  lemma ParseDigits(s: string)
    requires IsDigits(s) && DigitsValue(s) / SecondsPerDay <= MaxDays
    ensures ParseDuration(s) == Success(DigitsValue(s))
  {
    DigitsAreNotRendered(s);
  }

  /** Everything else is a bad duration. */
  lemma ParseRejects(s: string)
    requires !IsDigits(s) && forall f :: !PatternAccepts(s, f)
    ensures ParseDuration(s) == Failure(BadDuration(s))
  {
    if MatchPattern(s).Some? {
      MatchPatternExact(s, MatchPattern(s).value);
    }
  }

  /** The duration parsed is one of the two readings, and conversely. */
  lemma ParseAccepts(s: string)
    ensures ParseDuration(s).Success? ==>
              (exists f :: PatternAccepts(s, f) && ParseDuration(s).value == FieldsSeconds(f))
              || (IsDigits(s) && ParseDuration(s).value == DigitsValue(s))
    ensures ParseDuration(s).Failure? && ParseDuration(s).error == BadDuration(s) ==>
              !IsDigits(s) && forall f :: !PatternAccepts(s, f)
  {
    match MatchPattern(s)
    case Some(f) =>
      MatchPatternExact(s, f);
      assert PatternAccepts(s, f);
    case None =>
      forall f
        ensures !PatternAccepts(s, f)
      {
        MatchPatternExact(s, f);
      }
  }

  // The examples of the test-suite, and a few more.

  lemma ParseOneMinuteExample()
    ensures ParseDuration("1m") == Success(60)
  {
    assert DigitsValue("1") == 1;
    assert Render(Fields(None, Some("1"), None)) == "1m";
    ParseRendered("1m", Fields(None, Some("1"), None));
  }

  lemma ParseOneSecondExample()
    ensures ParseDuration("1s") == Success(1)
  {
    assert DigitsValue("1") == 1;
    assert Render(Fields(None, None, Some("1"))) == "1s";
    ParseRendered("1s", Fields(None, None, Some("1")));
  }

  lemma ParseFortyTwoSecondsExample()
    ensures ParseDuration("42s") == Success(42)
  {
    assert "42"[..1] == "4";
    assert DigitsValue("42") == 42;
    assert Render(Fields(None, None, Some("42"))) == "42s";
    ParseRendered("42s", Fields(None, None, Some("42")));
  }

  lemma ParseOneHourExample()
    ensures ParseDuration("1hr") == Success(3600)
  {
    assert DigitsValue("1") == 1;
    assert Render(Fields(Some("1"), None, None)) == "1hr";
    ParseRendered("1hr", Fields(Some("1"), None, None));
  }

  lemma ParseTwentyFiveHoursExample()
    ensures ParseDuration("25hr") == Success(90000)
  {
    assert "25"[..1] == "2";
    assert DigitsValue("25") == 25;
    assert Render(Fields(Some("25"), None, None)) == "25hr";
    var f := Fields(Some("25"), None, None);
    assert FieldsSeconds(f) == 90000;
    ParseRendered("25hr", f);
  }

  lemma ParseAllUnitsExample()
    ensures ParseDuration("1hr30m5s") == Success(5405)
  {
    assert "30"[..1] == "3";
    assert DigitsValue("1") == 1 && DigitsValue("30") == 30 && DigitsValue("5") == 5;
    var f := Fields(Some("1"), Some("30"), Some("5"));
    assert FieldsSeconds(f) == 5405;
    assert Part(f.hours, "hr") == "1hr" && Part(f.minutes, "m") == "30m" && Part(f.seconds, "s") == "5s";
    assert Render(f) == "1hr30m5s";
    ParseRendered("1hr30m5s", Fields(Some("1"), Some("30"), Some("5")));
  }

  lemma ParseEmptyExample()
    ensures ParseDuration("") == Success(0)
  {
    assert Render(Fields(None, None, None)) == "";
    ParseRendered("", Fields(None, None, None));
  }

  lemma ParseTrailingNewlineExample()
    ensures ParseDuration("2m\n") == Success(120)
  {
    assert DigitsValue("2") == 2;
    assert Render(Fields(None, Some("2"), None)) + "\n" == "2m\n";
    ParseRendered("2m\n", Fields(None, Some("2"), None));
  }

  lemma ParseBareSecondsExample()
    ensures ParseDuration("42") == Success(42)
  {
    assert "42"[..1] == "4";
    assert DigitsValue("42") == 42;
    ParseDigits("42");
  }

  /** The rejected examples of the test-suite. */
  lemma ParseBadExamples()
    ensures ParseDuration("nope") == Failure(BadDuration("nope"))
    ensures ParseDuration("now") == Failure(BadDuration("now"))
    ensures ParseDuration("5dd") == Failure(BadDuration("5dd"))
  {
    assert DigitRun("nope") == 0 && DigitRun("now") == 0;
    assert DigitRun("dd") == 0 && DigitRun("5dd") == 1;
    assert !IsDigitChar("nope"[0]) && !IsDigitChar("now"[0]) && !IsDigitChar("5dd"[1]);
  }

  // ---------------------------------------------------------------------
  // add_delay and command
  // ---------------------------------------------------------------------

  /** A timezone-aware datetime: seconds since the epoch and microseconds. */
  datatype Moment = Moment(epochSeconds: int, micros: nat)

  /** One `{'delay': seconds, 'time': when}` entry. */
  datatype Delay = Delay(delay: int, time: Moment)

  /** The value stored under a key of `schedule.yaml`, as far as `add_delay` cares. */
  datatype YamlValue =
    | Null
    | DelayList(entries: seq<Delay>)
    | Other(truthy: bool)

  predicate Truthy(v: YamlValue) {
    match v
    case Null => false
    case DelayList(entries) => |entries| > 0
    case Other(truthy) => truthy
  }

  /** The delays already listed: none when the key is missing or its value false. */
  function ExistingDelays(schedule: map<string, YamlValue>): seq<Delay> {
    if "delays" in schedule && schedule["delays"].DelayList? then schedule["delays"].entries else []
  }

  /** The schedule holds a true value under `delays` that is not a list of delays. */
  predicate DelaysNotList(schedule: map<string, YamlValue>) {
    "delays" in schedule && schedule["delays"].Other? && schedule["delays"].truthy
  }

  /**
   * `add_delay`: appends one entry to `schedule['delays']`, first replacing
   * a missing or false value by an empty list.
   */
  function AddDelayEntry(schedule: map<string, YamlValue>, delaySeconds: int, when: Moment)
    : (r: Result<map<string, YamlValue>, DelayError>)
    ensures r.Failure? <==> DelaysNotList(schedule)
    ensures r.Failure? ==> r.error == DelaysNotAList
    ensures r.Success? ==> && r.value.Keys == schedule.Keys + {"delays"}
                           && r.value["delays"].DelayList?
                           && |r.value["delays"].entries| == |ExistingDelays(schedule)| + 1
                           && r.value["delays"].entries[..|ExistingDelays(schedule)|] == ExistingDelays(schedule)
                           && r.value["delays"].entries[|ExistingDelays(schedule)|] == Delay(delaySeconds, when)
    ensures r.Success? ==> forall k :: k in schedule && k != "delays" ==> r.value[k] == schedule[k]
  {
    var current := if "delays" in schedule then schedule["delays"] else Null;
    var entries :- if !Truthy(current) then Success([])
                   else if current.DelayList? then Success(current.entries)
                   else Failure(DelaysNotAList);
    Success(schedule["delays" := DelayList(entries + [Delay(delaySeconds, when)])])
  }

  /** Two delays added one after the other are listed in that order. */
  lemma AddTwoDelays(schedule: map<string, YamlValue>, d1: int, w1: Moment, d2: int, w2: Moment)
    requires AddDelayEntry(schedule, d1, w1).Success?
    ensures AddDelayEntry(AddDelayEntry(schedule, d1, w1).value, d2, w2).Success?
    ensures ExistingDelays(AddDelayEntry(AddDelayEntry(schedule, d1, w1).value, d2, w2).value)
            == ExistingDelays(schedule) + [Delay(d1, w1), Delay(d2, w2)]
  {
    var once := AddDelayEntry(schedule, d1, w1).value;
    var e := ExistingDelays(schedule);
    assert once["delays"].entries == e + [Delay(d1, w1)];
  }

  /** `timedelta.seconds`: the seconds within the last day of the duration. */
  function WithinDay(total: nat): (r: nat)
    ensures r < SecondsPerDay
    ensures exists days: nat :: total == days * SecondsPerDay + r
  {
    var r := total % SecondsPerDay;
    assert total == (total / SecondsPerDay) * SecondsPerDay + r;
    r
  }

  /**
   * `command`: parses the duration, keeps its within-day seconds, drops the
   * microseconds of `when` and adds the delay. Reading `when` from text is
   * not modelled; the parsed moment is a parameter.
   */
  function Command(schedule: map<string, YamlValue>, howLong: string, when: Moment)
    : (r: Result<map<string, YamlValue>, DelayError>)
    ensures ParseDuration(howLong).Failure? ==> r == Failure(ParseDuration(howLong).error)
    ensures r.Failure? <==> ParseDuration(howLong).Failure? || DelaysNotList(schedule)
    ensures r.Success? ==>
              && ExistingDelays(r.value)
                   == ExistingDelays(schedule) + [Delay(WithinDay(ParseDuration(howLong).value), Moment(when.epochSeconds, 0))]
              && r.value.Keys == schedule.Keys + {"delays"}
              && forall k :: k in schedule && k != "delays" ==> r.value[k] == schedule[k]
  {
    var total :- ParseDuration(howLong);
    var r := AddDelayEntry(schedule, WithinDay(total), when.(micros := 0));
    if r.Success? then
      AppendedDelay(schedule, r.value, Delay(WithinDay(total), when.(micros := 0)));
      r
    else r
  }

  /** A delay of a day or more is recorded as its remainder within a day. */
  lemma CommandDropsWholeDays(schedule: map<string, YamlValue>, when: Moment)
    ensures Command(schedule, "25hr", when) ==
              AddDelayEntry(schedule, 3600, Moment(when.epochSeconds, 0))
  {
    ParseTwentyFiveHoursExample();
    assert WithinDay(90000) == 3600;
  }

  lemma CommandWholeDayIsNoDelay(schedule: map<string, YamlValue>, when: Moment)
    ensures Command(schedule, "86400", when) ==
              AddDelayEntry(schedule, 0, Moment(when.epochSeconds, 0))
  {
    assert "8640"[..3] == "864" && "864"[..2] == "86" && "86"[..1] == "8";
    assert "86400"[..4] == "8640";
    assert DigitsValue("86400") == 86400;
    ParseDigits("86400");
    assert WithinDay(86400) == 0;
  }

  /**
   * `command` as its help text describes it: the delay recorded is the
   * whole parsed duration, days included (`how_long.total_seconds()`).
   */
  function CommandIntended(schedule: map<string, YamlValue>, howLong: string, when: Moment)
    : (r: Result<map<string, YamlValue>, DelayError>)
    ensures ParseDuration(howLong).Failure? ==> r == Failure(ParseDuration(howLong).error)
    ensures r.Failure? <==> ParseDuration(howLong).Failure? || DelaysNotList(schedule)
    ensures r.Success? ==>
              && ExistingDelays(r.value)
                   == ExistingDelays(schedule) + [Delay(ParseDuration(howLong).value, Moment(when.epochSeconds, 0))]
              && r.value.Keys == schedule.Keys + {"delays"}
              && forall k :: k in schedule && k != "delays" ==> r.value[k] == schedule[k]
  {
    var total :- ParseDuration(howLong);
    var r := AddDelayEntry(schedule, total, when.(micros := 0));
    if r.Success? then
      AppendedDelay(schedule, r.value, Delay(total, when.(micros := 0)));
      r
    else r
  }

  lemma AppendedDelay(schedule: map<string, YamlValue>, after: map<string, YamlValue>, d: Delay)
    requires AddDelayEntry(schedule, d.delay, d.time) == Success(after)
    ensures ExistingDelays(after) == ExistingDelays(schedule) + [d]
  {
    var e := ExistingDelays(schedule);
    var entries := after["delays"].entries;
    assert entries == entries[..|e|] + [entries[|e|]];
  }

  /** The intended command records a 25-hour delay as 25 hours. */
  lemma CommandIntendedKeepsWholeDays(schedule: map<string, YamlValue>, when: Moment)
    requires AddDelayEntry(schedule, 90000, Moment(when.epochSeconds, 0)).Success?
    ensures CommandIntended(schedule, "25hr", when).Success?
    ensures ExistingDelays(CommandIntended(schedule, "25hr", when).value)
              == ExistingDelays(schedule) + [Delay(90000, Moment(when.epochSeconds, 0))]
  {
    ParseTwentyFiveHoursExample();
  }

  /** Below a day the command as written and as intended record the same delay. */
  lemma CommandAgreesWithinDay(schedule: map<string, YamlValue>, howLong: string, when: Moment)
    requires ParseDuration(howLong).Success? && ParseDuration(howLong).value < SecondsPerDay
    ensures Command(schedule, howLong, when) == CommandIntended(schedule, howLong, when)
  {
    var total := ParseDuration(howLong).value;
    assert WithinDay(total) == total;
    CommandsAddEntry(schedule, howLong, when);
  }

  /** Both versions of `command` add the entry `add_delay` builds, differing only in the delay. */
  lemma CommandsAddEntry(schedule: map<string, YamlValue>, howLong: string, when: Moment)
    requires ParseDuration(howLong).Success?
    ensures var total := ParseDuration(howLong).value;
      && Command(schedule, howLong, when) == AddDelayEntry(schedule, WithinDay(total), when.(micros := 0))
      && CommandIntended(schedule, howLong, when) == AddDelayEntry(schedule, total, when.(micros := 0))
  {
  }
}
