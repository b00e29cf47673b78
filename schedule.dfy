/** InSchedule: read the schedule as a stream of YAML parse events and decide whether the lights
    should be on. Every mapping inside the "Events" sequence is one rule; the answer is the OR of
    the rules evaluated at their mapping ends. The time of day (seconds since midnight) and the
    weekday are inputs. */
module Schedule {

  /** The parse events the reader reacts to; every other libyaml event (stream, document,
      sequence or mapping start, alias, no event) is Other. */
  datatype Event = Scalar(value: string) | MappingEnd | SequenceEnd | StreamEnd | ParseError | Other

  /** Which rule field the next scalar fills (in_read: 0 none, 1..5 the keys below). */
  datatype Field = NoField | EventName | StartTime | EndTime | DayOfWeek | Disabled

  /** The four strings a rule is judged by. */
  datatype Rule = Rule(startTime: string, endTime: string, dayOfWeek: string, disabled: string)

  const EMPTY_RULE := Rule("", "", "", "")

  /** Reading until STREAM_END (Finished) or a parse error, which exits the program (Failed). */
  datatype Phase = Reading | Finished | Failed

  /** The reader's state. `stream` is the text still unread in the one parse_time stringstream
      the function shares between all time values. */
  datatype Reader = Reader(inEvents: bool, inRead: Field, eventName: string, rule: Rule,
                           stream: string, inSchedule: bool, phase: Phase)

  const INIT := Reader(false, NoField, "", EMPTY_RULE, "", false, Reading)

  /** tm_wday indexes these two-letter day codes. */
  const DOW: seq<string> := ["Su", "Mo", "Tu", "We", "Th", "Fr", "Sa"]

  /** What InSchedule hands back, or the exit on a parse error. */
  datatype Outcome = Scheduled(on: bool) | ExitFailure

  // ---------------------------------------------------------------- text helpers

  /** getline(stream, field, ':'): the text up to the first colon, which is consumed, or all of
      the text when there is none. */
  function SplitAtColon(s: string): (r: (string, string))
    ensures ':' !in r.0 && |r.0| <= |s| && r.0 == s[..|r.0|]
    ensures |r.0| < |s| ==> s[|r.0|] == ':' && r.1 == s[|r.0| + 1..]
    ensures |r.0| == |s| ==> r.1 == ""
    ensures ':' !in s ==> r.0 == s && r.1 == ""
  {
    if |s| == 0 then ("", "")
    else if s[0] == ':' then ("", s[1..])
    else
      var (f, rest) := SplitAtColon(s[1..]);
      ([s[0]] + f, rest)
  }

  /** isspace in the C locale. */
  predicate IsSpace(c: char) {
    c == ' ' || 9 <= c as int <= 13
  }

  predicate IsDigit(c: char) {
    '0' <= c <= '9'
  }

  function SkipSpace(s: string): (t: string)
    ensures |t| <= |s| && t == s[|s| - |t|..]
    ensures |t| > 0 ==> !IsSpace(t[0])
  {
    if |s| > 0 && IsSpace(s[0]) then SkipSpace(s[1..]) else s
  }

  /** The value of the leading run of decimal digits, accumulated left to right onto acc. */
  function LeadingValue(s: string, acc: nat): (v: nat)
    ensures (|s| == 0 || !IsDigit(s[0])) ==> v == acc
    ensures v >= acc
  {
    if |s| == 0 || !IsDigit(s[0]) then acc
    else LeadingValue(s[1..], acc * 10 + (s[0] as int - '0' as int))
  }

  /** atoi: skip white space, take an optional sign, then the leading digits. */
  function Atoi(s: string): (n: int)
    ensures (forall i :: 0 <= i < |s| ==> !IsDigit(s[i])) ==> n == 0
  {
    var t := SkipSpace(s);
    assert forall i :: 0 <= i < |t| ==> t[i] == s[|s| - |t| + i];
    if |t| > 0 && t[0] == '-' then -(LeadingValue(t[1..], 0) as int)
    else if |t| > 0 && t[0] == '+' then LeadingValue(t[1..], 0)
    else LeadingValue(t, 0)
  }

  /** The text holds at most one colon. */
  predicate AtMostOneColon(s: string) {
    forall i, j :: 0 <= i < j < |s| && s[i] == ':' ==> s[j] != ':'
  }

  /** One time value read through the shared stream: the text is appended after whatever the
      stream still holds, then the hour and the minute are taken with two getline calls. The
      seconds are HH*3600 + MM*60; what follows a second colon stays in the stream. */
  function ReadClock(stream: string, text: string): (int, string)
  {
    var (hr, s1) := SplitAtColon(stream + text);
    var (mn, s2) := SplitAtColon(s1);
    (Atoi(hr) * 3600 + Atoi(mn) * 60, s2)
  }

  /** A time value with at most one colon, read from an empty stream, leaves it empty. */
  lemma OneColonLeavesStreamEmpty(text: string)
    requires AtMostOneColon(text)
    ensures ReadClock("", text).1 == ""
  {
    assert "" + text == text;
    var hr, s1 := SplitAtColon(text).0, SplitAtColon(text).1;
    if |hr| < |text| {
      NoColonAfterTheOnlyOne(text, |hr|);
    }
    ReadClockOf("", text, hr, s1, SplitAtColon(s1).0, SplitAtColon(s1).1);
  }

  lemma NoColonAfterTheOnlyOne(text: string, k: nat)
    requires AtMostOneColon(text) && k < |text| && text[k] == ':'
    ensures ':' !in text[k + 1..]
  {
    forall j | k + 1 <= j < |text| ensures text[j] != ':' {
    }
  }

  /** getline stops at the first colon: the text before it, then everything after it. */
  lemma {:induction false} SplitAtFirstColon(x: string, y: string)
    requires ':' !in x
    ensures SplitAtColon(x + ":" + y) == (x, y)
  {
    if |x| > 0 {
      assert (x + ":" + y)[1..] == x[1..] + ":" + y;
      SplitAtFirstColon(x[1..], y);
      assert x == [x[0]] + x[1..];
    }
  }

  /** find(needle) != npos. */
  predicate Contains(hay: string, needle: string) {
    exists i :: 0 <= i <= |hay| && needle <= hay[i..]
  }

  // ---------------------------------------------------------------- one rule

  /** One rule at a mapping end: OFF to begin with, ON once a start time is present and reached,
      then OFF again if the end time is reached, today's code is missing from a non-empty
      day_of_week, or disabled is "true". Also returns what the shared stream holds after. */
  function EvaluateRule(rule: Rule, stream: string, secs: int, wday: nat): (r: (bool, string))
    requires wday < 7
    ensures rule.startTime == "" ==> !r.0
    ensures rule.disabled == "true" ==> !r.0
    ensures rule.dayOfWeek != "" && !Contains(rule.dayOfWeek, DOW[wday]) ==> !r.0
    ensures rule.startTime == "" && rule.endTime == "" ==> r.1 == stream
  {
    var (startSecs, afterStart) := if rule.startTime != "" then ReadClock(stream, rule.startTime) else (0, stream);
    var on1 := rule.startTime != "" && secs >= startSecs;
    var (endSecs, afterEnd) := if rule.endTime != "" then ReadClock(afterStart, rule.endTime) else (0, afterStart);
    var on2 := if rule.endTime != "" && secs >= endSecs then false else on1;
    var on3 := if rule.dayOfWeek != "" && !Contains(rule.dayOfWeek, DOW[wday]) then false else on2;
    var on4 := if rule.disabled == "true" then false else on3;
    (on4, afterEnd)
  }

  /** The stream after the start time of a rule is read (the stream the end time is read from). */
  function StreamAfterStart(rule: Rule, stream: string): string {
    if rule.startTime != "" then ReadClock(stream, rule.startTime).1 else stream
  }

  /** A rule is ON exactly when all four conditions hold together. */
  lemma RuleOnIff(rule: Rule, stream: string, secs: int, wday: nat)
    requires wday < 7
    ensures EvaluateRule(rule, stream, secs, wday).0 <==>
      && rule.startTime != "" && secs >= ReadClock(stream, rule.startTime).0
      && (rule.endTime == "" || secs < ReadClock(StreamAfterStart(rule, stream), rule.endTime).0)
      && (rule.dayOfWeek == "" || Contains(rule.dayOfWeek, DOW[wday]))
      && rule.disabled != "true"
  {
  }

  /** A rule whose start is not before its end is never ON, at any time of day. */
  lemma StartNotBeforeEndNeverOn(rule: Rule, stream: string, secs: int, wday: nat)
    requires wday < 7 && rule.startTime != "" && rule.endTime != ""
    requires ReadClock(stream, rule.startTime).0 >= ReadClock(StreamAfterStart(rule, stream), rule.endTime).0
    ensures !EvaluateRule(rule, stream, secs, wday).0
  {
    RuleOnIff(rule, stream, secs, wday);
  }

  // ---------------------------------------------------------------- well-formed times

  function DigitChar(d: nat): char
    requires d < 10
  {
    ('0' as int + d) as char
  }

  /** The two-digit spelling HH or MM of n < 100. */
  function TwoDigits(n: nat): (s: string)
    requires n < 100
    ensures |s| == 2 && IsDigit(s[0]) && IsDigit(s[1])
  {
    [DigitChar(n / 10), DigitChar(n % 10)]
  }

  lemma AtoiTwoDigits(n: nat)
    requires n < 100
    ensures Atoi(TwoDigits(n)) == n
  {
    var s := TwoDigits(n);
    var hi, lo := n / 10, n % 10;
    assert s[0] as int - '0' as int == hi && s[1] as int - '0' as int == lo;
    assert SkipSpace(s) == s;
    assert s[1..][1..] == [];
    assert LeadingValue(s[1..][1..], hi * 10 + lo) == n;
    assert LeadingValue(s[1..], hi) == n;
    assert LeadingValue(s, 0) == n;
  }

  /** A time written HH:MM is read as HH*3600 + MM*60, and the stream is left empty. */
  lemma ReadClockWellFormed(h: nat, m: nat)
    requires h < 100 && m < 100
    ensures ReadClock("", TwoDigits(h) + ":" + TwoDigits(m)).0 == h * 3600 + m * 60
    ensures ReadClock("", TwoDigits(h) + ":" + TwoDigits(m)).1 == ""
  {
    var hh, mm := TwoDigits(h), TwoDigits(m);
    assert "" + (hh + ":" + mm) == hh + ":" + mm;
    SplitAtFirstColon(hh, mm);
    assert ':' !in mm;
    ReadClockOf("", hh + ":" + mm, hh, mm, mm, "");
    AtoiTwoDigits(h);
    AtoiTwoDigits(m);
  }

  /** ReadClock read through the two getline results. */
  lemma ReadClockOf(stream: string, text: string, hr: string, s1: string, mn: string, rest: string)
    requires SplitAtColon(stream + text).0 == hr && SplitAtColon(stream + text).1 == s1
    requires SplitAtColon(s1).0 == mn && SplitAtColon(s1).1 == rest
    ensures ReadClock(stream, text).0 == Atoi(hr) * 3600 + Atoi(mn) * 60
    ensures ReadClock(stream, text).1 == rest
  {
  }

  /** For rules written with HH:MM times over an empty stream the rule is ON exactly in the
      half-open window [start, end) on a listed day, and the stream stays empty. */
  lemma WellFormedRuleWindow(h1: nat, m1: nat, h2: nat, m2: nat, days: string, disabled: string, secs: int, wday: nat)
    requires h1 < 100 && m1 < 100 && h2 < 100 && m2 < 100 && wday < 7
    ensures var rule := Rule(TwoDigits(h1) + ":" + TwoDigits(m1), TwoDigits(h2) + ":" + TwoDigits(m2), days, disabled);
      var r := EvaluateRule(rule, "", secs, wday);
      && r.1 == ""
      && (r.0 <==> h1 * 3600 + m1 * 60 <= secs < h2 * 3600 + m2 * 60
                   && (days == "" || Contains(days, DOW[wday])) && disabled != "true")
  {
    ReadClockWellFormed(h1, m1);
    ReadClockWellFormed(h2, m2);
  }

  /** The sample rule "18:00" to "22:00" is ON at 18:00 and off from 22:00. */
  lemma EveningWindow()
    ensures EvaluateRule(Rule("18:00", "22:00", "", ""), "", 18 * 3600, 1).0
    ensures !EvaluateRule(Rule("18:00", "22:00", "", ""), "", 22 * 3600, 1).0
    ensures !EvaluateRule(Rule("18:00", "22:00", "", ""), "", 18 * 3600 - 1, 1).0
  {
    assert TwoDigits(18) + ":" + TwoDigits(0) == "18:00";
    assert TwoDigits(22) + ":" + TwoDigits(0) == "22:00";
    WellFormedRuleWindow(18, 0, 22, 0, "", "", 18 * 3600, 1);
    WellFormedRuleWindow(18, 0, 22, 0, "", "", 22 * 3600, 1);
    WellFormedRuleWindow(18, 0, 22, 0, "", "", 18 * 3600 - 1, 1);
  }

  /** A time value with seconds leaves them in the shared stream. */
  lemma SecondsStayInStream()
    ensures ReadClock("", "18:00:30").0 == 18 * 3600 && ReadClock("", "18:00:30").1 == "30"
  {
    SecondsSplit();
    ReadClockOf("", "18:00:30", "18", "00:30", "00", "30");
    assert TwoDigits(18) == "18" && TwoDigits(0) == "00";
    AtoiTwoDigits(18);
    AtoiTwoDigits(0);
  }

  lemma SecondsSplit()
    ensures SplitAtColon("" + "18:00:30").0 == "18" && SplitAtColon("" + "18:00:30").1 == "00:30"
    ensures SplitAtColon("00:30").0 == "00" && SplitAtColon("00:30").1 == "30"
  {
    assert "" + "18:00:30" == "18" + ":" + "00:30";
    SplitAtFirstColon("18", "00:30");
    assert "00:30" == "00" + ":" + "30";
    SplitAtFirstColon("00", "30");
  }

  /** The left-over seconds are glued in front of the next time value: "30" then "22:00" reads
      as 3022 hours. */
  lemma LeftoverPrefixesNextTime()
    ensures ReadClock("30", "22:00").0 == 3022 * 3600 && ReadClock("30", "22:00").1 == ""
  {
    GluedSplit();
    assert TwoDigits(0) == "00";
    AtoiTwoDigits(0);
    AtoiOfDigits3022();
    ReadClockOf("30", "22:00", "3022", "00", "00", "");
  }

  lemma GluedSplit()
    ensures SplitAtColon("30" + "22:00").0 == "3022" && SplitAtColon("30" + "22:00").1 == "00"
    ensures SplitAtColon("00").0 == "00" && SplitAtColon("00").1 == ""
  {
    assert "30" + "22:00" == "3022" + ":" + "00";
    SplitAtFirstColon("3022", "00");
    assert ':' !in "00";
  }

  lemma AtoiOfDigits3022()
    ensures Atoi("3022") == 3022
  {
    assert SkipSpace("3022") == "3022";
    assert LeadingValue("3022", 0) == LeadingValue("022", 3) == LeadingValue("22", 30);
    assert LeadingValue("22", 30) == LeadingValue("2", 302) == LeadingValue("", 3022);
  }

  /** So a rule written "18:00:30" to "22:00" is still ON at 23:00: the end time becomes 3022
      hours. */
  lemma SecondsLeakIntoEndTime()
    ensures EvaluateRule(Rule("18:00:30", "22:00", "", ""), "", 23 * 3600, 1).0
  {
    SecondsStayInStream();
    LeftoverPrefixesNextTime();
  }

  // ---------------------------------------------------------------- the event machine

  /** The key scalars that select the field the next scalar fills. */
  function KeyField(v: string): (f: Field)
    ensures f == NoField <==> v !in {"event_name", "start_time", "end_time", "day_of_week", "disabled"}
  {
    if v == "event_name" then EventName
    else if v == "start_time" then StartTime
    else if v == "end_time" then EndTime
    else if v == "day_of_week" then DayOfWeek
    else if v == "disabled" then Disabled
    else NoField
  }

  /** Store a value scalar in the field selected by in_read. */
  function Store(rd: Reader, v: string): Reader {
    match rd.inRead
    case NoField => rd
    case EventName => rd.(eventName := v)
    case StartTime => rd.(rule := rd.rule.(startTime := v))
    case EndTime => rd.(rule := rd.rule.(endTime := v))
    case DayOfWeek => rd.(rule := rd.rule.(dayOfWeek := v))
    case Disabled => rd.(rule := rd.rule.(disabled := v))
  }

  /** One pass of the do-while over parse events. */
  function Step(rd: Reader, ev: Event, secs: int, wday: nat): (r: Reader)
    requires wday < 7
    ensures rd.phase != Reading ==> r == rd
    ensures rd.inSchedule ==> r.inSchedule
    ensures rd.phase == Reading && ev == MappingEnd ==> r.rule == EMPTY_RULE
    ensures rd.phase == Reading && ev == SequenceEnd ==> !r.inEvents
    ensures rd.phase == Reading && ev == Scalar("Events") ==> r.inEvents
  {
    if rd.phase != Reading then rd
    else match ev
      case ParseError => rd.(phase := Failed)
      case StreamEnd => rd.(phase := Finished)
      case SequenceEnd => rd.(inEvents := false)
      case Other => rd
      case MappingEnd =>
        var (on, rest) := if rd.inEvents then EvaluateRule(rd.rule, rd.stream, secs, wday) else (false, rd.stream);
        rd.(inSchedule := rd.inSchedule || on, stream := rest, rule := EMPTY_RULE)
      case Scalar(v) =>
        var rd1 :=
          if !rd.inEvents then rd
          else if rd.inRead != NoField then Store(rd, v).(inRead := NoField)
          else rd.(inRead := KeyField(v));
        if v == "Events" then rd1.(inEvents := true) else rd1
  }

  /** in_schedule only changes at a mapping end inside the Events section, by OR-ing in the
      rule just collected. */
  lemma StepInSchedule(rd: Reader, ev: Event, secs: int, wday: nat)
    requires wday < 7
    ensures Step(rd, ev, secs, wday).inSchedule <==> rd.inSchedule || FiresOn(rd, ev, secs, wday)
  {
  }

  /** ev is a mapping end that closes an ON rule: the reader is still reading, inside the
      Events section, and the rule it has collected is ON. */
  predicate FiresOn(rd: Reader, ev: Event, secs: int, wday: nat)
    requires wday < 7
  {
    ev == MappingEnd && rd.phase == Reading && rd.inEvents && EvaluateRule(rd.rule, rd.stream, secs, wday).0
  }

  /** What steers the collection of a rule after one event depends only on the same parts of
      the reader before it. */
  lemma StepSameControl(rd1: Reader, rd2: Reader, ev: Event, secs: int, wday: nat)
    requires wday < 7
    requires rd1.inEvents == rd2.inEvents && rd1.inRead == rd2.inRead && rd1.phase == rd2.phase && rd1.rule == rd2.rule
    ensures var r1, r2 := Step(rd1, ev, secs, wday), Step(rd2, ev, secs, wday);
      r1.inEvents == r2.inEvents && r1.inRead == r2.inRead && r1.phase == r2.phase && r1.rule == r2.rule
  {
    match ev
    case Scalar(v) =>
      if rd1.phase == Reading && rd1.inEvents && rd1.inRead != NoField {
        assert Store(rd1, v).rule == Store(rd2, v).rule;
      }
    case _ =>
  }

  /** The reader after a run of events, starting from rd. */
  function RunFrom(rd: Reader, events: seq<Event>, secs: int, wday: nat): (r: Reader)
    requires wday < 7
    ensures rd.inSchedule ==> r.inSchedule
  {
    if |events| == 0 then rd
    else Step(RunFrom(rd, events[..|events| - 1], secs, wday), events[|events| - 1], secs, wday)
  }

  function Run(events: seq<Event>, secs: int, wday: nat): Reader
    requires wday < 7
  {
    RunFrom(INIT, events, secs, wday)
  }

  function OutcomeOf(rd: Reader): Outcome {
    if rd.phase == Failed then ExitFailure else Scheduled(rd.inSchedule)
  }

  lemma {:induction false} RunFromAppend(rd: Reader, a: seq<Event>, b: seq<Event>, secs: int, wday: nat)
    requires wday < 7
    ensures RunFrom(rd, a + b, secs, wday) == RunFrom(RunFrom(rd, a, secs, wday), b, secs, wday)
    decreases |b|
  {
    if |b| == 0 {
      assert a + b == a;
    } else {
      var n := |b| - 1;
      assert (a + b)[..|a + b| - 1] == a + b[..n];
      RunFromAppend(rd, a, b[..n], secs, wday);
    }
  }

  /** Once the reader has stopped, no later event changes anything. */
  lemma {:induction false} RunFromHalted(rd: Reader, events: seq<Event>, secs: int, wday: nat)
    requires wday < 7 && rd.phase != Reading
    ensures RunFrom(rd, events, secs, wday) == rd
    decreases |events|
  {
    if |events| > 0 {
      RunFromHalted(rd, events[..|events| - 1], secs, wday);
    }
  }

  /** The rule closed by the mapping end at position i is ON. */
  predicate RuleFiresAt(events: seq<Event>, i: nat, secs: int, wday: nat)
    requires wday < 7 && i < |events|
  {
    FiresOn(Run(events[..i], secs, wday), events[i], secs, wday)
  }

  /** The schedule is ON exactly when some rule fired at its mapping end. */
  lemma {:induction false} ScheduleIsOrOfRules(events: seq<Event>, secs: int, wday: nat)
    requires wday < 7
    ensures Run(events, secs, wday).inSchedule <==>
      exists i :: 0 <= i < |events| && RuleFiresAt(events, i, secs, wday)
    decreases |events|
  {
    if |events| > 0 {
      var prefix := events[..|events| - 1];
      ScheduleIsOrOfRules(prefix, secs, wday);
      RunInSchedule(events, secs, wday);
      OnOnlyIfFired(events, prefix, secs, wday);
      forall i | 0 <= i < |events| && RuleFiresAt(events, i, secs, wday)
        ensures Run(events, secs, wday).inSchedule
      {
        FiredMeansOn(events, prefix, i, secs, wday);
      }
    }
  }

  /** Induction step, one way: an ON schedule had a rule fire. */
  lemma OnOnlyIfFired(events: seq<Event>, prefix: seq<Event>, secs: int, wday: nat)
    requires wday < 7 && |events| > 0 && prefix == events[..|events| - 1]
    requires Run(prefix, secs, wday).inSchedule ==> exists i :: 0 <= i < |prefix| && RuleFiresAt(prefix, i, secs, wday)
    requires Run(events, secs, wday).inSchedule <==>
      Run(prefix, secs, wday).inSchedule || FiresOn(Run(prefix, secs, wday), events[|prefix|], secs, wday)
    ensures Run(events, secs, wday).inSchedule ==> exists i :: 0 <= i < |events| && RuleFiresAt(events, i, secs, wday)
  {
    var n := |prefix|;
    if Run(prefix, secs, wday).inSchedule {
      var i :| 0 <= i < n && RuleFiresAt(prefix, i, secs, wday);
      FiresInPrefix(events, prefix, i, secs, wday);
    } else if Run(events, secs, wday).inSchedule {
      assert events[..n] == prefix;
      assert RuleFiresAt(events, n, secs, wday);
    }
  }

  /** Induction step, other way: a rule that fired at i leaves the schedule ON. */
  lemma FiredMeansOn(events: seq<Event>, prefix: seq<Event>, i: nat, secs: int, wday: nat)
    requires wday < 7 && |events| > 0 && prefix == events[..|events| - 1] && i < |events|
    requires i < |prefix| && RuleFiresAt(prefix, i, secs, wday) ==> Run(prefix, secs, wday).inSchedule
    requires Run(events, secs, wday).inSchedule <==>
      Run(prefix, secs, wday).inSchedule || FiresOn(Run(prefix, secs, wday), events[|prefix|], secs, wday)
    requires RuleFiresAt(events, i, secs, wday)
    ensures Run(events, secs, wday).inSchedule
  {
    if i < |prefix| {
      FiresInPrefix(events, prefix, i, secs, wday);
    } else {
      assert events[..i] == prefix;
    }
  }

  /** Run takes one more Step for the last event, which turns the schedule ON exactly when it
      closes an ON rule. */
  lemma RunInSchedule(events: seq<Event>, secs: int, wday: nat)
    requires wday < 7 && |events| > 0
    ensures var before := Run(events[..|events| - 1], secs, wday);
      Run(events, secs, wday).inSchedule <==> before.inSchedule || FiresOn(before, events[|events| - 1], secs, wday)
  {
    StepInSchedule(Run(events[..|events| - 1], secs, wday), events[|events| - 1], secs, wday);
  }

  /** Whether a rule fires at i < |prefix| is decided by the prefix. */
  lemma FiresInPrefix(events: seq<Event>, prefix: seq<Event>, i: nat, secs: int, wday: nat)
    requires wday < 7 && i < |prefix| <= |events| && prefix == events[..|prefix|]
    ensures RuleFiresAt(prefix, i, secs, wday) <==> RuleFiresAt(events, i, secs, wday)
  {
    assert prefix[..i] == events[..i];
  }

  /** A document without an "Events" scalar never turns the lights on. */
  lemma {:induction false} NoEventsKeyMeansOff(events: seq<Event>, secs: int, wday: nat)
    requires wday < 7
    requires forall i :: 0 <= i < |events| ==> events[i] != Scalar("Events")
    ensures !Run(events, secs, wday).inEvents && !Run(events, secs, wday).inSchedule
    decreases |events|
  {
    if |events| > 0 {
      NoEventsKeyMeansOff(events[..|events| - 1], secs, wday);
    }
  }

  /** Two readers that agree on everything that steers the collection of a rule keep agreeing:
      the rule being built depends only on the events since the readers last agreed. */
  lemma {:induction false} SameControlSameRule(rd1: Reader, rd2: Reader, events: seq<Event>, secs: int, wday: nat)
    requires wday < 7
    requires rd1.inEvents == rd2.inEvents && rd1.inRead == rd2.inRead && rd1.phase == rd2.phase && rd1.rule == rd2.rule
    ensures var r1, r2 := RunFrom(rd1, events, secs, wday), RunFrom(rd2, events, secs, wday);
      r1.inEvents == r2.inEvents && r1.inRead == r2.inRead && r1.phase == r2.phase && r1.rule == r2.rule
    decreases |events|
  {
    if |events| > 0 {
      var n := |events| - 1;
      SameControlSameRule(rd1, rd2, events[..n], secs, wday);
      StepSameControl(RunFrom(rd1, events[..n], secs, wday), RunFrom(rd2, events[..n], secs, wday), events[n], secs, wday);
    }
  }

  /** No rule inherits another's fields: after a mapping end, the rule collected by the
      following events is the same whatever rules came before, given the same section and key
      state. */
  lemma RulesDoNotInherit(a: seq<Event>, b: seq<Event>, e: seq<Event>, secs: int, wday: nat)
    requires wday < 7
    requires var ra, rb := Run(a, secs, wday), Run(b, secs, wday);
      ra.phase == Reading && rb.phase == Reading && ra.inEvents == rb.inEvents && ra.inRead == rb.inRead
    ensures Run(a + [MappingEnd] + e, secs, wday).rule == Run(b + [MappingEnd] + e, secs, wday).rule
  {
    RunFromAppend(INIT, a, [MappingEnd], secs, wday);
    RunFromAppend(INIT, b, [MappingEnd], secs, wday);
    RunFromAppend(INIT, a + [MappingEnd], e, secs, wday);
    RunFromAppend(INIT, b + [MappingEnd], e, secs, wday);
    SameControlSameRule(Run(a + [MappingEnd], secs, wday), Run(b + [MappingEnd], secs, wday), e, secs, wday);
  }

  /** InSchedule's do-while loop over the parse events. */
  method InSchedule(events: seq<Event>, secs: int, wday: nat) returns (outcome: Outcome)
    requires wday < 7
    ensures outcome == OutcomeOf(Run(events, secs, wday))
  {
    var inEvents := false;
    var inRead := NoField;
    var eventName, startTime, endTime, dayOfWeek, disabled := "", "", "", "", "";
    var parseTime := "";
    var inSchedule := false;
    var phase := Reading;
    var i := 0;
    while i < |events| && phase == Reading
      invariant 0 <= i <= |events|
      invariant Run(events[..i], secs, wday)
        == Reader(inEvents, inRead, eventName, Rule(startTime, endTime, dayOfWeek, disabled), parseTime, inSchedule, phase)
      decreases |events| - i
    {
      match events[i] {
      case ParseError =>
        phase := Failed;
      case StreamEnd =>
        phase := Finished;
      case SequenceEnd =>
        inEvents := false;
      case MappingEnd =>
        if inEvents {
          var verdict := EvaluateRule(Rule(startTime, endTime, dayOfWeek, disabled), parseTime, secs, wday);
          inSchedule := inSchedule || verdict.0;
          parseTime := verdict.1;
        }
        startTime, endTime, dayOfWeek, disabled := "", "", "", "";
      case Scalar(v) =>
        if inEvents {
          if inRead != NoField {
            match inRead {
            case EventName => eventName := v;
            case StartTime => startTime := v;
            case EndTime => endTime := v;
            case DayOfWeek => dayOfWeek := v;
            case Disabled => disabled := v;
            case NoField =>
            }
            inRead := NoField;
          } else {
            if v == "event_name" { inRead := EventName; }
            if v == "start_time" { inRead := StartTime; }
            if v == "end_time" { inRead := EndTime; }
            if v == "day_of_week" { inRead := DayOfWeek; }
            if v == "disabled" { inRead := Disabled; }
          }
        }
        if v == "Events" {
          inEvents := true;
        }
      case Other =>
      }
      assert events[..i + 1][..i] == events[..i];
      i := i + 1;
    }
    if phase != Reading {
      assert events == events[..i] + events[i..];
      RunFromAppend(INIT, events[..i], events[i..], secs, wday);
      RunFromHalted(Run(events[..i], secs, wday), events[i..], secs, wday);
    } else {
      assert events[..i] == events;
    }
    outcome := if phase == Failed then ExitFailure else Scheduled(inSchedule);
  }
}
