/**
 * The schedule setting of src/config.py: a comma-separated list of
 * "HH:MM" times, checked when the settings are built and turned into
 * (hour, minute) pairs for the daily jobs.
 */
module Config {
  import opened Wrappers
  import opened Text
  import opened Decimal

  /** The setting's default value: four daily times. */
  const DefaultScheduleTimes := "08:00,12:00,16:00,20:00"

  /** One schedule entry read as `hour, minute = entry.strip().split(":")`
      followed by `int(hour), int(minute)`: `None` where Python raises. */
  function ParseTime(entry: string): Option<(int, int)> {
    var parts := Split(Strip(entry), ':');
    if |parts| != 2 then None
    else
      match (ParseInt(parts[0]), ParseInt(parts[1]))
      case (Some(h), Some(m)) => Some((h, m))
      case _ => None
  }

  predicate InRange(t: (int, int)) {
    0 <= t.0 < 24 && 0 <= t.1 < 60
  }

  /** An entry the validator lets through. */
  predicate ValidTime(entry: string) {
    ParseTime(entry).Some? && InRange(ParseTime(entry).value)
  }

  /** The validator's only error; it names the offending entry after stripping. */
  datatype ConfigError = InvalidTimeFormat(entry: string)

  /** Entry `i` is the first of `entries` that the validator rejects. */
  ghost predicate FirstInvalidAt(entries: seq<string>, i: int) {
    0 <= i < |entries| && !ValidTime(entries[i]) && forall j :: 0 <= j < i ==> ValidTime(entries[j])
  }

  /** Entry `i` is the first of `entries` that does not read as two integers. */
  ghost predicate FirstUnreadableAt(entries: seq<string>, i: int) {
    0 <= i < |entries| && !Parses(entries[i]) && forall j :: 0 <= j < i ==> Parses(entries[j])
  }

  /** The checking loop of `validate_schedule_times`: the position of the
      first entry that is not two in-range integers, or `None` when there is none. */
  function FirstInvalid(entries: seq<string>): (r: Option<nat>)
    ensures r.None? <==> forall i :: 0 <= i < |entries| ==> ValidTime(entries[i])
    ensures r.Some? ==> FirstInvalidAt(entries, r.value)
  {
    if entries == [] then None
    else if !ValidTime(entries[0]) then Some(0)
    else
      match FirstInvalid(entries[1..])
      case None => None
      case Some(i) => Some(i + 1)
  }

  /** `validate_schedule_times`: the setting is accepted, unchanged, exactly
      when every comma-separated entry is two integers separated by one colon
      with the hour in 0-23 and the minute in 0-59; otherwise the error names
      the first entry that is not. */
  function ValidateScheduleTimes(v: string): (r: Result<string, ConfigError>)
    ensures r.Ok? <==> forall i :: 0 <= i < |Split(v, ',')| ==> ValidTime(Split(v, ',')[i])
    ensures r.Ok? ==> r.value == v
    ensures r.Err? ==> exists i :: FirstInvalidAt(Split(v, ','), i) && r.error == InvalidTimeFormat(Strip(Split(v, ',')[i]))
  {
    var entries := Split(v, ',');
    match FirstInvalid(entries)
    case None => Ok(v)
    case Some(i) => Err(InvalidTimeFormat(Strip(entries[i])))
  }

  predicate Parses(entry: string) {
    ParseTime(entry).Some?
  }

  /** `schedule_times_list`: one (hour, minute) pair per comma-separated
      entry, in order. It does no range check of its own, but on a setting the
      validator accepted every pair is in range. */
  method ScheduleTimesList(v: string) returns (r: Result<seq<(int, int)>, ConfigError>)
    ensures r.Ok? <==> forall i :: 0 <= i < |Split(v, ',')| ==> Parses(Split(v, ',')[i])
    ensures r.Ok? ==> |r.value| == |Split(v, ',')|
    ensures r.Ok? ==> forall i :: 0 <= i < |r.value| ==> Some(r.value[i]) == ParseTime(Split(v, ',')[i])
    ensures r.Err? ==> exists i :: FirstUnreadableAt(Split(v, ','), i) && r.error == InvalidTimeFormat(Strip(Split(v, ',')[i]))
    ensures ValidateScheduleTimes(v).Ok? ==> r.Ok? && forall i :: 0 <= i < |r.value| ==> InRange(r.value[i])
  {
    var entries := Split(v, ',');
    var result: seq<(int, int)> := [];
    var i := 0;
    while i < |entries|
      invariant 0 <= i <= |entries|
      invariant |result| == i
      invariant forall j :: 0 <= j < i ==> Some(result[j]) == ParseTime(entries[j])
    {
      var t := ParseTime(entries[i]);
      if t.None? {
        assert FirstUnreadableAt(entries, i);
        return Err(InvalidTimeFormat(Strip(entries[i])));
      }
      result := result + [t.value];
      i := i + 1;
    }
    r := Ok(result);
  }

  /** "HH:MM" with two-digit fields reads as the two numbers, leading zeros dropped. */
  lemma ReadClock(h: string, m: string)
    requires |h| == 2 && AllDigits(h) && |m| == 2 && AllDigits(m)
    ensures ParseTime(h + ":" + m) == Some(((h[0] as int - '0' as int) * 10 + (h[1] as int - '0' as int),
                                          (m[0] as int - '0' as int) * 10 + (m[1] as int - '0' as int)))
  {
    var entry := h + ":" + m;
    NotSpace(h[0]);
    NotSpace(m[1]);
    StripTrimmed(entry);
    assert entry == Join([h, m], ':');
    SplitJoin([h, m], ':');
    ParseTwoDigits(h);
    ParseTwoDigits(m);
  }

  /** Cutting a comma-joined list of comma-free entries gives the entries back. */
  lemma EntriesOf(v: string, entries: seq<string>)
    requires |entries| >= 1 && v == Join(entries, ',')
    requires forall i :: 0 <= i < |entries| ==> ',' !in entries[i]
    ensures Split(v, ',') == entries
  {
    SplitJoin(entries, ',');
  }

  /** A clock time written with two-digit fields, as the settings file spells it. */
  function ClockText(t: (nat, nat)): (entry: string)
    requires t.0 < 100 && t.1 < 100
    ensures |entry| == 5 && entry[2] == ':'
  {
    [DigitChar(t.0 / 10), DigitChar(t.0 % 10), ':', DigitChar(t.1 / 10), DigitChar(t.1 % 10)]
  }

  predicate TwoDigitFields(ts: seq<(nat, nat)>) {
    forall k :: 0 <= k < |ts| ==> ts[k].0 < 100 && ts[k].1 < 100
  }

  /** The entries spelling the clock times `ts`, in order. */
  function ClockTexts(ts: seq<(nat, nat)>): (entries: seq<string>)
    requires TwoDigitFields(ts)
    ensures |entries| == |ts|
    ensures forall k :: 0 <= k < |ts| ==> entries[k] == ClockText(ts[k])
  {
    if ts == [] then [] else [ClockText(ts[0])] + ClockTexts(ts[1..])
  }

  /** The comma-separated setting listing the clock times `ts`. */
  function ClockList(ts: seq<(nat, nat)>): string
    requires |ts| >= 1 && TwoDigitFields(ts)
  {
    Join(ClockTexts(ts), ',')
  }

  /** Every two-digit clock entry reads back as its own hour and minute. */
  lemma ClockTextReads(t: (nat, nat))
    requires t.0 < 100 && t.1 < 100
    ensures ParseTime(ClockText(t)) == Some((t.0 as int, t.1 as int))
    ensures ',' !in ClockText(t)
  {
    var entry := ClockText(t);
    assert entry == entry[..2] + ":" + entry[3..];
    ReadClock(entry[..2], entry[3..]);
  }

  /** Cutting a clock list gives its entries back, each reading as its clock time. */
  lemma ClockListEntries(ts: seq<(nat, nat)>)
    requires |ts| >= 1 && TwoDigitFields(ts)
    ensures |Split(ClockList(ts), ',')| == |ts|
    ensures forall k :: 0 <= k < |ts| ==> ParseTime(Split(ClockList(ts), ',')[k]) == Some((ts[k].0 as int, ts[k].1 as int))
  {
    var entries := ClockTexts(ts);
    forall k | 0 <= k < |ts|
      ensures ',' !in entries[k] && ParseTime(entries[k]) == Some((ts[k].0 as int, ts[k].1 as int))
    {
      ClockTextReads(ts[k]);
    }
    EntriesOf(ClockList(ts), entries);
  }

  /** A non-empty list of in-range clock times passes validation unchanged. */
  lemma ValidateClockList(ts: seq<(nat, nat)>)
    requires |ts| >= 1 && TwoDigitFields(ts)
    requires forall k :: 0 <= k < |ts| ==> ts[k].0 < 24 && ts[k].1 < 60
    ensures ValidateScheduleTimes(ClockList(ts)) == Ok(ClockList(ts))
  {
    ClockListEntries(ts);
  }

  /** A clock list parses to its own clock times, in order. */
  method ScheduleOfClockList(ts: seq<(nat, nat)>) returns (r: Result<seq<(int, int)>, ConfigError>)
    requires |ts| >= 1 && TwoDigitFields(ts)
    ensures r.Ok? && |r.value| == |ts|
    ensures forall k :: 0 <= k < |ts| ==> r.value[k] == (ts[k].0 as int, ts[k].1 as int)
  {
    ClockListEntries(ts);
    r := ScheduleTimesList(ClockList(ts));
  }

}

/** The schedule examples of tests/test_config.py, read through the model. */
module ConfigExamples {
  import opened Wrappers
  import opened Text
  import opened Decimal
  import opened Config

  /** The default setting is the clock list of 8, 12, 16 and 20 o'clock. */
  lemma DefaultIsClockList()
    ensures ClockList([(8, 0), (12, 0), (16, 0), (20, 0)]) == DefaultScheduleTimes
  {
    FourClockTexts([(8, 0), (12, 0), (16, 0), (20, 0)]);
    DefaultSpelled();
  }

  lemma DefaultSpelled()
    ensures DefaultScheduleTimes ==
      ClockText((8, 0)) + "," + ClockText((12, 0)) + "," + ClockText((16, 0)) + "," + ClockText((20, 0))
  {
    DefaultTexts();
  }

  lemma DefaultTexts()
    ensures ClockText((8, 0)) == "08:00" && ClockText((12, 0)) == "12:00"
    ensures ClockText((16, 0)) == "16:00" && ClockText((20, 0)) == "20:00"
  {
  }

  /** A list of four clock times joins its four entries with commas. */
  lemma FourClockTexts(ts: seq<(nat, nat)>)
    requires |ts| == 4 && TwoDigitFields(ts)
    ensures ClockList(ts) == ClockText(ts[0]) + "," + ClockText(ts[1]) + "," + ClockText(ts[2]) + "," + ClockText(ts[3])
  {
    var es := ClockTexts(ts);
    JoinFour(es, ',');
  }

  /** The default setting passes validation unchanged. */
  lemma DefaultAccepted()
    ensures ValidateScheduleTimes(DefaultScheduleTimes) == Ok(DefaultScheduleTimes)
  {
    var ts: seq<(nat, nat)> := [(8, 0), (12, 0), (16, 0), (20, 0)];
    DefaultIsClockList();
    ValidateClockList(ts);
  }

  /** A list whose first entry is a two-digit clock time with an hour past 23,
      such as `"25:00,12:00"`, is rejected naming that entry. */
  lemma HourOutOfRangeRejected(h: string, m: string, rest: string)
    requires |h| == 2 && AllDigits(h) && |m| == 2 && AllDigits(m)
    requires (h[0] as int - '0' as int) * 10 + (h[1] as int - '0' as int) > 23
    ensures ValidateScheduleTimes(h + ":" + m + "," + rest) == Err(InvalidTimeFormat(h + ":" + m))
  {
    var entry := h + ":" + m;
    ReadClock(h, m);
    NotSpace(h[0]);
    NotSpace(m[1]);
    StripTrimmed(entry);
    assert entry + "," + rest == entry + [','] + rest;
    SplitAfterPiece(entry, ',', rest);
  }

  /** The example list of tests/test_config.py is the clock list of its four times. */
  lemma ExampleIsClockList()
    ensures ClockList([(8, 0), (12, 30), (16, 45), (20, 15)]) == "08:00,12:30,16:45,20:15"
  {
    FourClockTexts([(8, 0), (12, 30), (16, 45), (20, 15)]);
    ExampleSpelled();
  }

  lemma ExampleSpelled()
    ensures "08:00,12:30,16:45,20:15" ==
      ClockText((8, 0)) + "," + ClockText((12, 30)) + "," + ClockText((16, 45)) + "," + ClockText((20, 15))
  {
    ExampleTexts();
  }

  lemma ExampleTexts()
    ensures ClockText((8, 0)) == "08:00" && ClockText((12, 30)) == "12:30"
    ensures ClockText((16, 45)) == "16:45" && ClockText((20, 15)) == "20:15"
  {
  }

  /** The example list reads as its four times, leading zeros dropped. */
  method ExampleSchedule() returns (r: Result<seq<(int, int)>, ConfigError>)
    ensures r == Ok([(8, 0), (12, 30), (16, 45), (20, 15)])
  {
    var ts: seq<(nat, nat)> := [(8, 0), (12, 30), (16, 45), (20, 15)];
    ExampleIsClockList();
    r := ScheduleOfClockList(ts);
    assert r.value[0] == (8, 0) && r.value[1] == (12, 30) && r.value[2] == (16, 45) && r.value[3] == (20, 15);
    assert |r.value| == 4;
    assert r.value == [(8, 0), (12, 30), (16, 45), (20, 15)];
  }
}
