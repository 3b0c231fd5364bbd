/**
 * Time-of-day helpers of the rephrasing path (src/ai/prompts.py): which
 * instruction template an hour selects, and the Chinese time label shown
 * in the prompt. The template texts themselves are constants and appear
 * here only as tags.
 */
module Prompts {
  import opened Wrappers
  import opened Text
  import opened Decimal

  /** The four instruction templates, by name. */
  datatype PromptTemplate = MorningPrompt | NoonPrompt | AfternoonPrompt | EveningPrompt

  /** `get_prompt_for_time`: a four-way split of the day. Every integer gets a
      template; the evening one covers the night hours 0-5 and anything
      outside 0-23 as well. */
  function PromptForTime(hour: int): (t: PromptTemplate)
    ensures t == MorningPrompt <==> 6 <= hour < 11
    ensures t == NoonPrompt <==> 11 <= hour < 14
    ensures t == AfternoonPrompt <==> 14 <= hour < 18
    ensures t == EveningPrompt <==> hour < 6 || 18 <= hour
  {
    if 6 <= hour < 11 then MorningPrompt
    else if 11 <= hour < 14 then NoonPrompt
    else if 14 <= hour < 18 then AfternoonPrompt
    else EveningPrompt
  }

  const EarlyLabel := "早上"
  const NoonLabel := "中午"
  const AfternoonLabel := "下午"
  const EveningLabel := "晚上"
  const LateNightLabel := "深夜"

  /** The period word of `format_time`: a five-way split whose morning runs to
      noon, unlike the template split above. */
  function PeriodLabel(hour: int): (word: string)
    ensures |word| == 2
    ensures word == EarlyLabel <==> 6 <= hour < 12
    ensures word == NoonLabel <==> 12 <= hour < 14
    ensures word == AfternoonLabel <==> 14 <= hour < 18
    ensures word == EveningLabel <==> 18 <= hour < 22
    ensures word == LateNightLabel <==> hour < 6 || 22 <= hour
  {
    if 6 <= hour < 12 then EarlyLabel
    else if 12 <= hour < 14 then NoonLabel
    else if 14 <= hour < 18 then AfternoonLabel
    else if 18 <= hour < 22 then EveningLabel
    else LateNightLabel
  }

  /** The hour as shown: on a 12-hour dial for 0-23 (the same hour modulo 12,
      at most 12), where midnight stays 0 instead of becoming 12. */
  function DisplayHour(hour: int): (d: int)
    ensures 0 <= hour < 24 ==> 0 <= d <= 12 && (hour - d) % 12 == 0 && (d == 0 <==> hour == 0)
    ensures d == hour || d == hour - 12
  {
    if hour <= 12 then hour else hour - 12
  }

  const HourMark: char := '點'
  const MinuteMark: char := '分'

  /** `format_time`: the period word, the displayed hour and `點`, then the
      minute and `分` unless the minute is 0. */
  function FormatTime(hour: int, minute: int): (r: string)
    ensures |r| >= 4 && r[..2] == PeriodLabel(hour)
    ensures r[|r| - 1] == if minute == 0 then HourMark else MinuteMark
  {
    var head := PeriodLabel(hour) + IntToString(DisplayHour(hour)) + [HourMark];
    if minute == 0 then head else head + IntToString(minute) + [MinuteMark]
  }

  /** What a reader of a formatted time can recover from it. */
  datatype TimeText = TimeText(period: string, hour: int, minute: int)

  /** Reads a time label back: the two-character period word, the number
      before `點`, and the number before a final `分` (none means minute 0). */
  function ReadTime(s: string): Option<TimeText> {
    if |s| < 2 then None
    else
      var parts := Split(s[2..], HourMark);
      if |parts| != 2 then None
      else
        var after := parts[1];
        match ParseInt(parts[0])
        case None => None
        case Some(h) =>
          if after == [] then Some(TimeText(s[..2], h, 0))
          else if after[|after| - 1] != MinuteMark then None
          else
            match ParseInt(after[..|after| - 1])
            case None => None
            case Some(m) => if m == 0 then None else Some(TimeText(s[..2], h, m))
  }

  lemma NoHourMark(n: int)
    ensures HourMark !in IntToString(n)
  {
  }

  /** Tail of a time label: empty for minute 0, otherwise the minute and `分`. */
  function MinuteText(minute: int): string {
    if minute == 0 then "" else IntToString(minute) + [MinuteMark]
  }

  lemma ReadMinute(minute: int)
    ensures HourMark !in MinuteText(minute)
    ensures var t := MinuteText(minute);
      if minute == 0 then t == []
      else t != [] && t[|t| - 1] == MinuteMark && ParseInt(t[..|t| - 1]) == Some(minute)
  {
    if minute != 0 {
      var t := MinuteText(minute);
      NoHourMark(minute);
      assert t[..|t| - 1] == IntToString(minute);
      ParseIntToString(minute);
    }
  }

  lemma ReadParts(period: string, h: int, minute: int)
    requires |period| == 2
    ensures ReadTime(period + IntToString(h) + [HourMark] + MinuteText(minute)) == Some(TimeText(period, h, minute))
  {
    var hText, tail := IntToString(h), MinuteText(minute);
    var r := period + hText + [HourMark] + tail;
    assert r[..2] == period;
    assert r[2..] == Join([hText, tail], HourMark);
    NoHourMark(h);
    ReadMinute(minute);
    SplitJoin([hText, tail], HourMark);
    ParseIntToString(h);
  }

  /** The time label is unambiguous: it gives back the period word, the
      displayed hour and the minute it was made from. */
  lemma ReadFormatTime(hour: int, minute: int)
    ensures ReadTime(FormatTime(hour, minute)) == Some(TimeText(PeriodLabel(hour), DisplayHour(hour), minute))
  {
    assert FormatTime(hour, minute) == PeriodLabel(hour) + IntToString(DisplayHour(hour)) + [HourMark] + MinuteText(minute);
    ReadParts(PeriodLabel(hour), DisplayHour(hour), minute);
  }

  /** 08:00 shows no minutes; 20:15 shows 8 on the 12-hour dial with its
      minutes; midnight shows hour 0; 13:05 is labelled noon and shows 1. */
  lemma FormatTimeExamples()
    ensures FormatTime(8, 0) == "早上8點"
    ensures FormatTime(20, 15) == "晚上8點15分"
    ensures FormatTime(0, 0) == "深夜0點"
    ensures FormatTime(13, 5) == "中午1點5分"
  {
    assert NatToString(15) == "15";
    assert PeriodLabel(13) == "中午" && DisplayHour(13) == 1;
    assert IntToString(1) == "1" && IntToString(5) == "5";
    assert FormatTime(13, 5) == "中午" + "1" + "點" + "5" + "分";
  }
}
