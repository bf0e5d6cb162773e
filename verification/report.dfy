/** `checkAppointments`: one polling cycle after capture, and the console
    report it prints for the validated appointments. */
module Report {
  import opened Wrappers
  import opened Text
  import opened Schema
  import opened Analysis

  const Separator: string := " | "
  const YesTail: string := " | 29-Country: Yes"
  const NoTail: string := " | 29-Country: No"

  /** Everything after the `N. ` of a report line. */
  function ReportFields(a: Appointment): string
  {
    a.date + Separator + a.location + Separator + a.category + (if a.is29Country then YesTail else NoTail)
  }

  /** `${index + 1}. ${date} | ${location} | ${type} | 29-Country: Yes|No`. */
  function ReportLine(index: nat, a: Appointment): (r: string)
    ensures StartsWith(r, Decimal(index + 1) + ". " + a.date + Separator)
    ensures EndsWith(r, "Yes") <==> a.is29Country
  {
    var r := Decimal(index + 1) + ". " + ReportFields(a);
    ReportLineShape(Decimal(index + 1) + ". ", a, r);
    r
  }

  lemma ReportLineShape(head: string, a: Appointment, r: string)
    requires r == head + ReportFields(a)
    ensures StartsWith(r, head + a.date + Separator)
    ensures EndsWith(r, "Yes") <==> a.is29Country
  {
    var tail := if a.is29Country then YesTail else NoTail;
    var body := a.location + Separator + a.category;
    assert r == (head + a.date + Separator) + (body + tail);
    assert r == (head + a.date + Separator + body) + tail;
    StartsWithAppend(head + a.date + Separator, body + tail);
    TailDecidesYes(head + a.date + Separator + body, a.is29Country);
  }

  lemma StartsWithAppend(p: string, q: string)
    ensures StartsWith(p + q, p)
  {
    assert (p + q)[..|p|] == p;
  }

  /** Only the `Yes` tail ends in "Yes". */
  lemma TailDecidesYes(x: string, yes: bool)
    ensures EndsWith(x + (if yes then YesTail else NoTail), "Yes") <==> yes
  {
    var tail := if yes then YesTail else NoTail;
    var r := x + tail;
    assert r[|r| - 3..] == tail[|tail| - 3..];
  }


  /** Reads back the fields part of a report line. Dates are ten characters
      and test-centre names five, so the first two fields have fixed width;
      the `Yes`/`No` tail fixes where the category ends. */
  function ParseReportFields(f: string): Option<Appointment>
  {
    if |f| < 21 || f[10..13] != Separator || f[18..21] != Separator then None
    else
      var rest := f[21..];
      if EndsWith(rest, YesTail) then Some(Appointment(f[13..18], true, f[..10], rest[..|rest| - |YesTail|]))
      else if EndsWith(rest, NoTail) then Some(Appointment(f[13..18], false, f[..10], rest[..|rest| - |NoTail|]))
      else None
  }

  /** Reads back a whole report line: the 0-based position and the record. */
  function ParseReportLine(line: string): Option<(nat, Appointment)>
  {
    match IndexOf(line, '.')
    case None => None
    case Some(k) => ParseNumbered(ParsePosition(line[..k]), line[k..])
  }

  /** The 0-based position printed as the 1-based number `digits`. */
  function ParsePosition(digits: string): Option<nat>
  {
    if 0 < |digits| && AllDigits(digits) && 1 <= DecimalValue(digits) then Some(DecimalValue(digits) - 1)
    else None
  }

  /** The rest of the line after the number: `. ` and the fields. */
  function ParseNumbered(position: Option<nat>, rest: string): Option<(nat, Appointment)>
  {
    if position.Some? && StartsWith(rest, ". ") then
      match ParseReportFields(rest[2..])
      case None => None
      case Some(a) => Some((position.value, a))
    else None
  }

  lemma LocationsHaveFiveChars(a: Appointment)
    requires WellFormed(a)
    ensures |a.location| == 5
  {
  }

  lemma {:induction false} ReportFieldsRoundTrip(a: Appointment)
    requires WellFormed(a)
    ensures ParseReportFields(ReportFields(a)) == Some(a)
  {
    LocationsHaveFiveChars(a);
    var f := ReportFields(a);
    var tail := if a.is29Country then YesTail else NoTail;
    assert f == a.date + Separator + a.location + Separator + (a.category + tail);
    assert f[..10] == a.date;
    assert f[10..13] == Separator;
    assert f[13..18] == a.location;
    assert f[18..21] == Separator;
    var rest := f[21..];
    assert rest == a.category + tail;
    assert rest[..|rest| - |tail|] == a.category;
    assert EndsWith(rest, tail);
    assert !a.is29Country ==> rest[|rest| - 1] == 'o' && YesTail[|YesTail| - 1] == 's';
  }

  /** A report line determines its position and the record it reports. */
  lemma ReportLineRoundTrip(index: nat, a: Appointment)
    requires WellFormed(a)
    ensures ParseReportLine(ReportLine(index, a)) == Some((index, a))
  {
    PositionRoundTrip(index);
    ReportFieldsRoundTrip(a);
    ParseLineSplits(Decimal(index + 1), ReportFields(a));
    ParseNumberedOf(index, ReportFields(a));
  }

  lemma PositionRoundTrip(index: nat)
    ensures ParsePosition(Decimal(index + 1)) == Some(index)
  {
    DecimalRoundTrip(index + 1);
  }

  /** A line splits at the first `.`, which follows the leading digits. */
  lemma ParseLineSplits(d: string, f: string)
    requires AllDigits(d)
    ensures ParseReportLine(d + ". " + f) == ParseNumbered(ParsePosition(d), ". " + f)
  {
    var line := d + ". " + f;
    assert line == d + (". " + f);
    FirstDotAfterDigits(d, ". " + f);
    assert line[..|d|] == d;
    assert line[|d|..] == ". " + f;
  }

  lemma ParseNumberedOf(index: nat, f: string)
    requires ParseReportFields(f).Some?
    ensures ParseNumbered(Some(index), ". " + f) == Some((index, ParseReportFields(f).value))
  {
    assert (". " + f)[..2] == ". ";
    assert (". " + f)[2..] == f;
  }

  lemma FirstDotAfterDigits(d: string, t: string)
    requires AllDigits(d) && 0 < |t| && t[0] == '.'
    ensures IndexOf(d + t, '.') == Some(|d|)
  {
    var s := d + t;
    assert forall k :: 0 <= k < |d| ==> s[k] == d[k];
    assert s[|d|] == '.';
  }

  /** The printed report of one cycle. */
  function ReportLines(appointments: seq<Appointment>): (r: seq<string>)
    ensures |r| == |appointments|
    ensures forall i :: 0 <= i < |r| ==> r[i] == ReportLine(i, appointments[i])
  {
    seq(|appointments|, i requires 0 <= i < |appointments| => ReportLine(i, appointments[i]))
  }

  const NoneAvailable: string := "No appointments available"

  /** What a successful cycle logs: a notice when nothing was found, else a
      count line followed by one line per appointment. */
  function CycleLog(appointments: seq<Appointment>): (r: seq<string>)
    ensures |appointments| == 0 ==> r == [NoneAvailable]
    ensures 0 < |appointments| ==>
      && |r| == |appointments| + 1
      && r[0] == "Found " + Decimal(|appointments|) + " appointments:"
      && forall i :: 0 <= i < |appointments| ==> r[i + 1] == ReportLine(i, appointments[i])
  {
    if |appointments| == 0 then [NoneAvailable]
    else ["Found " + Decimal(|appointments|) + " appointments:"] + ReportLines(appointments)
  }

  /** Every record of a cycle can be read back from its log line. */
  lemma CycleLogRecoversAppointments(appointments: seq<Appointment>)
    requires forall i :: 0 <= i < |appointments| ==> WellFormed(appointments[i])
    ensures forall i :: 0 <= i < |appointments| ==>
      ParseReportLine(CycleLog(appointments)[i + 1]) == Some((i, appointments[i]))
  {
    forall i | 0 <= i < |appointments|
      ensures ParseReportLine(CycleLog(appointments)[i + 1]) == Some((i, appointments[i]))
    {
      ReportLineRoundTrip(i, appointments[i]);
    }
  }

  /** The outcome of one cycle: the appointments it returns and the lines it
      logs on success. */
  datatype Cycle = Cycle(appointments: seq<Appointment>, log: seq<string>)

  /** `checkAppointments` of script.js. `screenshot` is what the capture
      step returned (`None`: it threw); `reply` is the model's answer for that
      screenshot. A throw from capture or from the model call is caught here
      and the cycle returns `[]`; otherwise the analysed list is returned
      unchanged. */
  function CheckAppointments(screenshot: Option<string>, reply: ModelReply, parse: string -> Option<JsonValue>): (r: Cycle)
    ensures screenshot.None? ==> r == Cycle([], [])
    ensures reply.CallFailed? ==> r == Cycle([], [])
    ensures screenshot.Some? ==> r.appointments == AnalyzeScreenshot(reply, parse)
    ensures screenshot.Some? && reply.Replied? ==> r.log == CycleLog(r.appointments)
    ensures forall i :: 0 <= i < |r.appointments| ==> WellFormed(r.appointments[i])
  {
    match screenshot
    case None => Cycle([], [])
    case Some(_) =>
      match AnalyzeScreenshotScript(reply, parse)
      case None => Cycle([], [])
      case Some(appointments) => Cycle(appointments, CycleLog(appointments))
  }

  /** The sample record in the model prompt (script.js:104-111), reported as
      line 1. */
  lemma ReportExample()
    ensures ReportLine(0, Appointment("府中試験場", true, "2025-05-23", "29の国･地域の方"))
      == "1. 2025-05-23 | 府中試験場 | 29の国･地域の方 | 29-Country: Yes"
  {
    assert Decimal(1) == "1";
    SampleLinePart1();
    SampleLinePart2();
    SampleLinePart3();
    SampleLinePart4();
  }

  /** The sample line assembled from its pieces, one join at a time. */
  lemma SampleLinePart1()
    ensures "1" + ". " + "2025-05-23" == "1. 2025-05-23"
  {
  }

  lemma SampleLinePart2()
    ensures "1. 2025-05-23" + " | " + "府中試験場" == "1. 2025-05-23 | 府中試験場"
  {
  }

  lemma SampleLinePart3()
    ensures "1. 2025-05-23 | 府中試験場" + " | " + "29の国･地域の方" == "1. 2025-05-23 | 府中試験場 | 29の国･地域の方"
  {
  }

  lemma SampleLinePart4()
    ensures "1. 2025-05-23 | 府中試験場 | 29の国･地域の方" + " | 29-Country: Yes"
      == "1. 2025-05-23 | 府中試験場 | 29の国･地域の方 | 29-Country: Yes"
  {
  }
}
