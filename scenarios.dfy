/**
 * Properties of extraction and rendering together: what the reply shows for a
 * page the extractor has read.
 */
module Scenarios {
  import opened Wrappers
  import opened JsString
  import opened GroupLine
  import opened DataFetch
  import opened ScheduleMessageBuilder

  /** When no bold text carries "станом на", the sentinel is the update time and
      the reply still shows it as the publication line. */
  lemma SentinelIsPublished(fragment: Fragment)
    requires forall i :: 0 <= i < |fragment.bolds| ==> !Contains(fragment.bolds[i], AS_OF_MARKER)
    ensures HasPublication(Some(DayDataOf(fragment)))
    ensures PublicationLine(DayDataOf(fragment).updateTime) == CLOCK + " _" + DATA_CAPTION + " " + NO_TIME + "_"
  {
  }

  /** A status the extractor stored yields a status line without a newline. */
  lemma ExtractedStatusIsOneLine(dayData: DayData, group: string)
    requires WellFormedSchedule(dayData.schedule)
    requires group in dayData.schedule && dayData.schedule[group] != ""
    ensures '\n' !in StatusText(group, Some(dayData))
  {
    var status := dayData.schedule[group];
    assert NoLineTerminator(status);
    var indicator := if Contains(status, POWER_ON) then GREEN else RED;
    assert StatusText(group, Some(dayData)) == indicator + " " + status;
    assert '\n' !in indicator + " ";
  }

  const PAGE_PARAGRAPH := "Група 3.2. Електроенергія є"
  const PAGE_BOLD := "Інформація станом на 08:00"

  /** The page `<p><b>Інформація станом на 08:00</b></p><p>Група 3.2. Електроенергія є</p>`,
      flattened: `$("p")` sees both paragraphs, the first holding the bold text. */
  const PAGE := Fragment([PAGE_BOLD, PAGE_PARAGRAPH], [PAGE_BOLD])

  /** The page's second paragraph is recognised with group "3.2". */
  lemma ExampleGroupLine()
    ensures Entry(PAGE_PARAGRAPH) == Some(("3.2", POWER_ON))
  {
    ExampleMatch();
    TrimOfPowerOn();
  }

  // ExampleMatch, ExampleTrimmed, ExampleCaptures, ExampleLabel, ExampleShape,
  // ExampleTailRuns, TrimOfPowerOn, ExampleMarked, ExampleStripped and the
  // generic SingleMarkedBold, SingleParagraphSchedule, LeadingParagraphIgnored
  // and AssignOne split the worked example into small facts about the literal
  // strings. This keeps each proof cheap for the solver whatever its random seed.

  lemma ExampleMatch()
    ensures MatchGroupLine(Trim(PAGE_PARAGRAPH)) == Some(("3.2", POWER_ON))
  {
    ExampleTrimmed();
    ExampleCaptures();
    MatchGroupLineExact(PAGE_PARAGRAPH, "3.2", POWER_ON);
  }

  lemma ExampleTrimmed()
    ensures Trim(PAGE_PARAGRAPH) == PAGE_PARAGRAPH
  {
    assert RunEnd(PAGE_PARAGRAPH, 0, IsJsSpace) == 0;
  }

  lemma ExampleCaptures()
    ensures CapturesAt(PAGE_PARAGRAPH, "3.2", POWER_ON, 6, 7, 9, 11, 27)
  {
    ExampleLabel();
    ExampleShape();
    ExampleTailRuns();
    assert PAGE_PARAGRAPH[6..9] == "3.2";
    assert PAGE_PARAGRAPH[11..27] == POWER_ON;
  }

  lemma ExampleLabel()
    ensures LabelMatches(PAGE_PARAGRAPH)
  {
    assert PAGE_PARAGRAPH[..5] == GROUP_LABEL;
  }

  lemma ExampleShape()
    ensures ShapeAt(PAGE_PARAGRAPH, 6, 7, 9)
    ensures MaximalRun(PAGE_PARAGRAPH, 8, 9, IsAsciiDigit)
  {
    var t := PAGE_PARAGRAPH;
    assert t[5] == ' ' && t[6] == '3' && t[7] == '.' && t[8] == '2' && t[9] == '.';
  }

  lemma ExampleTailRuns()
    ensures AfterDot(PAGE_PARAGRAPH, 9) == 10
    ensures MaximalRun(PAGE_PARAGRAPH, 10, 11, IsJsSpace)
    ensures MaximalRun(PAGE_PARAGRAPH, 11, 27, NotLineTerminator)
  {
    var t := PAGE_PARAGRAPH;
    assert t[9] == '.' && t[10] == ' ' && t[11] == POWER_ON[0];
    assert |t| == 27;
    assert t[11..] == POWER_ON;
    forall i | 11 <= i < 27 ensures NotLineTerminator(t[i]) {
      assert t[i] == POWER_ON[i - 11];
    }
  }

  lemma TrimOfPowerOn()
    ensures Trim(POWER_ON) == POWER_ON
  {
    assert RunEnd(POWER_ON, 0, IsJsSpace) == 0;
  }

  /** Its bold text gives the update time "08:00". */
  lemma ExampleUpdateTime()
    ensures UpdateTimeOf([PAGE_BOLD]) == "08:00"
  {
    ExampleMarked();
    SingleMarkedBold(PAGE_BOLD);
    ExampleStripped();
    assert RunEnd("08:00", 0, IsJsSpace) == 0;
  }

  lemma ExampleMarked()
    ensures Contains(PAGE_BOLD, AS_OF_MARKER)
  {
    assert OccursAt(PAGE_BOLD, AS_OF_MARKER, 11);
  }

  lemma ExampleStripped()
    ensures StripAsOfLabel(PAGE_BOLD) == "08:00"
  {
    var b := PAGE_BOLD;
    assert b[..|AS_OF_LABEL|] == AS_OF_LABEL;
    assert IndexOf(b, AS_OF_LABEL) == Some(0);
    assert RunEnd(b, 20, IsJsSpace) == 21;
  }

  /** One bold text carrying the marker: the update time is that text, label stripped, trimmed. */
  lemma SingleMarkedBold(b: string)
    requires Contains(b, AS_OF_MARKER)
    ensures UpdateTimeOf([b]) == Trim(StripAsOfLabel(b))
  {
    ContainsNonEmpty(b, AS_OF_MARKER);
    var bolds := [b];
    assert bolds[0] == b && bolds[1..] == [];
    assert MarkedText(bolds[1..]) == [];
    assert MarkedText(bolds) == b;
  }

  /** The whole page: update time "08:00" and group "3.2" powered. */
  lemma ExamplePage()
    ensures DayDataOf(PAGE) == DayData("08:00", map["3.2" := POWER_ON])
  {
    ExampleBoldParagraph();
    LeadingParagraphIgnored(PAGE_BOLD, PAGE_PARAGRAPH);
    ExampleSchedule();
    ExampleUpdateTime();
  }

  /** The page's first paragraph, the one holding the bold text, is no group line. */
  lemma ExampleBoldParagraph()
    ensures Entry(PAGE_BOLD) == None
  {
    assert RunEnd(PAGE_BOLD, 0, IsJsSpace) == 0;
    assert !LabelMatches(Trim(PAGE_BOLD));
  }

  /** A leading paragraph that is no group line does not change the dictionary. */
  lemma LeadingParagraphIgnored(p: string, q: string)
    requires Entry(p).None?
    ensures ScheduleOf([p, q]) == ScheduleOf([q])
  {
    ScheduleIgnoresNonGroupLine([p, q], 0);
    assert [p, q][..0] + [p, q][1..] == [q];
  }

  lemma ExampleSchedule()
    ensures ScheduleOf([PAGE_PARAGRAPH]) == map["3.2" := POWER_ON]
  {
    ExampleGroupLine();
    SingleParagraphSchedule(PAGE_PARAGRAPH, "3.2", POWER_ON);
  }

  /** A page with one group paragraph yields a one-entry schedule. */
  lemma SingleParagraphSchedule(p: string, group: string, status: string)
    requires Entry(p) == Some((group, status))
    ensures ScheduleOf([p]) == map[group := status]
  {
    var es := EntriesOf([p]);
    assert es == [Some((group, status))];
    AssignOne(group, status);
  }

  lemma AssignOne(group: string, status: string)
    ensures Assign([Some((group, status))]) == map[group := status]
  {
    var es := [Some((group, status))];
    assert es[..0] == [];
  }

  lemma ExampleScheduleWellFormed()
    ensures WellFormedSchedule(map["3.2" := POWER_ON])
  {
    ExampleSchedule();
    ScheduleWellFormed([PAGE_PARAGRAPH]);
  }

  /** For group "3.2" the reply shows the green indicator, the status and the
      publication line with "08:00". */
  lemma ExampleReplies(formattedDate: string, checkTime: string)
    requires '\n' !in formattedDate && '\n' !in checkTime
    ensures var day := Some(DayDataOf(PAGE));
      SplitLines(BuildScheduleMessage("3.2", Today, day, formattedDate, checkTime)) ==
        [HeadingLine(Today, formattedDate), GroupHeading("3.2"), "", GREEN + " " + POWER_ON, "",
         PublicationLine("08:00"), CheckedLine(checkTime)]
  {
    ExamplePage();
    ReplyForPoweredGroup(DayData("08:00", map["3.2" := POWER_ON]), formattedDate, checkTime);
  }

  lemma ReplyForPoweredGroup(data: DayData, formattedDate: string, checkTime: string)
    requires data == DayData("08:00", map["3.2" := POWER_ON])
    requires '\n' !in formattedDate && '\n' !in checkTime
    ensures SplitLines(BuildScheduleMessage("3.2", Today, Some(data), formattedDate, checkTime)) ==
        [HeadingLine(Today, formattedDate), GroupHeading("3.2"), "", GREEN + " " + POWER_ON, "",
         PublicationLine("08:00"), CheckedLine(checkTime)]
  {
    ExampleScheduleWellFormed();
    assert OccursAt(POWER_ON, POWER_ON, 0);
    assert StatusText("3.2", Some(data)) == GREEN + " " + POWER_ON;
    ExtractedStatusIsOneLine(data, "3.2");
    assert '\n' !in data.updateTime;
    MessageLines("3.2", Today, Some(data), formattedDate, checkTime);
  }

  /** For group "1.1", absent from the page, the reply shows the no-data text. */
  lemma ExampleAbsentGroup()
    ensures StatusText("1.1", Some(DayDataOf(PAGE))) == NO_DATA
  {
    ExamplePage();
    var data := DayDataOf(PAGE);
    assert "1.1"[0] != "3.2"[0];
    StatusTextNoData("1.1", Some(data));
  }
}
