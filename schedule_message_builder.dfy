/**
 * The reply text for one group and one day. The two clock-derived strings, the
 * formatted target date and the "checked at" time, are parameters: the Kyiv
 * time zone, the uk-UA date format and the wall clock are outside this model.
 */
module ScheduleMessageBuilder {
  import opened Wrappers
  import opened JsString
  import opened DataFetch

  datatype Day = Today | Tomorrow

  /** `UI_TEXT.noData`, whose text is defined outside this model. */
  const NO_DATA: string

  const POWER_ON := "Електроенергія є"
  const GREEN := "\U{1F7E2}"
  const RED := "\U{1F534}"
  const CALENDAR := "\U{1F4C5}"
  const PEOPLE := "\U{1F465}"
  const CLOCK := "\U{1F552}"
  const RECYCLE := "\U{267B}\U{FE0F}"
  const SCHEDULE_CAPTION := "Графік:"
  const TODAY_CAPTION := "Сьогодні"
  const TOMORROW_CAPTION := "Завтра"
  const GROUP_CAPTION := "Група:"
  const DATA_CAPTION := "Дані:"
  const CHECKED_CAPTION := "Перевірено:"

  /** `dayData?.schedule?.[group]`. */
  function StatusOf(group: string, dayData: Option<DayData>): Option<string> {
    if dayData.Some? && group in dayData.value.schedule then Some(dayData.value.schedule[group]) else None
  }

  /** The no-data text when there is no status or it is empty, otherwise the
      status behind a green or red indicator. */
  function StatusText(group: string, dayData: Option<DayData>): string {
    var status := StatusOf(group, dayData);
    if status.None? || status.value == "" then NO_DATA
    else (if Contains(status.value, POWER_ON) then GREEN else RED) + " " + status.value
  }

  function DayCaption(day: Day): string {
    if day == Today then TODAY_CAPTION else TOMORROW_CAPTION
  }

  function HeadingLine(day: Day, formattedDate: string): string {
    CALENDAR + " **" + SCHEDULE_CAPTION + " " + DayCaption(day) + "** (" + formattedDate + ")"
  }

  function GroupHeading(group: string): string {
    PEOPLE + " **" + GROUP_CAPTION + " " + group + "**"
  }

  /** `dayData?.updateTime` is truthy. */
  predicate HasPublication(dayData: Option<DayData>) {
    dayData.Some? && dayData.value.updateTime != ""
  }

  function PublicationLine(updateTime: string): string {
    CLOCK + " _" + DATA_CAPTION + " " + updateTime + "_"
  }

  function CheckedLine(checkTime: string): string {
    RECYCLE + " _" + CHECKED_CAPTION + " " + checkTime + "_"
  }

  /** `buildScheduleMessage`, with the formatted date and the check time given. */
  function BuildScheduleMessage(group: string, day: Day, dayData: Option<DayData>, formattedDate: string, checkTime: string): (msg: string)
    ensures |HeadingLine(day, formattedDate)| < |msg|
    ensures msg[..|HeadingLine(day, formattedDate)| + 1] == HeadingLine(day, formattedDate) + "\n"
    ensures |CheckedLine(checkTime)| <= |msg|
    ensures msg[|msg| - |CheckedLine(checkTime)|..] == CheckedLine(checkTime)
  {
    var powerData := if HasPublication(dayData) then PublicationLine(dayData.value.updateTime) + "\n" else "";
    HeadingLine(day, formattedDate) + "\n"
    + GroupHeading(group) + "\n\n"
    + StatusText(group, dayData) + "\n\n"
    + powerData
    + CheckedLine(checkTime)
  }

  /** Without a status, or with an empty one, the status line is the no-data text. */
  lemma StatusTextNoData(group: string, dayData: Option<DayData>)
    requires dayData.None? || group !in dayData.value.schedule || dayData.value.schedule[group] == ""
    ensures StatusText(group, dayData) == NO_DATA
  {
  }

  /** A non-empty status is shown verbatim after an indicator and a space; the
      indicator is green exactly when the status contains "Електроенергія є",
      and red otherwise. */
  lemma StatusTextIndicator(group: string, dayData: Option<DayData>)
    requires dayData.Some? && group in dayData.value.schedule && dayData.value.schedule[group] != ""
    ensures var text, status := StatusText(group, dayData), dayData.value.schedule[group];
      && |text| == |status| + 2
      && text[1] == ' '
      && text[2..] == status
      && (text[0] == GREEN[0] <==> Contains(status, POWER_ON))
      && (text[0] == RED[0] <==> !Contains(status, POWER_ON))
  {
  }

  /** The lines of the message, top to bottom. */
  function MessageLineList(group: string, day: Day, dayData: Option<DayData>, formattedDate: string, checkTime: string): seq<string> {
    [HeadingLine(day, formattedDate), GroupHeading(group), "", StatusText(group, dayData), ""]
    + (if HasPublication(dayData) then [PublicationLine(dayData.value.updateTime)] else [])
    + [CheckedLine(checkTime)]
  }

  // JoinLayout and the lemmas after it, down to Glue, only regroup joins and
  // concatenations. They are kept as separate small steps, and stated over
  // arbitrary strings rather than the message's literals, so that each proof
  // stays cheap for the solver whatever its random seed.

  /** The layout of the message over arbitrary line texts. */
  lemma JoinLayout(heading: string, groupLine: string, statusText: string, publication: Option<string>, checked: string)
    ensures JoinLines([heading, groupLine, "", statusText, ""] + (if publication.Some? then [publication.value] else []) + [checked])
      == heading + "\n" + groupLine + "\n\n" + statusText + "\n\n"
         + (if publication.Some? then publication.value + "\n" else "") + checked
  {
    var rest := if publication.Some? then [publication.value, checked] else [checked];
    var powerData := if publication.Some? then publication.value + "\n" else "";
    assert JoinLines([checked]) == checked;
    if publication.Some? {
      assert rest[1..] == [checked];
    }
    assert JoinLines(rest) == powerData + checked;
    assert [heading, groupLine, "", statusText, ""] + (if publication.Some? then [publication.value] else []) + [checked]
      == [heading, groupLine, "", statusText, ""] + rest;
    JoinFiveLines(heading, groupLine, statusText, rest);
  }

  /** Joining five leading lines (two of them blank) in front of the rest. */
  lemma JoinFiveLines(heading: string, groupLine: string, statusText: string, rest: seq<string>)
    requires |rest| >= 1
    ensures JoinLines([heading, groupLine, "", statusText, ""] + rest)
      == heading + "\n" + groupLine + "\n\n" + statusText + "\n\n" + JoinLines(rest)
  {
    var tail := JoinLines(rest);
    UnfoldFive(heading, groupLine, statusText, rest);
    Regroup(heading, groupLine, statusText, tail);
  }

  lemma UnfoldFive(heading: string, groupLine: string, statusText: string, rest: seq<string>)
    requires |rest| >= 1
    ensures JoinLines([heading, groupLine, "", statusText, ""] + rest)
      == heading + "\n" + (groupLine + "\n" + ("\n" + (statusText + "\n" + ("\n" + JoinLines(rest)))))
  {
    JoinFive(heading, groupLine, "", statusText, "", rest);
    assert "" + "\n" == "\n";
  }

  lemma JoinFive(a: string, b: string, c: string, d: string, e: string, rest: seq<string>)
    requires |rest| >= 1
    ensures JoinLines([a, b, c, d, e] + rest)
      == a + "\n" + (b + "\n" + (c + "\n" + (d + "\n" + (e + "\n" + JoinLines(rest)))))
  {
    var l4 := [e] + rest;
    var l3 := [d] + l4;
    var l2 := [c] + l3;
    var l1 := [b] + l2;
    NestFive(a, b, c, d, e, rest);
    JoinCons(e, rest);
    JoinCons(d, l4);
    JoinCons(c, l3);
    JoinCons(b, l2);
    JoinCons(a, l1);
  }

  lemma NestFive<T>(a: T, b: T, c: T, d: T, e: T, rest: seq<T>)
    ensures [a, b, c, d, e] + rest == [a] + ([b] + ([c] + ([d] + ([e] + rest))))
  {
  }

  lemma Regroup(heading: string, groupLine: string, statusText: string, tail: string)
    ensures heading + "\n" + (groupLine + "\n" + ("\n" + (statusText + "\n" + ("\n" + tail))))
      == heading + "\n" + groupLine + "\n\n" + statusText + "\n\n" + tail
  {
    var nl, nl2 := "\n", "\n\n";
    Glue(statusText, tail);
    var y := statusText + nl2 + tail;
    Glue(groupLine, y);
    var w := heading + nl + groupLine + nl2;
    Assoc(heading + nl, groupLine + nl2, y);
    Assoc(heading + nl, groupLine, nl2);
    Assoc(w, statusText + nl2, tail);
    Assoc(w, statusText, nl2);
  }

  lemma Assoc(x: string, y: string, z: string)
    ensures x + (y + z) == x + y + z
  {
  }

  /** A newline followed by a newline-prefixed text is a double newline. */
  lemma Glue(a: string, t: string)
    ensures a + "\n" + ("\n" + t) == a + "\n\n" + t
  {
    assert "\n" + "\n" == "\n\n";
    Assoc(a + "\n", "\n", t);
    Assoc(a, "\n", "\n");
  }

  /** The message is its lines joined by newlines. */
  lemma MessageIsJoinedLines(group: string, day: Day, dayData: Option<DayData>, formattedDate: string, checkTime: string)
    ensures BuildScheduleMessage(group, day, dayData, formattedDate, checkTime)
      == JoinLines(MessageLineList(group, day, dayData, formattedDate, checkTime))
  {
    var publication := if HasPublication(dayData) then Some(PublicationLine(dayData.value.updateTime)) else None;
    JoinLayout(HeadingLine(day, formattedDate), GroupHeading(group), StatusText(group, dayData), publication, CheckedLine(checkTime));
  }

  /** The message, split at its newlines, is: the heading, the group line, a
      blank line, the status line, a blank line, the publication line exactly
      when `updateTime` is non-empty, and the check line last (no newline after it). */
  lemma MessageLines(group: string, day: Day, dayData: Option<DayData>, formattedDate: string, checkTime: string)
    requires '\n' !in group && '\n' !in formattedDate && '\n' !in checkTime
    requires '\n' !in StatusText(group, dayData)
    requires dayData.Some? ==> '\n' !in dayData.value.updateTime
    ensures SplitLines(BuildScheduleMessage(group, day, dayData, formattedDate, checkTime)) ==
      [HeadingLine(day, formattedDate), GroupHeading(group), "", StatusText(group, dayData), ""]
      + (if HasPublication(dayData) then [PublicationLine(dayData.value.updateTime)] else [])
      + [CheckedLine(checkTime)]
  {
    MessageIsJoinedLines(group, day, dayData, formattedDate, checkTime);
    var lines := MessageLineList(group, day, dayData, formattedDate, checkTime);
    LinesHoldNoNewline(group, day, dayData, formattedDate, checkTime);
    SplitJoinLines(lines);
  }

  lemma LinesHoldNoNewline(group: string, day: Day, dayData: Option<DayData>, formattedDate: string, checkTime: string)
    requires '\n' !in group && '\n' !in formattedDate && '\n' !in checkTime
    requires '\n' !in StatusText(group, dayData)
    requires dayData.Some? ==> '\n' !in dayData.value.updateTime
    ensures var lines := MessageLineList(group, day, dayData, formattedDate, checkTime);
      |lines| >= 1 && forall i :: 0 <= i < |lines| ==> '\n' !in lines[i]
  {
    HeadingHoldsNoNewline(day, formattedDate);
    GroupHeadingHoldsNoNewline(group);
    CheckedLineHoldsNoNewline(checkTime);
    if HasPublication(dayData) {
      PublicationLineHoldsNoNewline(dayData.value.updateTime);
    }
  }

  lemma HeadingHoldsNoNewline(day: Day, formattedDate: string)
    requires '\n' !in formattedDate
    ensures '\n' !in HeadingLine(day, formattedDate)
  {
    assert '\n' !in CALENDAR + " **" + SCHEDULE_CAPTION + " " + DayCaption(day) + "** (";
  }

  lemma GroupHeadingHoldsNoNewline(group: string)
    requires '\n' !in group
    ensures '\n' !in GroupHeading(group)
  {
    assert '\n' !in PEOPLE + " **" + GROUP_CAPTION + " ";
  }

  lemma PublicationLineHoldsNoNewline(updateTime: string)
    requires '\n' !in updateTime
    ensures '\n' !in PublicationLine(updateTime)
  {
    assert '\n' !in CLOCK + " _" + DATA_CAPTION + " ";
  }

  lemma CheckedLineHoldsNoNewline(checkTime: string)
    requires '\n' !in checkTime
    ensures '\n' !in CheckedLine(checkTime)
  {
    assert '\n' !in RECYCLE + " _" + CHECKED_CAPTION + " ";
  }
}
