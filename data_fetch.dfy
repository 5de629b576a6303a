/**
 * Schedule extraction from the Lvivoblenergo menu API response.
 *
 * The HTTP request and the JSON decoding happen outside this model: it starts
 * from the decoded response. Cheerio's HTML parsing is the parameter `load`,
 * which flattens an HTML string into the texts of its `<p>` elements and the
 * texts of the `<b>` elements inside paragraphs, both in document order.
 */
module DataFetch {
  import opened Wrappers
  import opened JsString
  import opened GroupLine

  /** `GroupSchedule`: group id to status text. */
  type GroupSchedule = map<string, string>

  datatype DayData = DayData(updateTime: string, schedule: GroupSchedule)

  datatype PowerDataResult = PowerDataResult(today: Option<DayData>, tomorrow: Option<DayData>)

  /** What the extractor reads of an HTML fragment: `$("p")` texts and `$("p b")` texts. */
  datatype Fragment = Fragment(paragraphs: seq<string>, bolds: seq<string>)

  datatype MenuItem = MenuItem(name: string, rawHtml: string)

  /** The value found at `menuItems`: absent (or falsy), present but not an array, or an array. */
  datatype MenuItemsField = Missing | NotAnArray | Items(items: seq<MenuItem>)

  datatype Member = Member(menuItems: MenuItemsField)

  /** The decoded body; `hydraMember` is `data["hydra:member"]`, None when absent. */
  datatype ApiResponse = ApiResponse(hydraMember: Option<seq<Member>>)

  const NO_TIME := "Час не вказано"
  const AS_OF_MARKER := "станом на"
  const AS_OF_LABEL := "Інформація станом на"
  const TODAY := "today"
  const TOMORROW := "tomorrow"

  // ---------------------------------------------------------------------------
  // Group lines
  // ---------------------------------------------------------------------------

  /** A stored status: trimmed, and on one line. */
  ghost predicate IsCleanStatus(s: string) {
    IsTrimmed(s) && NoLineTerminator(s)
  }

  ghost predicate WellFormedSchedule(m: GroupSchedule) {
    forall g :: g in m ==> IsGroupId(g) && IsCleanStatus(m[g])
  }

  /** What one paragraph contributes: the group and the trimmed status when its
      trimmed text matches the group-line pattern, nothing otherwise. */
  function Entry(paragraph: string): Option<(string, string)> {
    match MatchGroupLine(Trim(paragraph))
    case None => None
    case Some((group, status)) => Some((group, Trim(status)))
  }

  /** A paragraph contributes exactly when its trimmed text is a group line
      (label in any case, at least one `\s`, then digits, a dot, digits); what it
      contributes is a group id and a trimmed one-line status. */
  lemma EntryIsGroupLine(paragraph: string)
    ensures Entry(paragraph).Some? <==> StartsGroupLine(Trim(paragraph))
    ensures Entry(paragraph).Some? ==> IsGroupId(Entry(paragraph).value.0) && IsCleanStatus(Entry(paragraph).value.1)
  {
    MatchGroupLineIff(Trim(paragraph));
    if MatchGroupLine(Trim(paragraph)).Some? {
      TrimKeepsNoLineTerminator(MatchGroupLine(Trim(paragraph)).value.1);
    }
  }

  /** Entry `e` writes group `g`. */
  predicate Writes(e: Option<(string, string)>, g: string) {
    e.Some? && e.value.0 == g
  }

  /** The dictionary after applying the entries in order: each one assigns its
      group, so a later entry for a group overwrites an earlier one. */
  function Assign(entries: seq<Option<(string, string)>>): GroupSchedule {
    if entries == [] then map[]
    else
      var m := Assign(entries[..|entries| - 1]);
      match entries[|entries| - 1]
      case None => m
      case Some((group, status)) => m[group := status]
  }

  /** The entries of the paragraphs, in document order. */
  function EntriesOf(paragraphs: seq<string>): (es: seq<Option<(string, string)>>)
    ensures |es| == |paragraphs|
    ensures forall i :: 0 <= i < |paragraphs| ==> es[i] == Entry(paragraphs[i])
  {
    seq(|paragraphs|, i requires 0 <= i < |paragraphs| => Entry(paragraphs[i]))
  }

  /** The dictionary `$("p").each` builds: paragraphs applied in document order. */
  function ScheduleOf(paragraphs: seq<string>): GroupSchedule {
    Assign(EntriesOf(paragraphs))
  }

  /** A group is a key exactly when some entry writes it. */
  lemma {:induction false} AssignKeys(es: seq<Option<(string, string)>>, g: string)
    ensures g in Assign(es) <==> exists i :: 0 <= i < |es| && Writes(es[i], g)
  {
    if es != [] {
      var init := es[..|es| - 1];
      AssignKeys(init, g);
      if g in Assign(es) && !Writes(es[|es| - 1], g) {
        var i :| 0 <= i < |init| && Writes(init[i], g);
        assert es[i] == init[i];
      }
      if (exists i :: 0 <= i < |es| && Writes(es[i], g)) && !Writes(es[|es| - 1], g) {
        var i :| 0 <= i < |es| && Writes(es[i], g);
        assert init[i] == es[i];
      }
    }
  }

  /** The last entry writing a group decides its value. */
  lemma {:induction false} AssignLastWins(es: seq<Option<(string, string)>>, g: string, i: int)
    requires 0 <= i < |es| && Writes(es[i], g)
    requires forall j :: i < j < |es| ==> !Writes(es[j], g)
    ensures g in Assign(es) && Assign(es)[g] == es[i].value.1
  {
    var init := es[..|es| - 1];
    if i < |es| - 1 {
      forall j | i < j < |init| ensures !Writes(init[j], g) {
        assert init[j] == es[j];
      }
      AssignLastWins(init, g, i);
    }
  }

  /** Removing an empty entry does not change the result. */
  lemma {:induction false} AssignSkipsNone(es: seq<Option<(string, string)>>, i: int)
    requires 0 <= i < |es| && es[i].None?
    ensures Assign(es[..i] + es[i + 1..]) == Assign(es)
  {
    var init := es[..|es| - 1];
    if i == |es| - 1 {
      assert es[..i] + es[i + 1..] == init;
    } else {
      var without := es[..i] + es[i + 1..];
      assert without[..|without| - 1] == init[..i] + init[i + 1..];
      assert without[|without| - 1] == es[|es| - 1];
      assert init[i] == es[i];
      AssignSkipsNone(init, i);
    }
  }

  /** Every value assigned is the value of some entry. */
  lemma {:induction false} AssignValues(es: seq<Option<(string, string)>>, g: string)
    requires g in Assign(es)
    ensures exists i :: 0 <= i < |es| && Writes(es[i], g) && Assign(es)[g] == es[i].value.1
  {
    var init := es[..|es| - 1];
    if !Writes(es[|es| - 1], g) {
      AssignValues(init, g);
      var i :| 0 <= i < |init| && Writes(init[i], g) && Assign(init)[g] == init[i].value.1;
      assert es[i] == init[i];
    }
  }

  /** Paragraph `p` names group `g`. */
  predicate Names(p: string, g: string) {
    Writes(Entry(p), g)
  }

  /** Every key is a `\d+\.\d+` capture and every status is trimmed and on one line. */
  lemma ScheduleWellFormed(ps: seq<string>)
    ensures WellFormedSchedule(ScheduleOf(ps))
  {
    var es := EntriesOf(ps);
    forall g | g in ScheduleOf(ps) ensures IsGroupId(g) && IsCleanStatus(ScheduleOf(ps)[g]) {
      AssignValues(es, g);
      var i :| 0 <= i < |es| && Writes(es[i], g) && Assign(es)[g] == es[i].value.1;
      EntryIsGroupLine(ps[i]);
    }
  }

  /** A group is a key exactly when some paragraph names it. */
  lemma ScheduleKeys(ps: seq<string>, g: string)
    ensures g in ScheduleOf(ps) <==> exists i :: 0 <= i < |ps| && Names(ps[i], g)
  {
    var es := EntriesOf(ps);
    AssignKeys(es, g);
    if exists i :: 0 <= i < |es| && Writes(es[i], g) {
      var i :| 0 <= i < |es| && Writes(es[i], g);
      assert Names(ps[i], g);
    }
  }

  /** The last paragraph naming a group decides its status; earlier ones are overwritten. */
  lemma ScheduleLastWins(ps: seq<string>, g: string, i: int)
    requires 0 <= i < |ps| && Names(ps[i], g)
    requires forall j :: i < j < |ps| ==> !Names(ps[j], g)
    ensures g in ScheduleOf(ps) && ScheduleOf(ps)[g] == Entry(ps[i]).value.1
  {
    AssignLastWins(EntriesOf(ps), g, i);
  }

  /** A paragraph that is not a group line leaves the dictionary as it would be without it. */
  lemma ScheduleIgnoresNonGroupLine(ps: seq<string>, i: int)
    requires 0 <= i < |ps| && Entry(ps[i]).None?
    ensures ScheduleOf(ps[..i] + ps[i + 1..]) == ScheduleOf(ps)
  {
    AssignSkipsNone(EntriesOf(ps), i);
    EntriesOfWithout(ps, i);
  }

  /** Removing a paragraph removes its entry and keeps the others in order. */
  lemma EntriesOfWithout(ps: seq<string>, i: int)
    requires 0 <= i < |ps|
    ensures EntriesOf(ps[..i] + ps[i + 1..]) == EntriesOf(ps)[..i] + EntriesOf(ps)[i + 1..]
  {
    var es := EntriesOf(ps);
    var rest := ps[..i] + ps[i + 1..];
    var es' := EntriesOf(rest);
    forall k | 0 <= k < |es'| ensures es'[k] == (es[..i] + es[i + 1..])[k] {
      if k < i {
        assert rest[k] == ps[k];
      } else {
        assert rest[k] == ps[k + 1];
      }
    }
  }

  // ---------------------------------------------------------------------------
  // Publication time
  // ---------------------------------------------------------------------------

  /** `$("p b").filter(text includes "станом на").text()`: the texts of the
      marked bold elements, concatenated in document order. */
  function MarkedText(bolds: seq<string>): (info: string)
    ensures info == [] <==> forall i :: 0 <= i < |bolds| ==> !Contains(bolds[i], AS_OF_MARKER)
  {
    if bolds == [] then ""
    else
      var rest := MarkedText(bolds[1..]);
      assert forall i :: 1 <= i < |bolds| ==> bolds[i] == bolds[1..][i - 1];
      if Contains(bolds[0], AS_OF_MARKER) then
        ContainsNonEmpty(bolds[0], AS_OF_MARKER);
        bolds[0] + rest
      else rest
  }

  // `replace` of the pattern `Інформація станом на\s*` by "": drops the leftmost
  // occurrence of the label together with the `\s` run after it, and nothing else.
  function StripAsOfLabel(s: string): (r: string)
    ensures IndexOf(s, AS_OF_LABEL).None? ==> r == s
    ensures IndexOf(s, AS_OF_LABEL).Some? ==>
      var i := IndexOf(s, AS_OF_LABEL).value;
      exists k :: MaximalRun(s, i + |AS_OF_LABEL|, k, IsJsSpace) && r == s[..i] + s[k..]
  {
    match IndexOf(s, AS_OF_LABEL)
    case None => s
    case Some(i) => s[..i] + s[RunEnd(s, i + |AS_OF_LABEL|, IsJsSpace)..]
  }

  /** The `updateTime` of a fragment: the sentinel when no bold text carries the
      "as of" marker, otherwise the marked texts with the label stripped, trimmed. */
  function UpdateTimeOf(bolds: seq<string>): (u: string)
    ensures (forall i :: 0 <= i < |bolds| ==> !Contains(bolds[i], AS_OF_MARKER)) ==> u == NO_TIME
    ensures (exists i :: 0 <= i < |bolds| && Contains(bolds[i], AS_OF_MARKER)) ==>
      u == Trim(StripAsOfLabel(MarkedText(bolds)))
  {
    var info := MarkedText(bolds);
    if info == "" then NO_TIME else Trim(StripAsOfLabel(info))
  }

  /** The `DayData` the source builds from a fragment. */
  function DayDataOf(fragment: Fragment): DayData {
    DayData(UpdateTimeOf(fragment.bolds), ScheduleOf(fragment.paragraphs))
  }

  /** One more paragraph: its entry, if any, is written over the dictionary so far. */
  lemma ScheduleStep(ps: seq<string>, i: int)
    requires 0 <= i < |ps|
    ensures ScheduleOf(ps[..i + 1]) ==
      match Entry(ps[i])
      case None => ScheduleOf(ps[..i])
      case Some((group, status)) => ScheduleOf(ps[..i])[group := status]
  {
    assert EntriesOf(ps[..i + 1])[..i] == EntriesOf(ps[..i]);
  }

  /** `parseHtmlContent`: the publication time, then the group dictionary filled
      paragraph by paragraph. */
  method ParseHtmlContent(paragraphs: seq<string>, bolds: seq<string>) returns (d: DayData)
    ensures d.updateTime == UpdateTimeOf(bolds)
    ensures d.schedule == ScheduleOf(paragraphs)
    ensures WellFormedSchedule(d.schedule)
  {
    var schedule: GroupSchedule := map[];
    var updateTime := NO_TIME;

    var infoText := MarkedText(bolds);
    if infoText != "" {
      updateTime := Trim(StripAsOfLabel(infoText));
    }

    for i := 0 to |paragraphs|
      invariant schedule == ScheduleOf(paragraphs[..i])
    {
      ScheduleStep(paragraphs, i);
      var text := Trim(paragraphs[i]);
      var m := MatchGroupLine(text);
      if m.Some? {
        var (group, status) := m.value;
        schedule := schedule[group := Trim(status)];
      }
    }
    assert paragraphs[..|paragraphs|] == paragraphs;
    ScheduleWellFormed(paragraphs);
    d := DayData(updateTime, schedule);
  }

  // ---------------------------------------------------------------------------
  // Menu item selection
  // ---------------------------------------------------------------------------

  /** `data["hydra:member"]?.[0]?.menuItems`, when it is an array. */
  function MenuItemsOf(response: ApiResponse): (items: Option<seq<MenuItem>>)
    ensures items.Some? <==>
      response.hydraMember.Some? && |response.hydraMember.value| > 0 && response.hydraMember.value[0].menuItems.Items?
  {
    match response.hydraMember
    case None => None
    case Some(members) =>
      if |members| == 0 then None
      else
        match members[0].menuItems
        case Items(items) => Some(items)
        case _ => None
  }

  /** An item feeds `word`'s slot: its lower-cased name is `word` and its HTML is non-empty. */
  predicate Qualifies(item: MenuItem, word: string) {
    AsciiLower(item.name) == word && item.rawHtml != ""
  }

  /** The index of the last item that qualifies for `word`, if any. */
  function LastQualifying(items: seq<MenuItem>, word: string): (r: Option<nat>)
    ensures r.None? <==> forall i :: 0 <= i < |items| ==> !Qualifies(items[i], word)
    ensures r.Some? ==>
      && r.value < |items|
      && Qualifies(items[r.value], word)
      && forall j :: r.value < j < |items| ==> !Qualifies(items[j], word)
  {
    if items == [] then None
    else if Qualifies(items[|items| - 1], word) then Some(|items| - 1)
    else
      var r := LastQualifying(items[..|items| - 1], word);
      assert forall i :: 0 <= i < |items| - 1 ==> items[..|items| - 1][i] == items[i];
      r
  }

  /** The slot for `word` after the loop: the day data of the last qualifying item. */
  function DayFrom(items: seq<MenuItem>, word: string, load: string -> Fragment): Option<DayData> {
    match LastQualifying(items, word)
    case None => None
    case Some(i) => Some(DayDataOf(load(items[i].rawHtml)))
  }

  /** One more item: it takes `word`'s slot when it qualifies, otherwise the slot stays. */
  lemma DayFromStep(items: seq<MenuItem>, i: int, word: string, load: string -> Fragment)
    requires 0 <= i < |items|
    ensures DayFrom(items[..i + 1], word, load) ==
      if Qualifies(items[i], word) then Some(DayDataOf(load(items[i].rawHtml))) else DayFrom(items[..i], word, load)
  {
    assert items[..i + 1][..i] == items[..i];
  }

  /** `getLvivPowerData` after the HTTP call: null when `menuItems` is missing or
      not an array; otherwise the today/tomorrow slots filled by the last
      qualifying item of each, and null when neither slot is filled. */
  method GetLvivPowerData(response: ApiResponse, load: string -> Fragment) returns (r: Option<PowerDataResult>)
    ensures MenuItemsOf(response).None? ==> r.None?
    ensures MenuItemsOf(response).Some? ==>
      var items := MenuItemsOf(response).value;
      var today, tomorrow := DayFrom(items, TODAY, load), DayFrom(items, TOMORROW, load);
      r == if today.None? && tomorrow.None? then None else Some(PowerDataResult(today, tomorrow))
    ensures r.None? <==>
      || MenuItemsOf(response).None?
      || forall i :: 0 <= i < |MenuItemsOf(response).value| ==>
           !Qualifies(MenuItemsOf(response).value[i], TODAY) && !Qualifies(MenuItemsOf(response).value[i], TOMORROW)
  {
    var menuItems := MenuItemsOf(response);
    if menuItems.None? {
      return None;
    }
    var items := menuItems.value;

    var result := PowerDataResult(None, None);
    for i := 0 to |items|
      invariant result.today == DayFrom(items[..i], TODAY, load)
      invariant result.tomorrow == DayFrom(items[..i], TOMORROW, load)
    {
      DayFromStep(items, i, TODAY, load);
      DayFromStep(items, i, TOMORROW, load);
      var item := items[i];
      var normalizedName := AsciiLower(item.name);
      if normalizedName == TODAY && item.rawHtml != "" {
        var html := load(item.rawHtml);
        var day := ParseHtmlContent(html.paragraphs, html.bolds);
        result := result.(today := Some(day));
      } else if normalizedName == TOMORROW && item.rawHtml != "" {
        var html := load(item.rawHtml);
        var day := ParseHtmlContent(html.paragraphs, html.bolds);
        result := result.(tomorrow := Some(day));
      }
    }
    assert items[..|items|] == items;
    r := if result.today.None? && result.tomorrow.None? then None else Some(result);
  }
}
