/**
 * The view-side helpers of the calendar application: the dates of a month,
 * button identifiers and click detection, the data behind one calendar cell,
 * the session file format, the month-theme waterfall and the two steps of
 * saving an assignment to the persisted layer.
 */
module AppHelpers {
  import opened Wrappers
  import opened Text
  import opened Calendar
  import opened Codec
  import opened Store
  import opened Engine
  import opened Facade

  // ---------------------------------------------------------------------------
  // Month dates
  // ---------------------------------------------------------------------------

  /** `get_month_dates`: the month's date texts, ascending from day 01. */
  function GetMonthDates(year: nat, month: int): (r: seq<string>)
    requires 1 <= month <= 12
    ensures |r| == DaysInMonth(year, month)
    ensures forall k :: 0 <= k < |r| ==> r[k] == DateString(year, month, k + 1)
  {
    seq(DaysInMonth(year, month), k requires 0 <= k < DaysInMonth(year, month) => DateString(year, month, k + 1))
  }

  /**
   * Each listed date lies in the month, carries its own day number, and for a
   * four-digit year is read back by `strptime` as that calendar date.
   */
  lemma MonthDatesMeaning(year: nat, month: int, k: nat)
    requires 1 <= month <= 12 && k < DaysInMonth(year, month)
    ensures MonthPrefix(year, month) <= GetMonthDates(year, month)[k]
    ensures DayField(GetMonthDates(year, month)[k]) == Some(k + 1)
    ensures 1000 <= year <= 9999 ==> ParseDate(GetMonthDates(year, month)[k]) == Some(Date(year, month, k + 1))
  {
    DateStringInMonth(year, month, k + 1);
    DayFieldOfDateString(year, month, k + 1);
    if 1000 <= year <= 9999 {
      ParseDateString(year, month, k + 1);
    }
  }

  /** No date is listed twice. */
  lemma MonthDatesDistinct(year: nat, month: int, k: nat, l: nat)
    requires 1 <= month <= 12 && k < DaysInMonth(year, month) && l < DaysInMonth(year, month) && k != l
    ensures GetMonthDates(year, month)[k] != GetMonthDates(year, month)[l]
  {
    MonthDatesMeaning(year, month, k);
    MonthDatesMeaning(year, month, l);
  }

  // ---------------------------------------------------------------------------
  // Buttons and clicks
  // ---------------------------------------------------------------------------

  function ReplaceChar(s: string, from: char, to: char): (r: string) {
    seq(|s|, i requires 0 <= i < |s| => if s[i] == from then to else s[i])
  }

  /** `make_button_id`: the prefix, `_`, and the date with every `-` turned into `_`. */
  function MakeButtonId(prefix: string, date: string): (id: string)
    ensures |id| == |prefix| + 1 + |date| && id[..|prefix| + 1] == prefix + "_"
    ensures forall i :: 0 <= i < |date| ==> id[|prefix| + 1 + i] == if date[i] == '-' then '_' else date[i]
    ensures '-' !in id[|prefix| + 1..]
  {
    prefix + "_" + ReplaceChar(date, '-', '_')
  }

  lemma ReplaceAbsent(s: string, from: char, to: char)
    requires from !in s
    ensures ReplaceChar(s, from, to) == s
  {
  }

  lemma ReplaceConcat(a: string, b: string, from: char, to: char)
    ensures ReplaceChar(a + b, from, to) == ReplaceChar(a, from, to) + ReplaceChar(b, from, to)
  {
  }

  /** The identifier of a written date spells its three fields apart with `_`. */
  lemma ButtonIdOfDate(prefix: string, y: nat, m: nat, d: nat)
    ensures MakeButtonId(prefix, DateString(y, m, d)) == prefix + "_" + NatToString(y) + "_" + Pad2(m) + "_" + Pad2(d)
  {
    var ys, ms, ds := NatToString(y), Pad2(m), Pad2(d);
    assert '-' !in ys && '-' !in ms && '-' !in ds by {
      assert forall s: string :: AllDigits(s) ==> '-' !in s;
    }
    ReplaceAbsent(ys, '-', '_');
    ReplaceAbsent(ms, '-', '_');
    ReplaceAbsent(ds, '-', '_');
    assert DateString(y, m, d) == ys + "-" + ms + "-" + ds;
    ReplaceConcat(ys + "-" + ms + "-", ds, '-', '_');
    ReplaceConcat(ys + "-" + ms, "-", '-', '_');
    ReplaceConcat(ys + "-", ms, '-', '_');
    ReplaceConcat(ys, "-", '-', '_');
  }

  /** Under one prefix, dates without `_` get distinct identifiers: a button names its date. */
  lemma ButtonIdInjective(prefix: string, d1: string, d2: string)
    requires '_' !in d1 && '_' !in d2
    requires MakeButtonId(prefix, d1) == MakeButtonId(prefix, d2)
    ensures d1 == d2
  {
    var n := |prefix| + 1;
    var r1, r2 := ReplaceChar(d1, '-', '_'), ReplaceChar(d2, '-', '_');
    assert r1 == MakeButtonId(prefix, d1)[n..];
    assert r2 == MakeButtonId(prefix, d2)[n..];
    assert |d1| == |d2|;
    forall i | 0 <= i < |d1|
      ensures d1[i] == d2[i]
    {
      assert r1[i] == r2[i];
    }
  }

  /** `detect_new_click`: the button's counter moved past the last value handled. */
  predicate DetectNewClick(current: int, prev: int) {
    current > prev
  }

  /**
   * How many clicks a view handles over a run of counter readings when, as the
   * application does, it records the reading after each click it handles.
   */
  function Handled(readings: seq<int>, prev: int): nat {
    if readings == [] then 0
    else if DetectNewClick(readings[0], prev) then 1 + Handled(readings[1..], readings[0])
    else Handled(readings[1..], prev)
  }

  /** A counter that never exceeds `top` is handled at most `top - prev` times: no click fires twice. */
  lemma {:induction false} HandledBounded(readings: seq<int>, prev: int, top: int)
    requires forall k :: 0 <= k < |readings| ==> readings[k] <= top
    ensures Handled(readings, prev) <= if top > prev then top - prev else 0
  {
    if readings != [] {
      assert forall k :: 0 <= k < |readings[1..]| ==> readings[1..][k] == readings[k + 1];
      if DetectNewClick(readings[0], prev) {
        HandledBounded(readings[1..], readings[0], top);
      } else {
        HandledBounded(readings[1..], prev, top);
      }
    }
  }

  /** Readings that repeat the last handled value are never handled again. */
  lemma {:induction false} StaleReadingsIgnored(readings: seq<int>, prev: int)
    requires forall k :: 0 <= k < |readings| ==> readings[k] <= prev
    ensures Handled(readings, prev) == 0
  {
    HandledBounded(readings, prev, prev);
  }

  // ---------------------------------------------------------------------------
  // Cells
  // ---------------------------------------------------------------------------

  /** `CellData`: the date's cell, with `""` for the ink fields of a cell without an ink. */
  datatype CellData = CellData(
    date: string, day: int, hasInk: bool, inkIndex: Option<nat>,
    inkName: string, inkBrand: string, inkColor: string,
    canEdit: bool, isApi: bool)

  /** `prepare_cell_data` */
  function PrepareCellData(date: string, day: int, inks: seq<Ink>, daily: Assignments,
                           session: Assignments, api: Assignments): (c: CellData)
    ensures c.date == date && c.day == day
    ensures c.hasInk <==> date in daily && daily[date] < |inks|
    ensures c.hasInk ==> c.inkIndex == Some(daily[date]) && c.inkBrand == inks[daily[date]].brand
    ensures c.hasInk ==> c.inkName == (if inks[daily[date]].nameField.Some? then inks[daily[date]].nameField.value else "Unknown")
    ensures c.hasInk ==> c.inkColor == (if inks[daily[date]].color.Some? then inks[daily[date]].color.value else "#cccccc")
    ensures c.hasInk ==> (c.canEdit <==> date in session && date !in api) && (c.isApi <==> date in api)
    ensures !c.hasInk ==> c == CellData(date, day, false, None, "", "", "", false, false)
  {
    if date in daily && daily[date] < |inks| then
      var ink := inks[daily[date]];
      CellData(date, day, true, Some(daily[date]), ink.nameField.GetOr("Unknown"), ink.brand, ink.color.GetOr("#cccccc"),
               date in session && date !in api, date in api)
    else
      CellData(date, day, false, None, "", "", "", false, false)
  }

  /**
   * Over the merged view, a cell showing an ink is exactly one of editable
   * (a session assignment) or protected (a persisted one), and only a cell
   * showing an ink is either.
   */
  lemma CellKinds(date: string, day: int, inks: seq<Ink>, session: Assignments, api: Assignments)
    ensures var c := PrepareCellData(date, day, inks, Merged(session, api), session, api);
      (c.isApi <==> date in api && api[date] < |inks|) &&
      (c.canEdit <==> date in session && date !in api && session[date] < |inks|) &&
      (c.hasInk ==> (c.canEdit <==> !c.isApi))
  {
  }

  /** `prepare_month_cells`: one cell per day, in day order. */
  function PrepareMonthCells(year: nat, month: int, inks: seq<Ink>, daily: Assignments,
                             session: Assignments, api: Assignments): (r: seq<CellData>)
    requires 1 <= month <= 12
    ensures |r| == |GetMonthDates(year, month)|
    ensures forall k :: 0 <= k < |r| ==> r[k].date == GetMonthDates(year, month)[k] && r[k].day == k + 1
  {
    var dates := GetMonthDates(year, month);
    seq(|dates|, k requires 0 <= k < |dates| => PrepareCellData(dates[k], k + 1, inks, daily, session, api))
  }

  /** Each cell's day is the day its date names, and every cell with an ink shows the merged view's ink. */
  lemma MonthCellsConsistent(year: nat, month: int, inks: seq<Ink>, session: Assignments, api: Assignments, k: nat)
    requires 1 <= month <= 12 && k < DaysInMonth(year, month)
    ensures var c := PrepareMonthCells(year, month, inks, Merged(session, api), session, api)[k];
      DayField(c.date) == Some(c.day) && MonthPrefix(year, month) <= c.date &&
      (c.hasInk ==> c.inkIndex == Some(Merged(session, api)[c.date]))
  {
    MonthDatesMeaning(year, month, k);
  }

  // ---------------------------------------------------------------------------
  // Session files
  // ---------------------------------------------------------------------------

  /** What the application writes to a session file. */
  function SaveFormat(assignments: map<string, Json>, themes: map<string, Json>): map<string, Json> {
    map["assignments" := JObj(assignments), "themes" := JObj(themes)]
  }

  /** `parse_session_data`: the assignments and the themes of a loaded file, old (flat) or new format. */
  function ParseSessionData(loaded: map<string, Json>): (r: (Json, Json))
    ensures "assignments" in loaded ==>
      r.0 == loaded["assignments"] && r.1 == (if "themes" in loaded then loaded["themes"] else JObj(map[]))
    ensures "assignments" !in loaded ==> r == (JObj(loaded), JObj(map[]))
  {
    if "assignments" in loaded then
      (loaded["assignments"], if "themes" in loaded then loaded["themes"] else JObj(map[]))
    else (JObj(loaded), JObj(map[]))
  }

  /** A saved file loads back as what was saved. */
  lemma SessionRoundTrip(assignments: map<string, Json>, themes: map<string, Json>)
    ensures ParseSessionData(SaveFormat(assignments, themes)) == (JObj(assignments), JObj(themes))
  {
  }

  /** An old-format file, whose keys are dates, loads whole as assignments with no themes. */
  lemma OldFormatLoads(loaded: map<string, Json>)
    requires forall k :: k in loaded ==> IsDateText(k)
    ensures ParseSessionData(loaded) == (JObj(loaded), JObj(map[]))
  {
    assert !IsDateText("assignments");
  }

  // ---------------------------------------------------------------------------
  // The month theme
  // ---------------------------------------------------------------------------

  datatype ThemeSource = FromSession | FromApi | NoTheme

  /** `ThemeInfo` */
  datatype ThemeInfo = ThemeInfo(theme: Json, description: Json, source: ThemeSource)

  /** The session's theme text for a month key, `""` when there is none. */
  function SessionThemeText(sessionThemes: Themes, key: string): string {
    if key in sessionThemes then sessionThemes[key].theme.GetOr("") else ""
  }

  /** The ink the merged view binds to the first of the month, when it is in the list. */
  function FirstDayInk(year: nat, month: nat, inks: seq<Ink>, daily: Assignments): (r: Option<nat>)
    ensures r.Some? ==> r.value < |inks|
  {
    var first := FirstOfMonth(year, month);
    if first in daily && daily[first] < |inks| then Some(daily[first]) else None
  }

  /** The first-day ink's comment decodes to an object, as `parse_theme_from_comment` needs. */
  predicate FirstDayReadable(year: nat, month: nat, inks: seq<Ink>, daily: Assignments) {
    FirstDayInk(year, month, inks, daily).Some? ==>
      ObjectComment(inks[FirstDayInk(year, month, inks, daily).value].comment)
  }

  /** `get_month_theme`: the session's theme, else the theme saved on the first day's ink, else none. */
  function GetMonthTheme(year: nat, month: nat, sessionThemes: Themes, inks: seq<Ink>, daily: Assignments): (r: ThemeInfo)
    requires SessionThemeText(sessionThemes, MonthKey(year, month)) == "" ==> FirstDayReadable(year, month, inks, daily)
    ensures r.source == FromSession <==> SessionThemeText(sessionThemes, MonthKey(year, month)) != ""
    ensures r.source == FromSession ==>
      r == ThemeInfo(JStr(SessionThemeText(sessionThemes, MonthKey(year, month))),
                     JStr(sessionThemes[MonthKey(year, month)].description.GetOr("")), FromSession)
    ensures r.source == FromApi <==>
      SessionThemeText(sessionThemes, MonthKey(year, month)) == "" &&
      FirstDayInk(year, month, inks, daily).Some? &&
      ExtractTheme(inks[FirstDayInk(year, month, inks, daily).value].comment, year).Some?
    ensures r.source == FromApi ==>
      var t := ExtractTheme(inks[FirstDayInk(year, month, inks, daily).value].comment, year).value;
      r.theme == t.theme && r.description == t.description && (Truthy(r.theme) || Truthy(r.description))
    ensures r.source == NoTheme ==> r.theme == JStr("") && r.description == JStr("")
  {
    var key := MonthKey(year, month);
    if key in sessionThemes && sessionThemes[key].theme.GetOr("") != "" then
      ThemeInfo(JStr(sessionThemes[key].theme.GetOr("")), JStr(sessionThemes[key].description.GetOr("")), FromSession)
    else if inks == [] then ThemeInfo(JStr(""), JStr(""), NoTheme)
    else
      var idx := FirstDayInk(year, month, inks, daily);
      if idx.None? then ThemeInfo(JStr(""), JStr(""), NoTheme)
      else
        var info := ExtractTheme(inks[idx.value].comment, year);
        if info.None? then ThemeInfo(JStr(""), JStr(""), NoTheme)
        else ThemeInfo(info.value.theme, info.value.description, FromApi)
  }

  // ---------------------------------------------------------------------------
  // Saving
  // ---------------------------------------------------------------------------

  /** `SaveData` */
  datatype SaveData = SaveData(date: string, theme: string, description: string, monthKey: string)

  /**
   * `prepare_save_data`: the session theme of the date's month, keyed by the
   * year argument and the month `strptime` reads; `None` where `strptime` raises.
   */
  function PrepareSaveData(date: string, year: nat, themes: Themes): (r: Option<SaveData>)
    ensures r.None? <==> !IsDateText(date)
    ensures r.Some? ==> r.value.date == date && r.value.monthKey == MonthKey(year, ParseDate(date).value.month)
    ensures r.Some? && r.value.monthKey !in themes ==> r.value.theme == "" && r.value.description == ""
    ensures r.Some? && r.value.monthKey in themes ==>
      r.value.theme == themes[r.value.monthKey].theme.GetOr("") &&
      r.value.description == themes[r.value.monthKey].description.GetOr("")
  {
    match ParseDate(date)
    case None => None
    case Some(d) =>
      var key := MonthKey(year, d.month);
      var entry := if key in themes then themes[key] else ThemeEntry(None, None);
      Some(SaveData(date, entry.theme.GetOr(""), entry.description.GetOr(""), key))
  }

  /**
   * What is saved with a date of the displayed year is the theme the calendar
   * shows for its month from the session.
   */
  lemma SaveCarriesShownTheme(year: nat, month: int, day: nat, themes: Themes, inks: seq<Ink>, daily: Assignments)
    requires 1000 <= year <= 9999 && ValidDate(Date(year, month, day))
    requires SessionThemeText(themes, MonthKey(year, month)) != ""
    ensures PrepareSaveData(DateString(year, month, day), year, themes).Some?
    ensures var s := PrepareSaveData(DateString(year, month, day), year, themes).value;
      s.monthKey == MonthKey(year, month) &&
      GetMonthTheme(year, month, themes, inks, daily) == ThemeInfo(JStr(s.theme), JStr(s.description), FromSession)
  {
    ParseDateString(year, month, day);
  }

  /** `PostSaveUpdates` */
  datatype PostSaveUpdates = PostSaveUpdates(updatedInks: seq<Ink>, newApi: Assignments, newSession: Assignments)

  /** The ink list with one ink's comment replaced. */
  function WithComment(inks: seq<Ink>, idx: nat, comment: CommentText): seq<Ink>
    requires idx < |inks|
  {
    inks[idx := inks[idx].(comment := comment)]
  }

  /**
   * `prepare_post_save_updates`: the saved ink's new comment in a copy of the
   * list, the persisted layer recomputed from it, and the session without the date.
   */
  function PreparePostSaveUpdates(inks: seq<Ink>, idx: nat, comment: CommentText, date: string,
                                  year: nat, session: Assignments): (r: PostSaveUpdates)
    requires idx < |inks| && ReadableInks(WithComment(inks, idx, comment), year)
    ensures |r.updatedInks| == |inks| && r.updatedInks[idx].comment == comment
    ensures r.updatedInks[idx] == inks[idx].(comment := comment)
    ensures forall i :: 0 <= i < |inks| && i != idx ==> r.updatedInks[i] == inks[i]
    ensures r.newApi == Explicit(WithComment(inks, idx, comment), year)
    ensures r.newSession.Keys == session.Keys - {date}
    ensures forall d :: d in r.newSession ==> r.newSession[d] == session[d]
  {
    var updated := WithComment(inks, idx, comment);
    PostSaveUpdates(updated, Explicit(updated, year), session - {date})
  }

  /** The comment the collection holds after a date (and theme) is saved on an ink. */
  function SavedComment(c: CommentText, year: nat, date: string, theme: string, description: string, raw: string): (w: CommentText)
    requires ObjectComment(c) && raw != "" && IsDateText(date) && ParseDate(date).value.year == year
    ensures ReadableDate(w, year) && ExtractDate(w, year) == Some(date)
    ensures theme != "" || description != "" ==> ExtractTheme(w, year) == Some(ThemeRecord(JStr(theme), JStr(description)))
  {
    BuildThenExtractDate(c, year, date, theme, description, raw);
    if theme != "" || description != "" then
      BuildThenExtractTheme(c, year, date, theme, description, raw);
      Written(raw, BuildSwatchComment(c, year, date, theme, description))
    else
      Written(raw, BuildSwatchComment(c, year, date, theme, description))
  }

  /**
   * After a save, the date has moved from the session to the persisted layer,
   * bound to the saved ink unless an earlier ink already claims it, and the
   * merged view of every other session date is unchanged.
   */
  lemma PostSaveMovesDate(inks: seq<Ink>, idx: nat, date: string, theme: string, description: string, raw: string,
                          year: nat, session: Assignments)
    requires idx < |inks| && ReadableInks(inks, year) && raw != ""
    requires IsDateText(date) && ParseDate(date).value.year == year
    requires forall j :: 0 <= j < idx ==> DateOf(inks[j], year) != Some(date)
    ensures var u := PreparePostSaveUpdates(inks, idx, SavedComment(inks[idx].comment, year, date, theme, description, raw),
                                             date, year, session);
      date !in u.newSession && date in u.newApi && u.newApi[date] == idx &&
      Merged(u.newSession, u.newApi)[date] == idx &&
      forall d :: d in session && d != date ==> d in u.newSession && u.newSession[d] == session[d]
  {
    var w := SavedComment(inks[idx].comment, year, date, theme, description, raw);
    var updated := WithComment(inks, idx, w);
    ExplicitMember(updated, year, date);
    ExplicitFirstWriter(updated, year, date);
    assert DateOf(updated[idx], year) == Some(date);
  }

  /**
   * Saving the first of a month with a theme makes the calendar show that
   * theme from the persisted layer once no session theme covers the month.
   */
  lemma SavedThemeShown(inks: seq<Ink>, idx: nat, year: nat, month: int, theme: string, description: string, raw: string,
                        session: Assignments, themes: Themes)
    requires idx < |inks| && ReadableInks(inks, year) && raw != ""
    requires 1000 <= year <= 9999 && 1 <= month <= 12 && theme != ""
    requires forall j :: 0 <= j < idx ==> DateOf(inks[j], year) != Some(FirstOfMonth(year, month))
    requires SessionThemeText(themes, MonthKey(year, month)) == ""
    ensures ParseDate(FirstOfMonth(year, month)) == Some(Date(year, month, 1))
    ensures var u := PreparePostSaveUpdates(inks, idx,
              SavedComment(inks[idx].comment, year, FirstOfMonth(year, month), theme, description, raw),
              FirstOfMonth(year, month), year, session);
      FirstDayReadable(year, month, u.updatedInks, Merged(u.newSession, u.newApi)) &&
      GetMonthTheme(year, month, themes, u.updatedInks, Merged(u.newSession, u.newApi))
        == ThemeInfo(JStr(theme), JStr(description), FromApi)
  {
    var date := FirstOfMonth(year, month);
    ParseDateString(year, month, 1);
    assert date == DateString(year, month, 1);
    PostSaveMovesDate(inks, idx, date, theme, description, raw, year, session);
  }
}
