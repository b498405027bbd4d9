/**
 * The chat agent's tool set: a snapshot of the reactive state (inks, year,
 * session and persisted assignments, session themes) taken before each
 * agent turn, and twelve tools that read it and, on success, write a new
 * session or theme map both to the reactive cell and to the snapshot.
 */
module Facade {
  import opened Wrappers
  import opened Text
  import opened Calendar
  import opened Codec
  import opened Store
  import opened Engine
  import opened ToolSpec

  /** A month's theme as the session holds it; either key may be missing from a loaded file. */
  datatype ThemeEntry = ThemeEntry(theme: Option<string>, description: Option<string>)

  /** Month key `YYYY-MM` to theme. */
  type Themes = map<string, ThemeEntry>

  datatype ToolError =
    | NoInks                                     // "No inks available in collection"
    | InvalidMonth(month: int)                   // "Invalid month: ... Must be 1-12."
    | InkNotFound(identifier: string)            // "Could not find ink matching ..."
    | MoveFailed(failure: Failure)               // the mutation engine's own failure
    | NotEnoughDays(needed: nat, available: nat) // "Not enough days. ..."
    | NoThemeStorage                             // "Theme storage not available"
    | EmptyTheme                                 // "Theme name cannot be empty"

  /** A tool's reply: `success: True` with its data, or `success: False` with the reason. */
  datatype Reply<T> = Ok(value: T) | Err(error: ToolError)

  datatype Listing = Listing(index: nat, alreadyAssigned: bool)

  datatype MonthEntry = MonthEntry(date: string, day: int, inkIndex: nat, isProtected: bool)

  datatype MonthView = MonthView(month: int, year: nat, daysInMonth: nat, entries: seq<MonthEntry>, assignedDays: nat, unassignedDays: int)

  datatype BulkReport = BulkReport(success: bool, outcomes: seq<BulkOutcome>, written: nat, notFound: nat, alreadyAssigned: nat)

  datatype ClearReport = ClearReport(success: bool, removed: seq<string>, protectedDates: seq<string>)

  datatype MonthTally = MonthTally(month: int, daysInMonth: nat, assignedDays: nat, fromApi: nat, fromSession: nat, unassigned: int)

  datatype YearSummary = YearSummary(year: nat, totalInks: nat, totalDays: nat, totalAssigned: nat, totalUnassigned: int, months: seq<MonthTally>)

  datatype AvailableInk = AvailableInk(index: nat, sessionAssigned: bool, currentDate: Option<string>)

  datatype ThemeSearch = ThemeSearch(unassigned: nat, sessionAssigned: nat, apiAssigned: nat, found: seq<AvailableInk>)

  datatype ThemeView = ThemeView(theme: Option<string>, description: Option<string>, fromSession: bool)

  /** The row `get_month_assignments` lists for a date of the merged view. */
  function EntryOf(merged: Assignments, api: Assignments, date: string): MonthEntry
    requires date in merged && DayField(date).Some?
  {
    MonthEntry(date, DayField(date).value, merged[date], date in api)
  }

  predicate SortedByDay(s: seq<MonthEntry>) {
    forall k, l :: 0 <= k < l < |s| ==> s[k].day <= s[l].day
  }

  predicate DistinctDates(s: seq<MonthEntry>) {
    forall k, l :: 0 <= k < l < |s| ==> s[k].date != s[l].date
  }

  /** Stable insertion by day: after every entry whose day is not larger. */
  method InsertByDay(s: seq<MonthEntry>, e: MonthEntry) returns (t: seq<MonthEntry>, pos: nat)
    requires SortedByDay(s)
    ensures pos <= |s| && t == s[..pos] + [e] + s[pos..]
    ensures SortedByDay(t) && multiset(t) == multiset(s) + multiset{e}
    ensures forall k :: 0 <= k < pos ==> s[k].day <= e.day
    ensures forall k :: pos <= k < |s| ==> e.day < s[k].day
  {
    pos := 0;
    while pos < |s| && s[pos].day <= e.day
      invariant pos <= |s|
      invariant forall k :: 0 <= k < pos ==> s[k].day <= e.day
    {
      pos := pos + 1;
    }
    t := s[..pos] + [e] + s[pos..];
    InsertSorted(s, e, pos);
    InsertMultiset(s, e, pos);
  }

  lemma InsertSorted(s: seq<MonthEntry>, e: MonthEntry, pos: nat)
    requires pos <= |s| && SortedByDay(s)
    requires forall k :: 0 <= k < pos ==> s[k].day <= e.day
    requires forall k :: pos <= k < |s| ==> e.day < s[k].day
    ensures SortedByDay(s[..pos] + [e] + s[pos..])
  {
    var t := s[..pos] + [e] + s[pos..];
    assert forall k :: 0 <= k < |t| ==> t[k] == if k < pos then s[k] else if k == pos then e else s[k - 1];
  }

  lemma InsertMultiset(s: seq<MonthEntry>, e: MonthEntry, pos: nat)
    requires pos <= |s|
    ensures multiset(s[..pos] + [e] + s[pos..]) == multiset(s) + multiset{e}
  {
    assert s == s[..pos] + s[pos..];
  }

  lemma InsertKeepsDistinct(s: seq<MonthEntry>, e: MonthEntry, pos: nat)
    requires pos <= |s| && DistinctDates(s)
    requires forall x :: x in s ==> x.date != e.date
    ensures DistinctDates(s[..pos] + [e] + s[pos..])
  {
    var t := s[..pos] + [e] + s[pos..];
    assert forall k :: 0 <= k < |t| ==> t[k] == if k < pos then s[k] else if k == pos then e else s[k - 1];
  }

  /** Inserting the next entry of a list with distinct dates keeps the sorted prefix's dates distinct. */
  lemma SortStepDistinct(s: seq<MonthEntry>, i: nat, t: seq<MonthEntry>, pos: nat)
    requires i < |s| && DistinctDates(s) && DistinctDates(t)
    requires multiset(t) == multiset(s[..i]) && pos <= |t|
    ensures DistinctDates(t[..pos] + [s[i]] + t[pos..])
  {
    forall x | x in t
      ensures x.date != s[i].date
    {
      assert x in multiset(s[..i]);
      var j :| 0 <= j < i && s[j] == x;
    }
    InsertKeepsDistinct(t, s[i], pos);
  }

  /** `assignments.sort(key=lambda x: x["day"])`, as an insertion sort: each entry goes after those with a day not larger. */
  method SortByDay(s: seq<MonthEntry>) returns (t: seq<MonthEntry>)
    ensures SortedByDay(t) && multiset(t) == multiset(s)
    ensures DistinctDates(s) ==> DistinctDates(t)
  {
    t := [];
    for i := 0 to |s|
      invariant SortedByDay(t) && multiset(t) == multiset(s[..i])
      invariant DistinctDates(s) ==> DistinctDates(t)
    {
      if DistinctDates(s) {
        SortStepDistinct(s, i, t, |t|);
      }
      ghost var before := t;
      var pos;
      t, pos := InsertByDay(t, s[i]);
      if DistinctDates(s) {
        SortStepDistinct(s, i, before, pos);
      }
      assert s[..i + 1] == s[..i] + [s[i]];
    }
    assert s[..|s|] == s;
  }

  /**
   * The filtering loop of `get_month_assignments`: one entry per date of the
   * merged view under the month's prefix whose ink exists.
   */
  method CollectMonthEntries(merged: Assignments, api: Assignments, prefix: string, inkCount: nat) returns (entries: seq<MonthEntry>)
    requires ListedDaysReadable(merged, prefix, inkCount)
    ensures DistinctDates(entries)
    ensures forall e :: e in entries ==> e.date in MonthListed(merged, prefix, inkCount) && e == EntryOf(merged, api, e.date)
    ensures forall d :: d in MonthListed(merged, prefix, inkCount) ==> EntryOf(merged, api, d) in entries
  {
    entries := [];
    var rest := merged.Keys;
    ghost var done: set<string> := {};
    while rest != {}
      invariant rest + done == merged.Keys && rest !! done
      invariant DistinctDates(entries)
      invariant forall e :: e in entries ==> e.date in done && e.date in MonthListed(merged, prefix, inkCount) && e == EntryOf(merged, api, e.date)
      invariant forall d :: d in done && d in MonthListed(merged, prefix, inkCount) ==> EntryOf(merged, api, d) in entries
      decreases rest
    {
      var date :| date in rest;
      if prefix <= date && merged[date] < inkCount {
        entries := entries + [EntryOf(merged, api, date)];
      }
      rest := rest - {date};
      done := done + {date};
    }
  }

  lemma CountsAppend(outcomes: seq<BulkOutcome>, o: BulkOutcome)
    ensures CountWritten(outcomes + [o]) == CountWritten(outcomes) + (if o.Written? then 1 else 0)
    ensures CountNotFound(outcomes + [o]) == CountNotFound(outcomes) + (if o.NotFound? then 1 else 0)
    ensures CountAlreadyAssigned(outcomes + [o]) == CountAlreadyAssigned(outcomes) + (if o.AlreadyAssigned? then 1 else 0)
  {
    assert (outcomes + [o])[..|outcomes|] == outcomes;
  }

  lemma UpdateUnion<K, V>(a: map<K, V>, b: map<K, V>, k: K, v: V)
    ensures (a + b)[k := v] == a + b[k := v]
  {
  }

  /** The loop of `bulk_assign_month`, over a session copy and the set of taken inks. */
  method RunBulk(ids: seq<string>, inks: seq<Ink>, days: seq<nat>, year: nat, month: nat, taken0: set<nat>, session0: Assignments)
    returns (outcomes: seq<BulkOutcome>, newSession: Assignments, written: nat, notFound: nat, alreadyAssigned: nat)
    requires |ids| <= |days|
    ensures outcomes == Bulk(ids, inks, days, year, month, taken0, |ids|).outcomes
    ensures newSession == session0 + Bulk(ids, inks, days, year, month, taken0, |ids|).writes
    ensures written == CountWritten(outcomes) && notFound == CountNotFound(outcomes)
    ensures alreadyAssigned == CountAlreadyAssigned(outcomes)
  {
    outcomes := [];
    newSession := session0;
    var assignedIndices := taken0;
    ghost var writes: Assignments := map[];
    written, notFound, alreadyAssigned := 0, 0, 0;
    for i := 0 to |ids|
      invariant BulkState(outcomes, assignedIndices, writes) == Bulk(ids, inks, days, year, month, taken0, i)
      invariant newSession == session0 + writes
      invariant written == CountWritten(outcomes) && notFound == CountNotFound(outcomes)
      invariant alreadyAssigned == CountAlreadyAssigned(outcomes)
    {
      if i >= |days| {
        break;
      }
      ghost var o := Classify(ids[i], inks, assignedIndices, days[i]);
      assert Bulk(ids, inks, days, year, month, taken0, i + 1) ==
        BulkState(outcomes + [o], if o.Written? then assignedIndices + {o.index} else assignedIndices,
                  if o.Written? then writes[DateString(year, month, o.day) := o.index] else writes);
      CountsAppend(outcomes, o);
      var found := FindInkByName(ids[i], inks);
      if found.None? {
        outcomes := outcomes + [NotFound(ids[i])];
        notFound := notFound + 1;
        continue;
      }
      var idx := found.value;
      if idx in assignedIndices {
        outcomes := outcomes + [BulkOutcome.AlreadyAssigned(ids[i], idx)];
        alreadyAssigned := alreadyAssigned + 1;
        continue;
      }
      var day := days[i];
      var date := DateString(year, month, day);
      UpdateUnion(session0, writes, date, idx);
      newSession := newSession[date := idx];
      writes := writes[date := idx];
      assignedIndices := assignedIndices + {idx};
      outcomes := outcomes + [Written(ids[i], idx, day)];
      written := written + 1;
    }
  }

  /**
   * `bulk_assign_month`: the reply and the session afterwards. The month
   * must be valid and the collection non-empty; when there are fewer free
   * days in the merged view than identifiers nothing is written; otherwise
   * the identifiers are taken in order against the free days, and the
   * session gains the writes when there is at least one.
   */
  function BulkResult(ids: seq<string>, inks: seq<Ink>, session: Assignments, api: Assignments, y: nat, month: int): (r: (Reply<BulkReport>, Assignments))
    requires ValidMonth(month) && inks != [] ==> DaysReadable(Merged(session, api), MonthPrefix(y, month))
    ensures !ValidMonth(month) ==> r.0 == Err(InvalidMonth(month))
    ensures ValidMonth(month) && inks == [] ==> r.0 == Err(NoInks)
    ensures ValidMonth(month) && inks != [] ==>
      var free := |FreeDays(OccupiedDays(Merged(session, api), MonthPrefix(y, month)), DaysInMonth(y, month))|;
      (|ids| > free <==> r.0 == Err(NotEnoughDays(|ids|, free))) && (|ids| <= free <==> r.0.Ok?)
    ensures r.0.Ok? ==> |r.0.value.outcomes| == |ids|
    ensures r.0.Ok? ==> r.0.value.written + r.0.value.notFound + r.0.value.alreadyAssigned == |ids|
    ensures r.0.Ok? ==>
      (r.0.value.success <==> exists k :: 0 <= k < |r.0.value.outcomes| && r.0.value.outcomes[k].Written?)
    ensures !(r.0.Ok? && r.0.value.success) ==> r.1 == session
  {
    if !ValidMonth(month) then (Err(InvalidMonth(month)), session)
    else if inks == [] then (Err(NoInks), session)
    else
      var days := FreeDays(OccupiedDays(Merged(session, api), MonthPrefix(y, month)), DaysInMonth(y, month));
      if |ids| > |days| then (Err(NotEnoughDays(|ids|, |days|)), session)
      else
        var st := Bulk(ids, inks, days, y, month, Merged(session, api).Values, |ids|);
        var written := CountWritten(st.outcomes);
        BucketsPartition(st.outcomes);
        SomeWrittenIffCount(st.outcomes);
        (Ok(BulkReport(written > 0, st.outcomes, written, CountNotFound(st.outcomes), CountAlreadyAssigned(st.outcomes))),
         if written > 0 then session + st.writes else session)
  }

  /** The body of `bulk_assign_month` after the year default: validation, the free days, then the loop. */
  method AssignMonth(ids: seq<string>, inks: seq<Ink>, session: Assignments, api: Assignments, y: nat, month: int)
    returns (r: Reply<BulkReport>, newSession: Assignments)
    requires ValidMonth(month) && inks != [] ==> DaysReadable(Merged(session, api), MonthPrefix(y, month))
    ensures (r, newSession) == BulkResult(ids, inks, session, api, y, month)
  {
    newSession := session;
    if !ValidMonth(month) {
      return Err(InvalidMonth(month)), newSession;
    }
    if |inks| == 0 {
      return Err(NoInks), newSession;
    }
    var daysInMonth := DaysInMonth(y, month);
    var merged := Merged(session, api);
    var occupiedDays := OccupiedDays(merged, MonthPrefix(y, month));
    var availableDays := FreeDays(occupiedDays, daysInMonth);
    if |ids| > |availableDays| {
      return Err(NotEnoughDays(|ids|, |availableDays|)), newSession;
    }
    var outcomes, candidate, written, notFound, alreadyAssigned :=
      RunBulk(ids, inks, availableDays, y, month, merged.Values, session);
    if written > 0 {
      newSession := candidate;
    }
    r := Ok(BulkReport(written > 0, outcomes, written, notFound, alreadyAssigned));
  }

  /**
   * A bulk assignment never touches an existing session entry and writes
   * only dates of the month that no layer held: the persisted layer is never
   * shadowed.
   */
  lemma BulkResultOnlyAddsFreeDates(ids: seq<string>, inks: seq<Ink>, session: Assignments, api: Assignments, y: nat, month: int)
    requires ValidMonth(month) && inks != [] ==> DaysReadable(Merged(session, api), MonthPrefix(y, month))
    ensures forall d :: d in session ==>
      (d in BulkResult(ids, inks, session, api, y, month).1 && BulkResult(ids, inks, session, api, y, month).1[d] == session[d])
    ensures forall d :: d in BulkResult(ids, inks, session, api, y, month).1 && d !in session ==>
      (d !in api && MonthPrefix(y, month) <= d)
  {
    if ValidMonth(month) && inks != [] {
      var merged := Merged(session, api);
      var days := FreeDays(OccupiedDays(merged, MonthPrefix(y, month)), DaysInMonth(y, month));
      if |ids| <= |days| {
        BulkWritesFreeDates(merged, ids, inks, days, y, month, merged.Values);
        BulkWritesOnly(ids, inks, days, y, month, merged.Values, |ids|);
        var st := Bulk(ids, inks, days, y, month, merged.Values, |ids|);
        forall d | d in st.writes
          ensures MonthPrefix(y, month) <= d
        {
          var k :| 0 <= k < |ids| && st.outcomes[k].Written? && d == DateString(y, month, days[k]);
          DateStringInMonth(y, month, days[k]);
        }
      }
    }
  }

  /** The first loop of `clear_month_assignments`: the persisted dates under the prefix whose ink exists. */
  method ProtectedDates(api: Assignments, prefix: string, inkCount: nat) returns (dates: seq<string>)
    ensures forall d :: d in dates <==> d in api && prefix <= d && api[d] < inkCount
    ensures forall k, l :: 0 <= k < l < |dates| ==> dates[k] != dates[l]
  {
    dates := [];
    var rest := api.Keys;
    ghost var done: set<string> := {};
    while rest != {}
      invariant rest + done == api.Keys && rest !! done
      invariant forall d :: d in dates <==> d in done && prefix <= d && api[d] < inkCount
      invariant forall k, l :: 0 <= k < l < |dates| ==> dates[k] != dates[l]
      decreases rest
    {
      var date :| date in rest;
      if prefix <= date && api[date] < inkCount {
        dates := dates + [date];
      }
      rest := rest - {date};
      done := done + {date};
    }
  }

  /** The second loop of `clear_month_assignments`: delete every session key under the prefix. */
  method RemoveMonth(session: Assignments, prefix: string) returns (removed: seq<string>, newSession: Assignments)
    ensures forall d :: d in removed <==> d in session && prefix <= d
    ensures forall k, l :: 0 <= k < l < |removed| ==> removed[k] != removed[l]
    ensures newSession == map d | d in session && !(prefix <= d) :: session[d]
  {
    removed := [];
    newSession := session;
    var rest := session.Keys;
    ghost var done: set<string> := {};
    while rest != {}
      invariant rest + done == session.Keys && rest !! done
      invariant forall d :: d in removed <==> d in done && prefix <= d
      invariant forall k, l :: 0 <= k < l < |removed| ==> removed[k] != removed[l]
      invariant forall d :: d in newSession <==> d in session && !(d in done && prefix <= d)
      invariant forall d :: d in newSession ==> newSession[d] == session[d]
      decreases rest
    {
      var date :| date in rest;
      if prefix <= date {
        removed := removed + [date];
        newSession := newSession - {date};
      }
      rest := rest - {date};
      done := done + {date};
    }
  }

  /** The twelve month counts of one layer after counting one more key. */
  function Bumped(counts: seq<nat>, date: string, api: Assignments, monthOf: string -> Option<int>, layer: Layer): (r: seq<nat>)
    requires |counts| == 12 && (monthOf(date).Some? ==> ValidMonth(monthOf(date).value))
    ensures |r| == 12
    ensures forall k :: 0 <= k < 12 ==>
      r[k] == counts[k] + (if monthOf(date) == Some(k + 1) && InLayer(date, api, layer) then 1 else 0)
  {
    if monthOf(date).Some? && InLayer(date, api, layer) then
      counts[monthOf(date).value - 1 := counts[monthOf(date).value - 1] + 1]
    else counts
  }

  /** Per-month counts of the keys seen so far, for one layer. */
  ghost predicate Tallied(counts: seq<nat>, seen: set<string>, api: Assignments, monthOf: string -> Option<int>, layer: Layer) {
    |counts| == 12 && forall k :: 0 <= k < 12 ==> counts[k] == |Filter(seen, CountsUnder(monthOf, api, k + 1, layer))|
  }

  lemma TallyGrow(counts: seq<nat>, seen: set<string>, date: string, api: Assignments, monthOf: string -> Option<int>, layer: Layer)
    requires date !in seen && Tallied(counts, seen, api, monthOf, layer)
    requires monthOf(date).Some? ==> ValidMonth(monthOf(date).value)
    ensures Tallied(Bumped(counts, date, api, monthOf, layer), seen + {date}, api, monthOf, layer)
  {
    forall k | 0 <= k < 12 {
      FilterGrow(seen, date, CountsUnder(monthOf, api, k + 1, layer));
    }
  }

  /** The body of the counting loop: count one key under its month, in its layer. */
  method CountKey(totals: seq<nat>, apiCounts: seq<nat>, sessionCounts: seq<nat>, totalAssigned: nat,
                  date: string, api: Assignments, monthOf: string -> Option<int>)
    returns (totals': seq<nat>, apiCounts': seq<nat>, sessionCounts': seq<nat>, totalAssigned': nat)
    requires |totals| == 12 && |apiCounts| == 12 && |sessionCounts| == 12
    requires monthOf(date).Some? ==> ValidMonth(monthOf(date).value)
    ensures totals' == Bumped(totals, date, api, monthOf, AnyLayer)
    ensures apiCounts' == Bumped(apiCounts, date, api, monthOf, ApiLayer)
    ensures sessionCounts' == Bumped(sessionCounts, date, api, monthOf, SessionLayer)
    ensures totalAssigned' == totalAssigned + (if CountsInYear(monthOf)(date) then 1 else 0)
  {
    totals', apiCounts', sessionCounts', totalAssigned' := totals, apiCounts, sessionCounts, totalAssigned;
    var month := monthOf(date);
    if month.Some? {
      var m := month.value;
      totals' := totals'[m - 1 := totals'[m - 1] + 1];
      if date in api {
        apiCounts' := apiCounts'[m - 1 := apiCounts'[m - 1] + 1];
      } else {
        sessionCounts' := sessionCounts'[m - 1 := sessionCounts'[m - 1] + 1];
      }
      totalAssigned' := totalAssigned' + 1;
    }
  }

  /**
   * The counting loop of `get_current_assignments_summary`: per month, the
   * keys counted under it, those of the persisted layer and those of the
   * session only, and the keys counted at all. `monthOf` is the month a key
   * counts under (the tool passes `KeyMonth` for its year).
   */
  method TallyMonths(keys: set<string>, api: Assignments, monthOf: string -> Option<int>)
    returns (totals: seq<nat>, apiCounts: seq<nat>, sessionCounts: seq<nat>, totalAssigned: nat)
    requires forall d :: d in keys && monthOf(d).Some? ==> ValidMonth(monthOf(d).value)
    ensures |totals| == 12 && |apiCounts| == 12 && |sessionCounts| == 12
    ensures forall k :: 0 <= k < 12 ==> totals[k] == |Filter(keys, CountsUnder(monthOf, api, k + 1, AnyLayer))|
    ensures forall k :: 0 <= k < 12 ==> apiCounts[k] == |Filter(keys, CountsUnder(monthOf, api, k + 1, ApiLayer))|
    ensures forall k :: 0 <= k < 12 ==> sessionCounts[k] == |Filter(keys, CountsUnder(monthOf, api, k + 1, SessionLayer))|
    ensures totalAssigned == |Filter(keys, CountsInYear(monthOf))|
  {
    totals, apiCounts, sessionCounts := seq(12, _ => 0), seq(12, _ => 0), seq(12, _ => 0);
    totalAssigned := 0;
    var rest := keys;
    while rest != {}
      invariant rest <= keys
      invariant Tallied(totals, keys - rest, api, monthOf, AnyLayer)
      invariant Tallied(apiCounts, keys - rest, api, monthOf, ApiLayer)
      invariant Tallied(sessionCounts, keys - rest, api, monthOf, SessionLayer)
      invariant totalAssigned == |Filter(keys - rest, CountsInYear(monthOf))|
      decreases rest
    {
      var date :| date in rest;
      ghost var done := keys - rest;
      TallyGrow(totals, done, date, api, monthOf, AnyLayer);
      TallyGrow(apiCounts, done, date, api, monthOf, ApiLayer);
      TallyGrow(sessionCounts, done, date, api, monthOf, SessionLayer);
      FilterGrow(done, date, CountsInYear(monthOf));
      totals, apiCounts, sessionCounts, totalAssigned := CountKey(totals, apiCounts, sessionCounts, totalAssigned, date, api, monthOf);
      assert keys - (rest - {date}) == done + {date};
      rest := rest - {date};
    }
    assert keys - rest == keys;
  }

  /** One month's line of the summary: its days, the keys counted under it, split by layer, and the days left. */
  ghost predicate TallyOf(t: MonthTally, m: int, merged: Assignments, api: Assignments, y: nat)
    requires ValidMonth(m)
  {
    t.month == m && t.daysInMonth == DaysInMonth(y, m) &&
    t.assignedDays == |Filter(merged.Keys, CountsUnder(YearMonthOf(y), api, m, AnyLayer))| &&
    t.fromApi == |Filter(merged.Keys, CountsUnder(YearMonthOf(y), api, m, ApiLayer))| &&
    t.fromSession == |Filter(merged.Keys, CountsUnder(YearMonthOf(y), api, m, SessionLayer))| &&
    t.fromApi + t.fromSession == t.assignedDays &&
    t.unassigned == t.daysInMonth - t.assignedDays
  }

  /** The year summary: twelve month lines, the year's length, and the keys counted in the year. */
  ghost predicate SummaryOf(v: YearSummary, inkCount: nat, merged: Assignments, api: Assignments, y: nat) {
    v.year == y && v.totalInks == inkCount &&
    v.totalDays == (if IsLeapYear(y) then 366 else 365) &&
    v.totalAssigned == |Filter(merged.Keys, CountsInYear(YearMonthOf(y)))| &&
    v.totalUnassigned == v.totalDays - v.totalAssigned &&
    |v.months| == 12 &&
    forall k :: 0 <= k < 12 ==> TallyOf(v.months[k], k + 1, merged, api, y)
  }

  /** The loop that builds `monthly_summary`, and the sum of the month lengths. */
  method LayOutMonths(totals: seq<nat>, apiCounts: seq<nat>, sessionCounts: seq<nat>, y: nat) returns (months: seq<MonthTally>, totalDays: nat)
    requires |totals| == 12 && |apiCounts| == 12 && |sessionCounts| == 12
    ensures |months| == 12 && totalDays == (if IsLeapYear(y) then 366 else 365)
    ensures forall k :: 0 <= k < 12 ==>
      months[k] == MonthTally(k + 1, DaysInMonth(y, k + 1), totals[k], apiCounts[k], sessionCounts[k], DaysInMonth(y, k + 1) as int - totals[k])
  {
    months := [];
    totalDays := 0;
    for k := 0 to 12
      invariant |months| == k
      invariant totalDays == DaysBefore(y, k)
      invariant forall j :: 0 <= j < k ==>
        months[j] == MonthTally(j + 1, DaysInMonth(y, j + 1), totals[j], apiCounts[j], sessionCounts[j], DaysInMonth(y, j + 1) as int - totals[j])
    {
      var daysInMonth := DaysInMonth(y, k + 1);
      months := months + [MonthTally(k + 1, daysInMonth, totals[k], apiCounts[k], sessionCounts[k], daysInMonth as int - totals[k])];
      totalDays := totalDays + daysInMonth;
    }
    YearLength(y);
  }

  /**
   * `get_current_assignments_summary` once the collection is known to be
   * non-empty: count the merged keys of year y per month and layer, then
   * lay out the twelve months.
   */
  method SummarizeYear(inkCount: nat, merged: Assignments, api: Assignments, y: nat) returns (v: YearSummary)
    requires forall d :: d in merged && YearMonthOf(y)(d).Some? ==> ValidMonth(YearMonthOf(y)(d).value)
    ensures SummaryOf(v, inkCount, merged, api, y)
  {
    var totals, apiCounts, sessionCounts, totalAssigned := TallyMonths(merged.Keys, api, YearMonthOf(y));
    forall k | 0 <= k < 12
      ensures apiCounts[k] + sessionCounts[k] == totals[k]
    {
      LayersSplit(merged.Keys, api, YearMonthOf(y), k + 1);
    }
    var months, totalDays := LayOutMonths(totals, apiCounts, sessionCounts, y);
    v := YearSummary(y, inkCount, totalDays, totalAssigned, totalDays as int - totalAssigned, months);
  }

  /** An ink `find_available_inks_for_theme` may offer: not persisted, and not session-bound unless asked for. */
  predicate Eligible(session: Assignments, api: Assignments, i: nat, includeSession: bool) {
    i !in api.Values && (includeSession || i !in session.Values)
  }

  /** What an offered ink carries: its session binding and, when that date is non-empty, the date. */
  predicate WellOffered(session: Assignments, e: AvailableInk) {
    (e.sessionAssigned <==> e.index in session.Values) &&
    (e.currentDate.Some? ==> e.currentDate.value in session && session[e.currentDate.value] == e.index && e.currentDate.value != "") &&
    (e.sessionAssigned && e.currentDate.None? ==> "" in session && session[""] == e.index) &&
    (!e.sessionAssigned ==> e.currentDate.None?)
  }

  /**
   * One candidate of `find_available_inks_for_theme` that is not persisted:
   * its offer, carrying the session date when it has a non-empty one, or
   * nothing when it fails the filters.
   */
  method OfferFor(inks: seq<Ink>, session: Assignments, matchesFilters: Ink -> bool, idx: nat, sessionBound: bool)
    returns (offer: Option<AvailableInk>)
    requires idx < |inks| && (sessionBound <==> idx in session.Values)
    ensures offer.Some? <==> matchesFilters(inks[idx])
    ensures offer.Some? ==> offer.value.index == idx && WellOffered(session, offer.value)
  {
    var currentDate: Option<string> := None;
    if sessionBound {
      var date :| date in session && session[date] == idx;
      currentDate := if date != "" then Some(date) else None;
    }
    if !matchesFilters(inks[idx]) {
      return None;
    }
    return Some(AvailableInk(idx, sessionBound, currentDate));
  }

  /** `found` offers, in order, exactly the eligible inks among the first n that pass the filters. */
  ghost predicate OffersUpTo(inks: seq<Ink>, session: Assignments, api: Assignments, matchesFilters: Ink -> bool,
                             includeSession: bool, found: seq<AvailableInk>, n: nat) {
    n <= |inks| &&
    (forall k, l :: 0 <= k < l < |found| ==> found[k].index < found[l].index) &&
    (forall k :: 0 <= k < |found| ==>
      found[k].index < n && Eligible(session, api, found[k].index, includeSession) &&
      matchesFilters(inks[found[k].index]) && WellOffered(session, found[k])) &&
    (forall i :: 0 <= i < n && Eligible(session, api, i, includeSession) && matchesFilters(inks[i]) ==>
      exists k :: 0 <= k < |found| && found[k].index == i)
  }

  lemma OffersSkip(inks: seq<Ink>, session: Assignments, api: Assignments, matchesFilters: Ink -> bool,
                   includeSession: bool, found: seq<AvailableInk>, n: nat)
    requires OffersUpTo(inks, session, api, matchesFilters, includeSession, found, n) && n < |inks|
    requires !(Eligible(session, api, n, includeSession) && matchesFilters(inks[n]))
    ensures OffersUpTo(inks, session, api, matchesFilters, includeSession, found, n + 1)
  {
  }

  lemma OffersAppend(inks: seq<Ink>, session: Assignments, api: Assignments, matchesFilters: Ink -> bool,
                     includeSession: bool, found: seq<AvailableInk>, n: nat, offer: AvailableInk)
    requires OffersUpTo(inks, session, api, matchesFilters, includeSession, found, n) && n < |inks|
    requires Eligible(session, api, n, includeSession) && matchesFilters(inks[n])
    requires offer.index == n && WellOffered(session, offer)
    ensures OffersUpTo(inks, session, api, matchesFilters, includeSession, found + [offer], n + 1)
  {
    var found' := found + [offer];
    forall i | 0 <= i <= n && Eligible(session, api, i, includeSession) && matchesFilters(inks[i])
      ensures exists k :: 0 <= k < |found'| && found'[k].index == i
    {
      if i == n {
        assert found'[|found|].index == i;
      } else {
        var k :| 0 <= k < |found| && found[k].index == i;
        assert found'[k] == found[k];
      }
    }
  }

  /** The category counts of the first n inks. */
  ghost predicate CountedUpTo(session: Assignments, api: Assignments, apiAssigned: nat, sessionAssigned: nat, unassigned: nat, n: nat) {
    apiAssigned == ApiAssignedUpTo(api, n) &&
    sessionAssigned == SessionAssignedUpTo(session, api, n) &&
    unassigned == UnassignedUpTo(session, api, n)
  }

  lemma CountedNext(session: Assignments, api: Assignments, apiAssigned: nat, sessionAssigned: nat, unassigned: nat, n: nat)
    requires CountedUpTo(session, api, apiAssigned, sessionAssigned, unassigned, n)
    ensures CountedUpTo(session, api,
      apiAssigned + (if n in api.Values then 1 else 0),
      sessionAssigned + (if n !in api.Values && n in session.Values then 1 else 0),
      unassigned + (if n !in api.Values && n !in session.Values then 1 else 0), n + 1)
  {
  }

  /**
   * The body of the scan for ink `idx`: count its category (persisted, bound
   * in the session, or free), then offer it when it is eligible and passes
   * the filters.
   */
  method ScanOne(inks: seq<Ink>, session: Assignments, api: Assignments, matchesFilters: Ink -> bool,
                 includeSession: bool, idx: nat, apiAssignedIndices: set<nat>, sessionIndices: set<nat>,
                 apiAssigned: nat, sessionAssigned: nat, unassigned: nat)
    returns (apiAssigned': nat, sessionAssigned': nat, unassigned': nat, offer: Option<AvailableInk>)
    requires idx < |inks| && apiAssignedIndices == api.Values && sessionIndices == session.Values
    requires CountedUpTo(session, api, apiAssigned, sessionAssigned, unassigned, idx)
    ensures CountedUpTo(session, api, apiAssigned', sessionAssigned', unassigned', idx + 1)
    ensures offer.Some? <==> Eligible(session, api, idx, includeSession) && matchesFilters(inks[idx])
    ensures offer.Some? ==> offer.value.index == idx && WellOffered(session, offer.value)
  {
    CountedNext(session, api, apiAssigned, sessionAssigned, unassigned, idx);
    apiAssigned', sessionAssigned', unassigned' := apiAssigned, sessionAssigned, unassigned;
    if idx in apiAssignedIndices {
      return apiAssigned + 1, sessionAssigned, unassigned, None;
    }
    var sessionBound := idx in sessionIndices;
    if sessionBound {
      sessionAssigned' := sessionAssigned + 1;
      if !includeSession {
        return apiAssigned, sessionAssigned', unassigned, None;
      }
    } else {
      unassigned' := unassigned + 1;
    }
    offer := OfferFor(inks, session, matchesFilters, idx, sessionBound);
  }

  /**
   * The loop of `find_available_inks_for_theme`: walk the collection in
   * order, count each ink's category, and offer the eligible ones that
   * `matchesFilters` accepts, stopping once the limit is reached (after at
   * least one). The tool passes its local filter, `ThemeMatch` on the query,
   * colour and brand.
   */
  method ScanAvailable(inks: seq<Ink>, session: Assignments, api: Assignments, matchesFilters: Ink -> bool,
                       includeSession: bool, limit: int)
    returns (v: ThemeSearch, ghost scanned: nat)
    ensures scanned <= |inks|
    ensures v.apiAssigned == ApiAssignedUpTo(api, scanned)
    ensures v.sessionAssigned == SessionAssignedUpTo(session, api, scanned)
    ensures v.unassigned == UnassignedUpTo(session, api, scanned)
    ensures |v.found| <= (if limit > 1 then limit else 1)
    ensures scanned < |inks| ==> |v.found| >= limit
    // An early stop comes right after the offer that reached the limit.
    ensures scanned < |inks| ==> v.found != [] && v.found[|v.found| - 1].index + 1 == scanned
    ensures v.found != [] && |v.found| >= limit ==> v.found[|v.found| - 1].index + 1 == scanned
    ensures OffersUpTo(inks, session, api, matchesFilters, includeSession, v.found, scanned)
  {
    var apiAssignedIndices := api.Values;
    var sessionIndices := session.Values;
    var found: seq<AvailableInk> := [];
    var unassigned, sessionAssigned, apiAssigned := 0, 0, 0;
    var idx := 0;
    while idx < |inks|
      invariant idx <= |inks|
      invariant CountedUpTo(session, api, apiAssigned, sessionAssigned, unassigned, idx)
      invariant found == [] || |found| < limit
      invariant OffersUpTo(inks, session, api, matchesFilters, includeSession, found, idx)
    {
      var offer;
      apiAssigned, sessionAssigned, unassigned, offer :=
        ScanOne(inks, session, api, matchesFilters, includeSession, idx, apiAssignedIndices, sessionIndices,
                apiAssigned, sessionAssigned, unassigned);
      if offer.None? {
        OffersSkip(inks, session, api, matchesFilters, includeSession, found, idx);
        idx := idx + 1;
        continue;
      }
      OffersAppend(inks, session, api, matchesFilters, includeSession, found, idx, offer.value);
      found := found + [offer.value];
      idx := idx + 1;
      if |found| >= limit {
        assert found[|found| - 1] == offer.value;
        break;
      }
    }
    v := ThemeSearch(unassigned, sessionAssigned, apiAssigned, found);
    scanned := idx;
  }

  /** Where the scan stops, per the contract of `ScanAvailable`: after the offer that reaches the limit, else at the end. */
  predicate StopsAt(found: seq<AvailableInk>, limit: int, count: nat, scanned: nat) {
    scanned <= count &&
    (scanned < count ==> |found| >= limit && found != [] && found[|found| - 1].index + 1 == scanned) &&
    (found != [] && |found| >= limit ==> found[|found| - 1].index + 1 == scanned)
  }

  /** The offers determine the stop point, and so the prefix whose categories are counted. */
  lemma StopPointUnique(found: seq<AvailableInk>, limit: int, count: nat, s1: nat, s2: nat)
    requires StopsAt(found, limit, count, s1) && StopsAt(found, limit, count, s2)
    ensures s1 == s2
  {
  }

  /**
   * The entry `set_month_theme` stores: the stripped theme and the stripped
   * description; none when the theme is empty or only whitespace.
   */
  function NewTheme(theme: string, description: string): (e: Option<ThemeEntry>)
    ensures e.None? <==> Strip(theme) == ""
    ensures e.Some? ==> e.value == ThemeEntry(Some(Strip(theme)), Some(Strip(description)))
    ensures e.Some? ==> e.value.theme.value != "" && !IsSpace(e.value.theme.value[0])
  {
    if theme == "" || Strip(theme) == "" then None
    else
      var stripped := if description != "" then Strip(description) else "";
      Some(ThemeEntry(Some(Strip(theme)), Some(stripped)))
  }

  class ToolFacade {
    // The reactive cells the tools are bound to.
    var inkCell: seq<Ink>
    var yearCell: nat
    var sessionCell: Assignments
    var apiCell: Assignments
    var themesCell: Themes
    /** Whether a theme cell was given at all. */
    const hasThemeCell: bool

    // `_snapshot`: what the tools read.
    var inks: seq<Ink>
    var year: nat
    var session: Assignments
    var api: Assignments
    var themes: Themes

    /** `create_tool_functions`: binds the cells; the snapshot starts empty, in year 2026. */
    constructor (inkCell: seq<Ink>, yearCell: nat, sessionCell: Assignments, apiCell: Assignments, themesCell: Option<Themes>)
      ensures this.inkCell == inkCell && this.yearCell == yearCell
      ensures this.sessionCell == sessionCell && this.apiCell == apiCell
      ensures hasThemeCell == themesCell.Some? && (themesCell.Some? ==> this.themesCell == themesCell.value)
      ensures inks == [] && year == 2026 && session == map[] && api == map[] && themes == map[]
    {
      this.inkCell := inkCell;
      this.yearCell := yearCell;
      this.sessionCell := sessionCell;
      this.apiCell := apiCell;
      this.themesCell := themesCell.GetOr(map[]);
      hasThemeCell := themesCell.Some?;
      inks := [];
      year := 2026;
      session := map[];
      api := map[];
      themes := map[];
    }

    /** No cell and no part of the snapshot other than the session assignments changed. */
    twostate predicate OnlySessionWritten()
      reads this
    {
      inks == old(inks) && year == old(year) && api == old(api) && themes == old(themes) &&
      inkCell == old(inkCell) && yearCell == old(yearCell) && apiCell == old(apiCell) && themesCell == old(themesCell)
    }

    /** No cell and no part of the snapshot other than the themes changed. */
    twostate predicate OnlyThemesWritten()
      reads this
    {
      inks == old(inks) && year == old(year) && api == old(api) && session == old(session) &&
      inkCell == old(inkCell) && yearCell == old(yearCell) && apiCell == old(apiCell) && sessionCell == old(sessionCell)
    }

    /** Publish a new session map: set the reactive cell, then the snapshot's copy. */
    method WriteSession(newSession: Assignments)
      modifies this
      ensures session == newSession && sessionCell == newSession && OnlySessionWritten()
    {
      sessionCell := newSession;
      session := newSession;
    }

    /** Publish a new theme map: set the reactive cell, then the snapshot's copy. */
    method WriteThemes(newThemes: Themes)
      modifies this
      ensures themes == newThemes && themesCell == newThemes && OnlyThemesWritten()
    {
      themesCell := newThemes;
      themes := newThemes;
    }

    /** `update_snapshot`: copy every cell into the snapshot; the themes only when there is a theme cell. */
    method UpdateSnapshot()
      modifies this
      ensures inks == inkCell && year == yearCell && session == sessionCell && api == apiCell
      ensures themes == if hasThemeCell then themesCell else old(themes)
      ensures inkCell == old(inkCell) && yearCell == old(yearCell) && sessionCell == old(sessionCell)
      ensures apiCell == old(apiCell) && themesCell == old(themesCell)
    {
      inks := inkCell;
      year := yearCell;
      session := sessionCell;
      api := apiCell;
      if hasThemeCell {
        themes := themesCell;
      }
    }

    /** `_get_merged_assignments` */
    function MergedView(): Assignments
      reads this
    {
      Merged(session, api)
    }

    /** `list_all_inks`: every ink, flagged when the merged view binds it to some date. */
    method ListAllInks() returns (r: Reply<seq<Listing>>)
      ensures inks == [] <==> r == Err(NoInks)
      ensures inks != [] <==> r.Ok?
      ensures r.Ok? ==> |r.value| == |inks|
      ensures r.Ok? ==> forall k :: 0 <= k < |r.value| ==>
        r.value[k].index == k && (r.value[k].alreadyAssigned <==> k in MergedView().Values)
    {
      if |inks| == 0 {
        return Err(NoInks);
      }
      var assignedIndices := MergedView().Values;
      var inkList: seq<Listing> := [];
      for idx := 0 to |inks|
        invariant |inkList| == idx
        invariant forall k :: 0 <= k < idx ==> inkList[k] == Listing(k, k in assignedIndices)
      {
        inkList := inkList + [Listing(idx, idx in assignedIndices)];
      }
      return Ok(inkList);
    }

    /** `search_inks`: the filter search, with the assigned flag taken from the merged view. */
    method SearchInks(query: string, color: string, brand: string) returns (r: Reply<seq<SearchHit>>)
      requires MatchesReadable(inks, query, color, brand)
      ensures inks == [] <==> r == Err(NoInks)
      ensures inks != [] <==> r.Ok?
      ensures r.Ok? ==> forall k :: 0 <= k < |r.value| ==>
        r.value[k].index < |inks| && MatchesFilters(inks[r.value[k].index], query, color, brand) &&
        (r.value[k].alreadyAssigned <==> r.value[k].index in MergedView().Values)
      ensures r.Ok? ==> forall k, l :: 0 <= k < l < |r.value| ==> r.value[k].index < r.value[l].index
      ensures r.Ok? ==> forall i :: 0 <= i < |inks| && MatchesFilters(inks[i], query, color, brand) ==>
        exists k :: 0 <= k < |r.value| && r.value[k].index == i
    {
      if |inks| == 0 {
        return Err(NoInks);
      }
      var matches := Store.SearchInks(inks, year, query, color, brand);
      var assignedIndices := MergedView().Values;
      var flagged: seq<SearchHit> := [];
      for k := 0 to |matches|
        invariant |flagged| == k
        invariant forall j :: 0 <= j < k ==> flagged[j] == SearchHit(matches[j].index, matches[j].index in assignedIndices)
      {
        flagged := flagged + [SearchHit(matches[k].index, matches[k].index in assignedIndices)];
      }
      forall i | 0 <= i < |inks| && MatchesFilters(inks[i], query, color, brand)
        ensures exists k :: 0 <= k < |flagged| && flagged[k].index == i
      {
        var k :| 0 <= k < |matches| && matches[k].index == i;
        assert flagged[k].index == i;
      }
      return Ok(flagged);
    }

    /**
     * `get_month_assignments`: the merged entries of the month whose ink
     * exists, sorted by day, each flagged protected when the persisted layer
     * holds it.
     */
    method GetMonthAssignments(month: int, yearArg: Option<nat>) returns (r: Reply<MonthView>)
      requires ValidMonth(month) ==> ListedDaysReadable(MergedView(), MonthPrefix(yearArg.GetOr(year), month), |inks|)
      ensures !ValidMonth(month) ==> r == Err(InvalidMonth(month))
      ensures ValidMonth(month) ==> (inks == [] <==> r == Err(NoInks))
      ensures r.Ok? <==> ValidMonth(month) && inks != []
      ensures r.Ok? ==>
        var listed := MonthListed(MergedView(), MonthPrefix(yearArg.GetOr(year), month), |inks|);
        var v := r.value;
        v.month == month && v.year == yearArg.GetOr(year) && v.daysInMonth == DaysInMonth(v.year, month) &&
        SortedByDay(v.entries) && DistinctDates(v.entries) &&
        (forall e :: e in v.entries ==> e.date in listed && e == EntryOf(MergedView(), api, e.date)) &&
        (forall d :: d in listed ==> EntryOf(MergedView(), api, d) in v.entries) &&
        v.assignedDays == |v.entries| && v.unassignedDays == v.daysInMonth - |v.entries|
    {
      var y := yearArg.GetOr(year);
      if !ValidMonth(month) {
        return Err(InvalidMonth(month));
      }
      if |inks| == 0 {
        return Err(NoInks);
      }
      var daysInMonth := DaysInMonth(y, month);
      var assignments := CollectMonthEntries(MergedView(), api, MonthPrefix(y, month), |inks|);
      var entries := SortByDay(assignments);
      assert forall e :: e in entries <==> e in assignments by {
        assert forall e :: e in entries <==> e in multiset(assignments);
      }
      return Ok(MonthView(month, y, daysInMonth, entries, |entries|, daysInMonth as int - |entries|));
    }

    /** `assign_ink_to_date`: resolve the ink by name, then assign it through the mutation engine. */
    method AssignInkToDate(identifier: string, date: string) returns (r: Reply<nat>)
      modifies this
      ensures old(inks) == [] ==> r == Err(NoInks)
      ensures old(inks) != [] && Resolve(identifier, old(inks)).None? ==> r == Err(InkNotFound(identifier))
      ensures old(inks) != [] && Resolve(identifier, old(inks)).Some? ==>
        var out := MoveInk(old(session), old(api), None, Some(date), Resolve(identifier, old(inks)));
        (out.result.Success() <==> r.Ok?) && (out.result.Failed? ==> r == Err(MoveFailed(out.result.failure)))
      ensures r.Err? ==> r.error.NoInks? || r.error.InkNotFound? || r.error.MoveFailed?
      ensures r.Err? ==> unchanged(this)
      ensures r.Err? && r.error.MoveFailed? ==>
        MoveInk(session, api, None, Some(date), Resolve(identifier, inks)).result == Failed(r.error.failure)
      ensures r.Ok? ==> Some(r.value) == Resolve(identifier, inks)
      ensures r.Ok? ==>
        MoveInk(old(session), api, None, Some(date), Some(r.value)).result.Success() &&
        session == MoveInk(old(session), api, None, Some(date), Some(r.value)).session &&
        sessionCell == session && OnlySessionWritten()
    {
      if |inks| == 0 {
        return Err(NoInks);
      }
      var found := FindInkByName(identifier, inks);
      if found.None? {
        return Err(InkNotFound(identifier));
      }
      var idx := found.value;
      var out := MoveInk(session, api, None, Some(date), Some(idx));
      if !out.result.Success() {
        return Err(MoveFailed(out.result.failure));
      }
      WriteSession(out.session);
      return Ok(idx);
    }

    /** `bulk_assign_month` over the snapshot; see `BulkResult`. The new session is published only when something was written. */
    method BulkAssignMonth(identifiers: seq<string>, month: int, yearArg: Option<nat>) returns (r: Reply<BulkReport>)
      requires ValidMonth(month) && inks != [] ==> DaysReadable(MergedView(), MonthPrefix(yearArg.GetOr(year), month))
      modifies this
      ensures r == BulkResult(identifiers, old(inks), old(session), old(api), old(yearArg.GetOr(year)), month).0
      ensures r.Ok? && r.value.success ==>
        session == BulkResult(identifiers, old(inks), old(session), old(api), old(yearArg.GetOr(year)), month).1 &&
        sessionCell == session && OnlySessionWritten()
      ensures !(r.Ok? && r.value.success) ==> unchanged(this)
    {
      var newSession;
      r, newSession := AssignMonth(identifiers, inks, session, api, yearArg.GetOr(year), month);
      if r.Ok? && r.value.success {
        WriteSession(newSession);
      }
    }

    /** `unassign_ink_from_date`: remove a session assignment through the mutation engine; returns the ink removed. */
    method UnassignInkFromDate(date: string) returns (r: Reply<nat>)
      modifies this
      ensures r.Err? ==> unchanged(this) && r.error.MoveFailed?
      ensures r.Err? ==> MoveInk(session, api, Some(date), None, None).result == Failed(r.error.failure)
      ensures r.Ok? ==> date in old(session) && r.value == old(session)[date]
      ensures r.Ok? ==>
        MoveInk(old(session), api, Some(date), None, None).result.Success() &&
        session == old(session) - {date} && sessionCell == session && OnlySessionWritten()
    {
      var out := MoveInk(session, api, Some(date), None, None);
      if !out.result.Success() {
        return Err(MoveFailed(out.result.failure));
      }
      var removed := session[date];
      WriteSession(out.session);
      return Ok(removed);
    }

    /**
     * `clear_month_assignments`: drop every session key under the month's
     * prefix; the persisted layer's dates of the month with an existing ink
     * are reported as protected.
     */
    method ClearMonthAssignments(month: int, yearArg: Option<nat>) returns (r: Reply<ClearReport>)
      requires ValidMonth(month) ==> DaysReadable(session, MonthPrefix(yearArg.GetOr(year), month))
      modifies this
      ensures !ValidMonth(month) <==> r == Err(InvalidMonth(month))
      ensures ValidMonth(month) <==> r.Ok?
      ensures r.Err? ==> unchanged(this)
      ensures r.Ok? ==>
        var prefix := old(MonthPrefix(yearArg.GetOr(year), month));
        var v := r.value;
        (forall d :: d in v.removed <==> d in old(session) && prefix <= d) &&
        (forall k, l :: 0 <= k < l < |v.removed| ==> v.removed[k] != v.removed[l]) &&
        (forall d :: d in v.protectedDates <==> d in api && prefix <= d && api[d] < |inks|) &&
        (forall k, l :: 0 <= k < l < |v.protectedDates| ==> v.protectedDates[k] != v.protectedDates[l]) &&
        v.success == (|v.removed| > 0 || |v.protectedDates| == 0) &&
        (|v.removed| > 0 ==>
          session == (map d | d in old(session) && !(prefix <= d) :: old(session)[d]) &&
          sessionCell == session && OnlySessionWritten()) &&
        (|v.removed| == 0 ==> unchanged(this))
    {
      var y := yearArg.GetOr(year);
      if !ValidMonth(month) {
        return Err(InvalidMonth(month));
      }
      var prefix := MonthPrefix(y, month);
      var protectedDates := ProtectedDates(api, prefix, |inks|);
      var removed, newSession := RemoveMonth(session, prefix);
      if |removed| > 0 {
        WriteSession(newSession);
      } else {
        assert newSession == session;
      }
      return Ok(ClearReport(|removed| > 0 || |protectedDates| == 0, removed, protectedDates));
    }

    /** `get_current_assignments_summary` over the snapshot; see `SummarizeYear`. */
    method GetCurrentAssignmentsSummary(yearArg: Option<nat>) returns (r: Reply<YearSummary>)
      requires inks != [] ==> forall d :: d in MergedView() && YearMonthOf(yearArg.GetOr(year))(d).Some? ==>
        ValidMonth(YearMonthOf(yearArg.GetOr(year))(d).value)
      ensures inks == [] <==> r == Err(NoInks)
      ensures inks != [] <==> r.Ok?
      ensures r.Ok? ==> SummaryOf(r.value, |inks|, MergedView(), api, yearArg.GetOr(year))
    {
      var y := yearArg.GetOr(year);
      if |inks| == 0 {
        return Err(NoInks);
      }
      var v := SummarizeYear(|inks|, MergedView(), api, y);
      return Ok(v);
    }

    /** `find_available_inks_for_theme` over the snapshot; see `ScanAvailable`. */
    method FindAvailableInksForTheme(query: string, color: string, brand: string, includeSession: bool, limit: int)
      returns (r: Reply<ThemeSearch>)
      ensures inks == [] <==> r == Err(NoInks)
      ensures inks != [] <==> r.Ok?
      ensures r.Ok? ==> |r.value.found| <= (if limit > 1 then limit else 1)
      ensures r.Ok? ==> exists scanned: nat ::
        scanned <= |inks| && (scanned < |inks| ==> |r.value.found| >= limit) &&
        (scanned < |inks| ==> r.value.found != [] && r.value.found[|r.value.found| - 1].index + 1 == scanned) &&
        (r.value.found != [] && |r.value.found| >= limit ==> r.value.found[|r.value.found| - 1].index + 1 == scanned) &&
        r.value.apiAssigned == ApiAssignedUpTo(api, scanned) &&
        r.value.sessionAssigned == SessionAssignedUpTo(session, api, scanned) &&
        r.value.unassigned == UnassignedUpTo(session, api, scanned) &&
        OffersUpTo(inks, session, api, ink => ThemeMatch(ink, query, color, brand), includeSession, r.value.found, scanned)
    {
      if |inks| == 0 {
        return Err(NoInks);
      }
      var v, scanned := ScanAvailable(inks, session, api, ink => ThemeMatch(ink, query, color, brand), includeSession, limit);
      return Ok(v);
    }

    /** `set_month_theme`: store the trimmed theme and description under `YYYY-MM`, replacing any earlier one. */
    method SetMonthTheme(month: int, theme: string, description: string, yearArg: Option<nat>) returns (r: Reply<ThemeEntry>)
      modifies this
      ensures !hasThemeCell ==> r == Err(NoThemeStorage)
      ensures hasThemeCell && !ValidMonth(month) ==> r == Err(InvalidMonth(month))
      ensures hasThemeCell && ValidMonth(month) ==> (NewTheme(theme, description).None? <==> r == Err(EmptyTheme))
      ensures r.Ok? <==> hasThemeCell && ValidMonth(month) && NewTheme(theme, description).Some?
      ensures r.Err? ==> unchanged(this)
      ensures r.Ok? ==> Some(r.value) == NewTheme(theme, description)
      ensures r.Ok? ==>
        themes == old(themes)[old(MonthKey(yearArg.GetOr(year), month)) := r.value] &&
        themesCell == themes && OnlyThemesWritten()
    {
      if !hasThemeCell {
        return Err(NoThemeStorage);
      }
      var y := yearArg.GetOr(year);
      if !ValidMonth(month) {
        return Err(InvalidMonth(month));
      }
      var entry := NewTheme(theme, description);
      if entry.None? {
        return Err(EmptyTheme);
      }
      var monthKey := MonthKey(y, month);
      var newThemes := themes[monthKey := entry.value];
      WriteThemes(newThemes);
      return Ok(entry.value);
    }

    /** `get_month_theme`: the session's theme for `YYYY-MM`, its missing parts as `""`; none when the key is absent. */
    method GetMonthTheme(month: int, yearArg: Option<nat>) returns (r: Reply<ThemeView>)
      ensures !ValidMonth(month) <==> r == Err(InvalidMonth(month))
      ensures ValidMonth(month) <==> r.Ok?
      ensures r.Ok? ==> (r.value.fromSession <==> MonthKey(yearArg.GetOr(year), month) in themes)
      ensures r.Ok? && MonthKey(yearArg.GetOr(year), month) in themes ==>
        r.value.theme == Some(themes[MonthKey(yearArg.GetOr(year), month)].theme.GetOr("")) &&
        r.value.description == Some(themes[MonthKey(yearArg.GetOr(year), month)].description.GetOr(""))
      ensures r.Ok? && MonthKey(yearArg.GetOr(year), month) !in themes ==>
        r.value.theme.None? && r.value.description.None?
    {
      var y := yearArg.GetOr(year);
      if !ValidMonth(month) {
        return Err(InvalidMonth(month));
      }
      var monthKey := MonthKey(y, month);
      if monthKey in themes {
        var themeData := themes[monthKey];
        return Ok(ThemeView(Some(themeData.theme.GetOr("")), Some(themeData.description.GetOr("")), true));
      }
      return Ok(ThemeView(None, None, false));
    }

    /** `clear_month_theme`: drop the month's theme; succeeds without writing when there is none. Returns whether one was removed. */
    method ClearMonthTheme(month: int, yearArg: Option<nat>) returns (r: Reply<bool>)
      modifies this
      ensures !hasThemeCell ==> r == Err(NoThemeStorage)
      ensures hasThemeCell ==> (!ValidMonth(month) <==> r == Err(InvalidMonth(month)))
      ensures r.Ok? <==> hasThemeCell && ValidMonth(month)
      ensures r.Err? ==> unchanged(this)
      ensures r.Ok? ==> r.value == (old(MonthKey(yearArg.GetOr(year), month)) in old(themes))
      ensures r.Ok? && r.value ==>
        themes == old(themes) - {old(MonthKey(yearArg.GetOr(year), month))} && themesCell == themes && OnlyThemesWritten()
      ensures r.Ok? && !r.value ==> unchanged(this)
    {
      if !hasThemeCell {
        return Err(NoThemeStorage);
      }
      var y := yearArg.GetOr(year);
      if !ValidMonth(month) {
        return Err(InvalidMonth(month));
      }
      var monthKey := MonthKey(y, month);
      if monthKey !in themes {
        return Ok(false);
      }
      var newThemes := themes - {monthKey};
      WriteThemes(newThemes);
      return Ok(true);
    }
  }
}
