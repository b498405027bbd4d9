/**
 * Pure definitions behind the chat tools: which days of a month are free,
 * what a bulk assignment does identifier by identifier, how a date key is
 * read back into a month, and which inks a theme search accepts.
 */
module ToolSpec {
  import opened Wrappers
  import opened Text
  import opened Calendar
  import opened Codec
  import opened Store
  import opened Engine

  predicate ValidMonth(month: int) { 1 <= month <= 12 }

  // ---------------------------------------------------------------------------
  // Free days of a month
  // ---------------------------------------------------------------------------

  /** Every key under the prefix has a day field `int()` accepts. */
  predicate DaysReadable(m: Assignments, prefix: string) {
    forall k :: k in m && prefix <= k ==> DayField(k).Some?
  }

  /** The days named by the keys under the prefix. */
  function OccupiedDays(m: Assignments, prefix: string): set<int>
    requires DaysReadable(m, prefix)
  {
    set k | k in m && prefix <= k :: DayField(k).value
  }

  /** `[d for d in range(1, n + 1) if d not in occupied]` */
  function FreeDays(occupied: set<int>, n: nat): (r: seq<nat>)
    ensures forall k :: 0 <= k < |r| ==> 1 <= r[k] <= n && r[k] !in occupied
    ensures forall k, l :: 0 <= k < l < |r| ==> r[k] < r[l]
    ensures forall d :: 1 <= d <= n && d !in occupied ==> d in r
  {
    if n == 0 then [] else FreeDays(occupied, n - 1) + (if n in occupied then [] else [n])
  }

  lemma DateStringInjective(year: nat, month: nat, d1: nat, d2: nat)
    requires d1 != d2
    ensures DateString(year, month, d1) != DateString(year, month, d2)
  {
    DayFieldOfDateString(year, month, d1);
    DayFieldOfDateString(year, month, d2);
  }

  /** A day outside the occupied set has no key, padded or not, in the map. */
  lemma FreeDayIsFree(m: Assignments, year: nat, month: nat, day: nat)
    requires DaysReadable(m, MonthPrefix(year, month))
    requires day !in OccupiedDays(m, MonthPrefix(year, month))
    ensures DateString(year, month, day) !in m
  {
    DateStringInMonth(year, month, day);
    DayFieldOfDateString(year, month, day);
  }

  /** Every key under the prefix whose ink exists has a day field `int()` accepts. */
  predicate ListedDaysReadable(m: Assignments, prefix: string, inkCount: nat) {
    forall k :: k in m && prefix <= k && m[k] < inkCount ==> DayField(k).Some?
  }

  /** The dates `get_month_assignments` lists: under the prefix, with an existing ink. */
  function MonthListed(m: Assignments, prefix: string, inkCount: nat): set<string> {
    set k | k in m && prefix <= k && m[k] < inkCount
  }

  // ---------------------------------------------------------------------------
  // Bulk assignment
  // ---------------------------------------------------------------------------

  /** What happened to one identifier: written to a day, not resolved, or its ink already had a date. */
  datatype BulkOutcome =
    | Written(identifier: string, index: nat, day: nat)
    | NotFound(identifier: string)
    | AlreadyAssigned(identifier: string, index: nat)

  datatype BulkState = BulkState(outcomes: seq<BulkOutcome>, taken: set<nat>, writes: Assignments)

  /** One identifier, given the inks taken so far and the day it would get. */
  function Classify(id: string, inks: seq<Ink>, taken: set<nat>, day: nat): BulkOutcome {
    var found := Resolve(id, inks);
    if found.None? then NotFound(id)
    else if found.value in taken then BulkOutcome.AlreadyAssigned(id, found.value)
    else Written(id, found.value, day)
  }

  /**
   * The loop of `bulk_assign_month` after its first n identifiers: the i-th
   * identifier goes to the i-th free day unless it does not resolve or its
   * ink is already assigned (in the merged view or by an earlier identifier).
   */
  function Bulk(ids: seq<string>, inks: seq<Ink>, days: seq<nat>, year: nat, month: nat, assigned0: set<nat>, n: nat): (st: BulkState)
    requires n <= |ids| <= |days|
    ensures |st.outcomes| == n
  {
    if n == 0 then BulkState([], assigned0, map[])
    else
      var prev := Bulk(ids, inks, days, year, month, assigned0, n - 1);
      var o := Classify(ids[n - 1], inks, prev.taken, days[n - 1]);
      BulkState(prev.outcomes + [o],
                if o.Written? then prev.taken + {o.index} else prev.taken,
                if o.Written? then prev.writes[DateString(year, month, o.day) := o.index] else prev.writes)
  }

  predicate WrittenBefore(outcomes: seq<BulkOutcome>, k: nat, index: int)
    requires k <= |outcomes|
  {
    exists j :: 0 <= j < k && outcomes[j].Written? && outcomes[j].index == index
  }

  /** Later identifiers never revise the outcome of an earlier one. */
  lemma {:induction false} BulkStable(ids: seq<string>, inks: seq<Ink>, days: seq<nat>, year: nat, month: nat, assigned0: set<nat>, n: nat, k: nat)
    requires k < n <= |ids| <= |days|
    ensures Bulk(ids, inks, days, year, month, assigned0, n).outcomes[k] ==
            Classify(ids[k], inks, Bulk(ids, inks, days, year, month, assigned0, k).taken, days[k])
    decreases n
  {
    if k < n - 1 {
      BulkStable(ids, inks, days, year, month, assigned0, n - 1, k);
    }
  }

  /** The inks taken after n identifiers: those assigned beforehand and those written. */
  lemma {:induction false} BulkTaken(ids: seq<string>, inks: seq<Ink>, days: seq<nat>, year: nat, month: nat, assigned0: set<nat>, n: nat)
    requires n <= |ids| <= |days|
    ensures var st := Bulk(ids, inks, days, year, month, assigned0, n);
      forall i :: i in st.taken <==> i in assigned0 || WrittenBefore(st.outcomes, n, i)
  {
    if n > 0 {
      BulkTaken(ids, inks, days, year, month, assigned0, n - 1);
      var prev := Bulk(ids, inks, days, year, month, assigned0, n - 1);
      var st := Bulk(ids, inks, days, year, month, assigned0, n);
      assert forall j :: 0 <= j < n - 1 ==> st.outcomes[j] == prev.outcomes[j];
      forall i ensures WrittenBefore(st.outcomes, n, i) <==> WrittenBefore(prev.outcomes, n - 1, i) || (st.outcomes[n - 1].Written? && st.outcomes[n - 1].index == i) {
        if WrittenBefore(st.outcomes, n, i) {
          var j :| 0 <= j < n && st.outcomes[j].Written? && st.outcomes[j].index == i;
          if j < n - 1 {
            assert prev.outcomes[j] == st.outcomes[j];
          }
        }
        if WrittenBefore(prev.outcomes, n - 1, i) {
          var j :| 0 <= j < n - 1 && prev.outcomes[j].Written? && prev.outcomes[j].index == i;
          assert st.outcomes[j] == prev.outcomes[j];
        }
      }
    }
  }

  /**
   * Identifier k is written to the k-th free day exactly when it resolves to
   * an ink that is neither assigned already nor written for an earlier
   * identifier; otherwise it is reported as not found or already assigned.
   */
  lemma BulkClassification(ids: seq<string>, inks: seq<Ink>, days: seq<nat>, year: nat, month: nat, assigned0: set<nat>, n: nat, k: nat)
    requires k < n <= |ids| <= |days|
    ensures var st := Bulk(ids, inks, days, year, month, assigned0, n);
      (Resolve(ids[k], inks).None? ==> st.outcomes[k] == NotFound(ids[k])) &&
      (Resolve(ids[k], inks).Some? ==>
        var i := Resolve(ids[k], inks).value;
        if i !in assigned0 && !WrittenBefore(st.outcomes, k, i)
        then st.outcomes[k] == Written(ids[k], i, days[k])
        else st.outcomes[k] == BulkOutcome.AlreadyAssigned(ids[k], i))
  {
    var st := Bulk(ids, inks, days, year, month, assigned0, n);
    var before := Bulk(ids, inks, days, year, month, assigned0, k);
    BulkStable(ids, inks, days, year, month, assigned0, n, k);
    BulkTaken(ids, inks, days, year, month, assigned0, k);
    forall j | 0 <= j < k ensures st.outcomes[j] == before.outcomes[j] {
      BulkStable(ids, inks, days, year, month, assigned0, n, j);
      BulkStable(ids, inks, days, year, month, assigned0, k, j);
    }
    forall i ensures WrittenBefore(st.outcomes, k, i) <==> WrittenBefore(before.outcomes, k, i) {
      if WrittenBefore(st.outcomes, k, i) {
        var j :| 0 <= j < k && st.outcomes[j].Written? && st.outcomes[j].index == i;
        assert before.outcomes[j] == st.outcomes[j];
      }
      if WrittenBefore(before.outcomes, k, i) {
        var j :| 0 <= j < k && before.outcomes[j].Written? && before.outcomes[j].index == i;
        assert before.outcomes[j] == st.outcomes[j];
      }
    }
  }

  /** One unfolding of `Bulk`, stated without the classification itself. */
  lemma BulkStep(ids: seq<string>, inks: seq<Ink>, days: seq<nat>, year: nat, month: nat, assigned0: set<nat>, n: nat)
    requires 0 < n <= |ids| <= |days|
    ensures var prev := Bulk(ids, inks, days, year, month, assigned0, n - 1);
      var st := Bulk(ids, inks, days, year, month, assigned0, n);
      var o := st.outcomes[n - 1];
      st.outcomes == prev.outcomes + [o] &&
      (o.Written? ==> o.day == days[n - 1] && st.writes == prev.writes[DateString(year, month, days[n - 1]) := o.index]) &&
      (!o.Written? ==> st.writes == prev.writes)
  {
  }

  /** Each written identifier k puts its ink on the k-th free day. */
  lemma {:induction false} BulkWritesDays(ids: seq<string>, inks: seq<Ink>, days: seq<nat>, year: nat, month: nat, assigned0: set<nat>, n: nat)
    requires n <= |ids| <= |days|
    requires forall k, l :: 0 <= k < l < |days| ==> days[k] < days[l]
    ensures var st := Bulk(ids, inks, days, year, month, assigned0, n);
      forall k :: 0 <= k < n && st.outcomes[k].Written? ==>
        st.outcomes[k].day == days[k] &&
        DateString(year, month, days[k]) in st.writes && st.writes[DateString(year, month, days[k])] == st.outcomes[k].index
  {
    if n > 0 {
      BulkWritesDays(ids, inks, days, year, month, assigned0, n - 1);
      var prev := Bulk(ids, inks, days, year, month, assigned0, n - 1);
      var st := Bulk(ids, inks, days, year, month, assigned0, n);
      BulkStep(ids, inks, days, year, month, assigned0, n);
      var o := st.outcomes[n - 1];
      forall k | 0 <= k < n && st.outcomes[k].Written?
        ensures st.outcomes[k].day == days[k]
        ensures DateString(year, month, days[k]) in st.writes
        ensures st.writes[DateString(year, month, days[k])] == st.outcomes[k].index
      {
        if k < n - 1 {
          assert st.outcomes[k] == prev.outcomes[k];
          if o.Written? {
            DateStringInjective(year, month, days[k], days[n - 1]);
          }
        }
      }
    }
  }

  /** The session is written nowhere but on the free days of written identifiers. */
  lemma {:induction false} BulkWritesOnly(ids: seq<string>, inks: seq<Ink>, days: seq<nat>, year: nat, month: nat, assigned0: set<nat>, n: nat)
    requires n <= |ids| <= |days|
    ensures forall d :: d in Bulk(ids, inks, days, year, month, assigned0, n).writes ==>
      exists k :: 0 <= k < n && Bulk(ids, inks, days, year, month, assigned0, n).outcomes[k].Written? && d == DateString(year, month, days[k])
  {
    if n > 0 {
      BulkWritesOnly(ids, inks, days, year, month, assigned0, n - 1);
      var prev := Bulk(ids, inks, days, year, month, assigned0, n - 1);
      var st := Bulk(ids, inks, days, year, month, assigned0, n);
      BulkStep(ids, inks, days, year, month, assigned0, n);
      forall d | d in st.writes
        ensures exists k :: 0 <= k < n && st.outcomes[k].Written? && d == DateString(year, month, days[k])
      {
        if d in prev.writes {
          assert exists k :: 0 <= k < n - 1 && prev.outcomes[k].Written? && d == DateString(year, month, days[k]);
          var k :| 0 <= k < n - 1 && prev.outcomes[k].Written? && d == DateString(year, month, days[k]);
          assert st.outcomes[k] == prev.outcomes[k];
        } else {
          var o := st.outcomes[n - 1];
          assert o.Written? && d == DateString(year, month, days[n - 1]);
          assert 0 <= n - 1 < n && st.outcomes[n - 1].Written? && d == DateString(year, month, days[n - 1]);
        }
      }
    }
  }

  /** No ink is written twice, and no ink that was already assigned is written at all. */
  lemma BulkWritesFreshInks(ids: seq<string>, inks: seq<Ink>, days: seq<nat>, year: nat, month: nat, assigned0: set<nat>, k: nat, l: nat)
    requires l < k < |ids| <= |days|
    ensures var st := Bulk(ids, inks, days, year, month, assigned0, |ids|);
      st.outcomes[k].Written? ==>
        st.outcomes[k].index !in assigned0 &&
        (st.outcomes[l].Written? ==> st.outcomes[l].index != st.outcomes[k].index)
  {
    var st := Bulk(ids, inks, days, year, month, assigned0, |ids|);
    BulkClassification(ids, inks, days, year, month, assigned0, |ids|, k);
  }

  /** A bulk assignment over days no key of m occupies writes only dates that were free in m. */
  lemma BulkWritesFreeDates(m: Assignments, ids: seq<string>, inks: seq<Ink>, days: seq<nat>, year: nat, month: nat, taken: set<nat>)
    requires DaysReadable(m, MonthPrefix(year, month))
    requires |ids| <= |days|
    requires forall k :: 0 <= k < |days| ==> days[k] !in OccupiedDays(m, MonthPrefix(year, month))
    ensures forall d :: d in Bulk(ids, inks, days, year, month, taken, |ids|).writes ==> d !in m
  {
    BulkWritesOnly(ids, inks, days, year, month, taken, |ids|);
    var st := Bulk(ids, inks, days, year, month, taken, |ids|);
    forall d | d in st.writes ensures d !in m {
      assert exists k :: 0 <= k < |ids| && st.outcomes[k].Written? && d == DateString(year, month, days[k]);
      var k :| 0 <= k < |ids| && st.outcomes[k].Written? && d == DateString(year, month, days[k]);
      FreeDayIsFree(m, year, month, days[k]);
    }
  }

  function CountWritten(outcomes: seq<BulkOutcome>): nat {
    if outcomes == [] then 0 else CountWritten(outcomes[..|outcomes| - 1]) + (if outcomes[|outcomes| - 1].Written? then 1 else 0)
  }

  function CountNotFound(outcomes: seq<BulkOutcome>): nat {
    if outcomes == [] then 0 else CountNotFound(outcomes[..|outcomes| - 1]) + (if outcomes[|outcomes| - 1].NotFound? then 1 else 0)
  }

  function CountAlreadyAssigned(outcomes: seq<BulkOutcome>): nat {
    if outcomes == [] then 0 else CountAlreadyAssigned(outcomes[..|outcomes| - 1]) + (if outcomes[|outcomes| - 1].AlreadyAssigned? then 1 else 0)
  }

  /** The three buckets account for every identifier. */
  lemma {:induction false} BucketsPartition(outcomes: seq<BulkOutcome>)
    ensures CountWritten(outcomes) + CountNotFound(outcomes) + CountAlreadyAssigned(outcomes) == |outcomes|
  {
    if outcomes != [] {
      BucketsPartition(outcomes[..|outcomes| - 1]);
    }
  }

  /** `success` of a bulk assignment: at least one write. */
  lemma {:induction false} SomeWrittenIffCount(outcomes: seq<BulkOutcome>)
    ensures CountWritten(outcomes) > 0 <==> exists k :: 0 <= k < |outcomes| && outcomes[k].Written?
  {
    if outcomes != [] {
      var init := outcomes[..|outcomes| - 1];
      SomeWrittenIffCount(init);
      assert forall k :: 0 <= k < |init| ==> init[k] == outcomes[k];
      if exists k :: 0 <= k < |outcomes| && outcomes[k].Written? {
        var k :| 0 <= k < |outcomes| && outcomes[k].Written?;
        if k < |init| {
          assert init[k].Written?;
        }
      }
    }
  }

  // ---------------------------------------------------------------------------
  // Year summary
  // ---------------------------------------------------------------------------

  /**
   * The month a key is counted under for the year: its first `-` field reads
   * as the year and its second as an integer; otherwise it is skipped.
   */
  function KeyMonth(date: string, year: int): (r: Option<int>)
    ensures '-' !in date ==> r.None?
    ensures r.Some? ==> PyInt(Split(date, '-')[0]) == Some(year) && |Split(date, '-')| >= 2
    ensures r.Some? ==> r == PyInt(Split(date, '-')[1])
  {
    var parts := Split(date, '-');
    assert '-' !in date ==> parts == [date] by {
      if '-' !in date {
        SplitWithoutSeparator(date, '-');
      }
    }
    if PyInt(parts[0]) != Some(year) then None
    else if |parts| < 2 then None
    else PyInt(parts[1])
  }

  /** The month a key counts under in the summary of `year`. */
  function YearMonthOf(year: int): string -> Option<int> {
    d => KeyMonth(d, year)
  }

  lemma KeyMonthOfDateString(year: nat, month: nat, day: nat)
    requires 1 <= month <= 12
    ensures KeyMonth(DateString(year, month, day), year) == Some(month)
  {
    SplitDateString(year, month, day);
    NatToStringValue(year);
    PyIntOfNatToString(year);
    PyIntOfPad2(month);
  }

  lemma PyIntOfNatToString(n: nat)
    ensures PyInt(NatToString(n)) == Some(n)
  {
    NatToStringValue(n);
    PyIntOfDigits(NatToString(n));
  }

  /** Which layer a date of the merged view comes from: either, the persisted layer, or the session only. */
  datatype Layer = AnyLayer | ApiLayer | SessionLayer

  predicate InLayer(date: string, api: Assignments, layer: Layer) {
    match layer
    case AnyLayer => true
    case ApiLayer => date in api
    case SessionLayer => date !in api
  }

  /** The members of S that `keep` accepts. */
  ghost function Filter<T>(S: set<T>, keep: T -> bool): set<T> {
    set x | x in S && keep(x)
  }

  lemma FilterGrow<T>(S: set<T>, x: T, keep: T -> bool)
    requires x !in S
    ensures |Filter(S + {x}, keep)| == |Filter(S, keep)| + (if keep(x) then 1 else 0)
  {
    if keep(x) {
      assert Filter(S + {x}, keep) == Filter(S, keep) + {x};
    } else {
      assert Filter(S + {x}, keep) == Filter(S, keep);
    }
  }

  /** Whether a key is counted under the given month and layer, for a reading `monthOf` of keys into months. */
  function CountsUnder(monthOf: string -> Option<int>, api: Assignments, month: int, layer: Layer): string -> bool {
    d => monthOf(d) == Some(month) && InLayer(d, api, layer)
  }

  /** Whether a key is counted under some month. */
  function CountsInYear(monthOf: string -> Option<int>): string -> bool {
    d => monthOf(d).Some?
  }

  lemma FilterSplit<T>(S: set<T>, both: T -> bool, left: T -> bool, right: T -> bool)
    requires forall x :: both(x) <==> left(x) || right(x)
    requires forall x :: !(left(x) && right(x))
    ensures |Filter(S, both)| == |Filter(S, left)| + |Filter(S, right)|
  {
    assert Filter(S, both) == Filter(S, left) + Filter(S, right);
    assert Filter(S, left) !! Filter(S, right);
  }

  /** A month's count is its persisted count plus its session-only count. */
  lemma LayersSplit(dates: set<string>, api: Assignments, monthOf: string -> Option<int>, month: int)
    ensures |Filter(dates, CountsUnder(monthOf, api, month, AnyLayer))| ==
            |Filter(dates, CountsUnder(monthOf, api, month, ApiLayer))| + |Filter(dates, CountsUnder(monthOf, api, month, SessionLayer))|
  {
    FilterSplit(dates, CountsUnder(monthOf, api, month, AnyLayer), CountsUnder(monthOf, api, month, ApiLayer), CountsUnder(monthOf, api, month, SessionLayer));
  }

  // ---------------------------------------------------------------------------
  // Theme search
  // ---------------------------------------------------------------------------

  /** The filters of `find_available_inks_for_theme`: `""` stands for a filter not given. */
  predicate ThemeMatch(ink: Ink, query: string, color: string, brand: string): (b: bool)
    // Without a query, every ink `search_inks` accepts is accepted here too.
    ensures query == "" && MatchesFilters(ink, "", color, brand) ==> b
  {
    ContainsSelf(Lower(color));
    (query == "" ||
      Contains(Lower(ink.Name()), Lower(query)) ||
      Contains(Lower(ink.brand), Lower(query)) ||
      (exists t :: t in ink.tags && Contains(Lower(t), Lower(query))) ||
      (ink.comment.raw != "" && Contains(Lower(ink.comment.raw), Lower(query)))) &&
    (color == "" || exists t :: t in ink.tags && Contains(Lower(t), Lower(color))) &&
    (brand == "" || Contains(Lower(ink.brand), Lower(brand)))
  }

  /** How many of the first n indices the persisted layer holds. */
  function ApiAssignedUpTo(api: Assignments, n: nat): nat {
    if n == 0 then 0 else ApiAssignedUpTo(api, n - 1) + (if n - 1 in api.Values then 1 else 0)
  }

  /** How many of the first n indices only the session holds. */
  function SessionAssignedUpTo(session: Assignments, api: Assignments, n: nat): nat {
    if n == 0 then 0
    else SessionAssignedUpTo(session, api, n - 1) + (if n - 1 !in api.Values && n - 1 in session.Values then 1 else 0)
  }

  /** How many of the first n indices no layer holds. */
  function UnassignedUpTo(session: Assignments, api: Assignments, n: nat): nat {
    if n == 0 then 0
    else UnassignedUpTo(session, api, n - 1) + (if n - 1 !in api.Values && n - 1 !in session.Values then 1 else 0)
  }

  /** The three categories split every prefix of the collection. */
  lemma {:induction false} CategoriesPartition(session: Assignments, api: Assignments, n: nat)
    ensures ApiAssignedUpTo(api, n) + SessionAssignedUpTo(session, api, n) + UnassignedUpTo(session, api, n) == n
  {
    if n > 0 {
      CategoriesPartition(session, api, n - 1);
    }
  }
}
