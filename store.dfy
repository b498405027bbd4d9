/**
 * The read side of assignments: the persisted (API) layer derived from the
 * inks' comments, month summaries, and the two ways of looking inks up
 * (by name, by filters).
 */
module Store {
  import opened Wrappers
  import opened Text
  import opened Calendar
  import opened Codec

  /**
   * An ink of the collection; its index is its position in the list. A missing
   * `brand_name` is `""`; `name` and `color` keep whether the key was present,
   * because the calendar cell reads them with defaults of their own.
   */
  datatype Ink = Ink(brand: string, nameField: Option<string>, color: Option<string>, tags: seq<string>, comment: CommentText)
  {
    /** `ink.get("name", "")` */
    function Name(): string {
      nameField.GetOr("")
    }
  }

  /** `has_assignment`: the year's record is an object holding a `date` key, whatever its value. */
  predicate HasAssignment(ink: Ink, year: nat): (b: bool)
    requires ObjectComment(ink.comment)
    ensures b ==> GetSwatch(ink.comment, year).Some?
    ensures CheckOverwriteConflict(ink.comment, year).Some? ==> b
    ensures ReadableDate(ink.comment, year) && ExtractDate(ink.comment, year).Some? ==> b
  {
    var sw := GetSwatch(ink.comment, year);
    sw.Some? && "date" in sw.value
  }

  /** A readable date implies `has_assignment`; the converse fails for invalid or other-year dates. */
  lemma DateImpliesHasAssignment(ink: Ink, year: nat)
    requires ReadableDate(ink.comment, year)
    ensures ExtractDate(ink.comment, year).Some? ==> HasAssignment(ink, year)
  {
  }

  // ---------------------------------------------------------------------------
  // The persisted layer
  // ---------------------------------------------------------------------------

  predicate ReadableInks(inks: seq<Ink>, year: nat) {
    forall i :: 0 <= i < |inks| ==> ReadableDate(inks[i].comment, year)
  }

  function DateOf(ink: Ink, year: nat): Option<string>
    requires ReadableDate(ink.comment, year)
  {
    ExtractDate(ink.comment, year)
  }

  /** The year's date of each ink, in index order. */
  function DatesOf(inks: seq<Ink>, year: nat): (ds: seq<Option<string>>)
    requires ReadableInks(inks, year)
    ensures |ds| == |inks| && forall i :: 0 <= i < |inks| ==> ds[i] == DateOf(inks[i], year)
  {
    seq(|inks|, i requires 0 <= i < |inks| => DateOf(inks[i], year))
  }

  /** Each date, in index order, claims its key unless an earlier index already did. */
  function FirstClaims(ds: seq<Option<string>>): map<string, nat>
    decreases |ds|
  {
    if ds == [] then map[]
    else
      var last := |ds| - 1;
      var m := FirstClaims(ds[..last]);
      if ds[last].Some? && ds[last].value !in m then m[ds[last].value := last] else m
  }

  /** The persisted layer: each ink in index order claims its date unless an earlier ink already did. */
  function Explicit(inks: seq<Ink>, year: nat): map<string, nat>
    requires ReadableInks(inks, year)
  {
    FirstClaims(DatesOf(inks, year))
  }

  lemma {:induction false} ClaimsMember(ds: seq<Option<string>>, date: string)
    ensures date in FirstClaims(ds) <==> exists i :: 0 <= i < |ds| && ds[i] == Some(date)
  {
    if ds != [] {
      var last := |ds| - 1;
      var prefix := ds[..last];
      ClaimsMember(prefix, date);
      if date in FirstClaims(prefix) {
        var i :| 0 <= i < last && prefix[i] == Some(date);
        assert ds[i] == Some(date);
      } else if ds[last] != Some(date) {
        forall i | 0 <= i < |ds|
          ensures ds[i] != Some(date)
        {
          if i < last {
            assert prefix[i] == ds[i];
          }
        }
      }
    }
  }

  lemma {:induction false} ClaimsFirstWriter(ds: seq<Option<string>>, date: string)
    ensures date in FirstClaims(ds) ==>
      var i := FirstClaims(ds)[date];
      i < |ds| && ds[i] == Some(date) && forall j :: 0 <= j < i ==> ds[j] != Some(date)
  {
    if ds != [] {
      var last := |ds| - 1;
      var prefix := ds[..last];
      ClaimsFirstWriter(prefix, date);
      if date in FirstClaims(prefix) {
        assert forall j :: 0 <= j < last ==> prefix[j] == ds[j];
      } else if ds[last] == Some(date) {
        ClaimsMember(prefix, date);
        forall j | 0 <= j < last
          ensures ds[j] != Some(date)
        {
          assert prefix[j] == ds[j];
        }
      }
    }
  }

  /** A date is in the persisted layer exactly when some ink carries it. */
  lemma ExplicitMember(inks: seq<Ink>, year: nat, date: string)
    requires ReadableInks(inks, year)
    ensures date in Explicit(inks, year) <==> exists i :: 0 <= i < |inks| && DateOf(inks[i], year) == Some(date)
  {
    var ds := DatesOf(inks, year);
    ClaimsMember(ds, date);
    if date in Explicit(inks, year) {
      var i :| 0 <= i < |ds| && ds[i] == Some(date);
      assert DateOf(inks[i], year) == Some(date);
    }
  }

  /** First writer wins: a date of the persisted layer maps to the smallest index of an ink carrying it. */
  lemma ExplicitFirstWriter(inks: seq<Ink>, year: nat, date: string)
    requires ReadableInks(inks, year)
    ensures date in Explicit(inks, year) ==>
      var i := Explicit(inks, year)[date];
      i < |inks| && DateOf(inks[i], year) == Some(date) &&
      forall j :: 0 <= j < i ==> DateOf(inks[j], year) != Some(date)
  {
    ClaimsFirstWriter(DatesOf(inks, year), date);
  }

  /** Each ink contributes at most one date, so the persisted layer never maps two dates to one ink. */
  lemma ExplicitInjective(inks: seq<Ink>, year: nat, d1: string, d2: string)
    requires ReadableInks(inks, year)
    requires d1 in Explicit(inks, year) && d2 in Explicit(inks, year) && d1 != d2
    ensures Explicit(inks, year)[d1] != Explicit(inks, year)[d2]
  {
    ExplicitFirstWriter(inks, year, d1);
    ExplicitFirstWriter(inks, year, d2);
  }

  /** `create_explicit_assignments_only` */
  method CreateExplicitAssignmentsOnly(inks: seq<Ink>, year: nat) returns (assignments: map<string, nat>)
    requires ReadableInks(inks, year)
    ensures assignments == Explicit(inks, year)
    ensures forall d :: d in assignments ==> assignments[d] < |inks| && DateOf(inks[assignments[d]], year) == Some(d)
  {
    if |inks| == 0 {
      return map[];
    }
    assignments := map[];
    var assignedDates: set<string> := {};
    ghost var ds := DatesOf(inks, year);
    for i := 0 to |inks|
      invariant assignments == FirstClaims(ds[..i])
      invariant assignedDates == assignments.Keys
    {
      assert ds[..i + 1][..i] == ds[..i];
      var explicitDate := ExtractDate(inks[i].comment, year);
      if explicitDate.Some? {
        if explicitDate.value !in assignedDates {
          assignments := assignments[explicitDate.value := i];
          assignedDates := assignedDates + {explicitDate.value};
        }
      }
    }
    assert ds[..|inks|] == ds;
    forall d | d in assignments
      ensures assignments[d] < |inks| && DateOf(inks[assignments[d]], year) == Some(d)
    {
      ExplicitFirstWriter(inks, year, d);
    }
  }

  // ---------------------------------------------------------------------------
  // Month summary
  // ---------------------------------------------------------------------------

  predicate InParsedMonth(date: string, year: int, month: int) {
    IsDateText(date) && ParseDate(date).value.year == year && ParseDate(date).value.month == month
  }

  ghost function MonthDatesWith(assignments: map<string, nat>, dates: set<string>, year: int, month: int, v: nat): set<string> {
    set d | d in dates && d in assignments && InParsedMonth(d, year, month) && assignments[d] == v
  }

  lemma MonthDatesWithGrow(assignments: map<string, nat>, dates: set<string>, d: string, year: int, month: int, v: nat)
    requires d !in dates && d in assignments
    ensures |MonthDatesWith(assignments, dates + {d}, year, month, v)| ==
            |MonthDatesWith(assignments, dates, year, month, v)|
            + (if InParsedMonth(d, year, month) && assignments[d] == v then 1 else 0)
  {
    var before := MonthDatesWith(assignments, dates, year, month, v);
    if InParsedMonth(d, year, month) && assignments[d] == v {
      assert MonthDatesWith(assignments, dates + {d}, year, month, v) == before + {d};
    } else {
      assert MonthDatesWith(assignments, dates + {d}, year, month, v) == before;
    }
  }

  /** One step of the summary loop: date d is visited, and its ink is listed when d lies in the month. */
  lemma MonthSummaryStep(assignments: map<string, nat>, done: set<string>, d: string, year: int, month: int,
                         before: seq<nat>, after: seq<nat>)
    requires d !in done && d in assignments
    requires forall v :: multiset(before)[v] == |MonthDatesWith(assignments, done, year, month, v)|
    requires after == if InParsedMonth(d, year, month) then before + [assignments[d]] else before
    ensures forall v :: multiset(after)[v] == |MonthDatesWith(assignments, done + {d}, year, month, v)|
  {
    forall v ensures multiset(after)[v] == |MonthDatesWith(assignments, done + {d}, year, month, v)| {
      MonthDatesWithGrow(assignments, done, d, year, month, v);
      assert multiset(after)[v] == multiset(before)[v] + (if InParsedMonth(d, year, month) && assignments[d] == v then 1 else 0);
    }
  }

  /**
   * `get_month_summary`: every ink bound to a date of the month, once per date,
   * in no particular order; `None` where `strptime` raises on a key that is not
   * a `YYYY-MM-DD` date.
   */
  method GetMonthSummary(assignments: map<string, nat>, year: int, month: int) returns (r: Option<seq<nat>>)
    ensures r.None? <==> exists d :: d in assignments && !IsDateText(d)
    ensures r.Some? ==> forall v :: multiset(r.value)[v] == |MonthDatesWith(assignments, assignments.Keys, year, month, v)|
  {
    var monthInks := [];
    var rest := assignments.Keys;
    ghost var done: set<string> := {};
    while rest != {}
      invariant rest + done == assignments.Keys && rest !! done
      invariant forall d :: d in done ==> IsDateText(d)
      invariant forall v :: multiset(monthInks)[v] == |MonthDatesWith(assignments, done, year, month, v)|
      decreases rest
    {
      var d :| d in rest;
      if !IsDateText(d) {
        return None;
      }
      ghost var before := monthInks;
      var date := ParseDate(d).value;
      if date.year == year && date.month == month {
        monthInks := monthInks + [assignments[d]];
      }
      MonthSummaryStep(assignments, done, d, year, month, before, monthInks);
      rest := rest - {d};
      done := done + {d};
    }
    return Some(monthInks);
  }

  // ---------------------------------------------------------------------------
  // Finding an ink by name
  // ---------------------------------------------------------------------------

  /** `f"{brand} {name}"`, lower-cased. */
  function FullName(ink: Ink): string {
    Lower(ink.brand) + " " + Lower(ink.Name())
  }

  predicate ExactMatch(query: string, ink: Ink) {
    Lower(query) == FullName(ink) || Lower(query) == Lower(ink.Name())
  }

  predicate SubstringMatch(query: string, ink: Ink) {
    Contains(FullName(ink), Lower(query)) || Contains(Lower(ink.Name()), Lower(query))
  }

  lemma ExactIsSubstring(query: string, ink: Ink)
    requires ExactMatch(query, ink)
    ensures SubstringMatch(query, ink)
  {
    var q := Lower(query);
    if q == FullName(ink) {
      assert OccursAt(FullName(ink), q, 0);
    } else {
      assert OccursAt(Lower(ink.Name()), q, 0);
    }
  }

  function FirstExact(query: string, inks: seq<Ink>, from: nat): (r: Option<nat>)
    ensures r.Some? ==> from <= r.value < |inks|
    decreases |inks| - from
  {
    if from >= |inks| then None
    else if ExactMatch(query, inks[from]) then Some(from)
    else FirstExact(query, inks, from + 1)
  }

  /** The substring candidates among the first n inks, in index order. */
  function Candidates(query: string, inks: seq<Ink>, n: nat): (r: seq<nat>)
    requires n <= |inks|
    ensures forall k :: 0 <= k < |r| ==> r[k] < n
  {
    if n == 0 then []
    else Candidates(query, inks, n - 1) + (if SubstringMatch(query, inks[n - 1]) then [n - 1] else [])
  }

  /** The first candidate whose name is shortest: the head of a stable sort by name length. */
  function FirstShortest(inks: seq<Ink>, candidates: seq<nat>): (r: Option<nat>)
    requires forall k :: 0 <= k < |candidates| ==> candidates[k] < |inks|
    ensures r.Some? ==> r.value in candidates
    ensures r.None? <==> candidates == []
  {
    if candidates == [] then None
    else
      var last := candidates[|candidates| - 1];
      var best := FirstShortest(inks, candidates[..|candidates| - 1]);
      if best.None? || |inks[last].Name()| < |inks[best.value].Name()| then Some(last) else best
  }

  /** `find_ink_by_name`: the first exact match, else the shortest-named substring match. */
  function Resolve(query: string, inks: seq<Ink>): Option<nat> {
    var exact := FirstExact(query, inks, 0);
    if exact.Some? then exact else FirstShortest(inks, Candidates(query, inks, |inks|))
  }

  lemma {:induction false} FirstExactSpec(query: string, inks: seq<Ink>, from: nat)
    ensures FirstExact(query, inks, from).None? <==> forall i :: from <= i < |inks| ==> !ExactMatch(query, inks[i])
    ensures FirstExact(query, inks, from).Some? ==>
      var i := FirstExact(query, inks, from).value;
      ExactMatch(query, inks[i]) && forall j :: from <= j < i ==> !ExactMatch(query, inks[j])
    decreases |inks| - from
  {
    if from < |inks| && !ExactMatch(query, inks[from]) {
      FirstExactSpec(query, inks, from + 1);
    }
  }

  lemma {:induction false} CandidatesSpec(query: string, inks: seq<Ink>, n: nat)
    requires n <= |inks|
    ensures forall i :: 0 <= i < n ==> (SubstringMatch(query, inks[i]) <==> i in Candidates(query, inks, n))
    ensures forall k :: 0 <= k < |Candidates(query, inks, n)| ==> SubstringMatch(query, inks[Candidates(query, inks, n)[k]])
  {
    if n > 0 {
      CandidatesSpec(query, inks, n - 1);
    }
  }

  /** Among candidates, the chosen one has the shortest name, and is the earliest of those that tie. */
  lemma {:induction false} FirstShortestSpec(inks: seq<Ink>, candidates: seq<nat>)
    requires forall k :: 0 <= k < |candidates| ==> candidates[k] < |inks|
    requires forall k, l :: 0 <= k < l < |candidates| ==> candidates[k] < candidates[l]
    ensures FirstShortest(inks, candidates).Some? ==>
      var b := FirstShortest(inks, candidates).value;
      forall c :: c in candidates ==> |inks[b].Name()| <= |inks[c].Name()| && (|inks[b].Name()| == |inks[c].Name()| ==> b <= c)
  {
    if candidates != [] {
      var init := candidates[..|candidates| - 1];
      FirstShortestSpec(inks, init);
      var last := candidates[|candidates| - 1];
      assert forall c :: c in candidates ==> c in init || c == last;
      assert forall c :: c in init ==> c < last;
    }
  }

  lemma {:induction false} CandidatesIncreasing(query: string, inks: seq<Ink>, n: nat)
    requires n <= |inks|
    ensures forall k, l :: 0 <= k < l < |Candidates(query, inks, n)| ==> Candidates(query, inks, n)[k] < Candidates(query, inks, n)[l]
  {
    if n > 0 {
      CandidatesIncreasing(query, inks, n - 1);
    }
  }

  /**
   * What `find_ink_by_name` returns: nothing exactly when no name contains the
   * query; the first exact match when there is one; otherwise the substring
   * match with the shortest name, the earliest among equals.
   */
  lemma ResolveSpec(query: string, inks: seq<Ink>)
    ensures Resolve(query, inks).None? <==> forall i :: 0 <= i < |inks| ==> !SubstringMatch(query, inks[i])
    ensures Resolve(query, inks).Some? ==> Resolve(query, inks).value < |inks| && SubstringMatch(query, inks[Resolve(query, inks).value])
    ensures forall i :: 0 <= i < |inks| && ExactMatch(query, inks[i]) ==>
      Resolve(query, inks).Some? && Resolve(query, inks).value <= i && ExactMatch(query, inks[Resolve(query, inks).value])
    ensures (forall i :: 0 <= i < |inks| ==> !ExactMatch(query, inks[i])) ==>
      forall i :: 0 <= i < |inks| && SubstringMatch(query, inks[i]) ==>
        Resolve(query, inks).Some? &&
        var b := Resolve(query, inks).value;
        |inks[b].Name()| <= |inks[i].Name()| && (|inks[b].Name()| == |inks[i].Name()| ==> b <= i)
  {
    FirstExactSpec(query, inks, 0);
    CandidatesSpec(query, inks, |inks|);
    CandidatesIncreasing(query, inks, |inks|);
    FirstShortestSpec(inks, Candidates(query, inks, |inks|));
    var exact := FirstExact(query, inks, 0);
    if exact.Some? {
      ExactIsSubstring(query, inks[exact.value]);
    } else {
      var cands := Candidates(query, inks, |inks|);
      if cands != [] {
        assert cands[0] in cands;
      }
    }
  }

  /** `find_ink_by_name` */
  method FindInkByName(query: string, inks: seq<Ink>) returns (found: Option<nat>)
    ensures found == Resolve(query, inks)
  {
    var q := Lower(query);
    for i := 0 to |inks|
      invariant FirstExact(query, inks, 0) == FirstExact(query, inks, i)
    {
      if q == FullName(inks[i]) || q == Lower(inks[i].Name()) {
        return Some(i);
      }
    }
    var candidates: seq<nat> := [];
    for i := 0 to |inks|
      invariant candidates == Candidates(query, inks, i)
    {
      if Contains(FullName(inks[i]), q) || Contains(Lower(inks[i].Name()), q) {
        candidates := candidates + [i];
      }
    }
    // The head of `candidates` stably sorted by name length.
    found := None;
    for k := 0 to |candidates|
      invariant found == FirstShortest(inks, candidates[..k])
    {
      assert candidates[..k + 1][..k] == candidates[..k];
      if found.None? || |inks[candidates[k]].Name()| < |inks[found.value].Name()| {
        found := Some(candidates[k]);
      }
    }
    assert candidates[..|candidates|] == candidates;
  }

  // ---------------------------------------------------------------------------
  // Searching by filters
  // ---------------------------------------------------------------------------

  /** The AND of the given filters; `""` stands for a filter not given. */
  predicate MatchesFilters(ink: Ink, query: string, color: string, brand: string) {
    (query == "" || Contains(Lower(ink.brand + " " + ink.Name()), Lower(query))) &&
    (color == "" || exists t :: t in ink.tags && Lower(t) == Lower(color)) &&
    (brand == "" || Contains(Lower(ink.brand), Lower(brand)))
  }

  datatype SearchHit = SearchHit(index: nat, alreadyAssigned: bool)

  /** Every ink the filters select has an object comment (`has_assignment` reads only those). */
  predicate MatchesReadable(inks: seq<Ink>, query: string, color: string, brand: string) {
    forall i :: 0 <= i < |inks| && MatchesFilters(inks[i], query, color, brand) ==> ObjectComment(inks[i].comment)
  }

  /** `search_inks`: every matching ink, in index order, flagged with `has_assignment`. */
  method SearchInks(inks: seq<Ink>, year: nat, query: string, color: string, brand: string) returns (matches: seq<SearchHit>)
    requires MatchesReadable(inks, query, color, brand)
    ensures forall k :: 0 <= k < |matches| ==>
      matches[k].index < |inks| && MatchesFilters(inks[matches[k].index], query, color, brand) &&
      matches[k].alreadyAssigned == HasAssignment(inks[matches[k].index], year)
    ensures forall k, l :: 0 <= k < l < |matches| ==> matches[k].index < matches[l].index
    ensures forall i :: 0 <= i < |inks| && MatchesFilters(inks[i], query, color, brand) ==>
      exists k :: 0 <= k < |matches| && matches[k].index == i
  {
    matches := [];
    for i := 0 to |inks|
      invariant forall k :: 0 <= k < |matches| ==>
        matches[k].index < i && MatchesFilters(inks[matches[k].index], query, color, brand) &&
        matches[k].alreadyAssigned == HasAssignment(inks[matches[k].index], year)
      invariant forall k, l :: 0 <= k < l < |matches| ==> matches[k].index < matches[l].index
      invariant forall j :: 0 <= j < i && MatchesFilters(inks[j], query, color, brand) ==>
        exists k :: 0 <= k < |matches| && matches[k].index == j
    {
      var ink := inks[i];
      if query != "" && !Contains(Lower(ink.brand + " " + ink.Name()), Lower(query)) {
        continue;
      }
      if color != "" {
        var colorTags := seq(|ink.tags|, k requires 0 <= k < |ink.tags| => Lower(ink.tags[k]));
        if Lower(color) !in colorTags {
          assert !exists t :: t in ink.tags && Lower(t) == Lower(color) by {
            forall t | t in ink.tags ensures Lower(t) != Lower(color) {
              var k :| 0 <= k < |ink.tags| && ink.tags[k] == t;
              assert colorTags[k] == Lower(t);
            }
          }
          continue;
        }
        ghost var k :| 0 <= k < |colorTags| && colorTags[k] == Lower(color);
        assert ink.tags[k] in ink.tags;
      }
      if brand != "" && !Contains(Lower(ink.brand), Lower(brand)) {
        continue;
      }
      ghost var before := matches;
      matches := matches + [SearchHit(i, HasAssignment(ink, year))];
      assert forall k :: 0 <= k < |before| ==> matches[k] == before[k];
      assert matches[|matches| - 1].index == i;
    }
  }
}
