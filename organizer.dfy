/**
 * The checks applied to a year plan proposed by a language model: stripping
 * the code fence around its JSON reply, and validating that every ink is
 * placed in exactly one of the twelve months.
 */
module Organizer {
  import opened Wrappers
  import opened Text
  import opened Codec

  // ---------------------------------------------------------------------------
  // The reply text
  // ---------------------------------------------------------------------------

  function DropSuffix(s: string, n: nat): string
    requires n <= |s|
  {
    s[..|s| - n]
  }

  predicate EndsWith(s: string, suffix: string) {
    |suffix| <= |s| && s[|s| - |suffix|..] == suffix
  }

  /**
   * The fence removal between the two strips: a leading "```json", then a
   * leading "```", then a trailing "```", each cut when present.
   */
  function Unfence(t: string): string {
    var t1 := if "```json" <= t then t[7..] else t;
    var t2 := if "```" <= t1 then t1[3..] else t1;
    if EndsWith(t2, "```") then DropSuffix(t2, 3) else t2
  }

  /**
   * The text `parse_llm_monthly_assignments` hands to the JSON decoder:
   * stripped, unfenced, and stripped again.
   */
  function StripFences(reply: string): (text: string)
    ensures text == [] || (!IsSpace(text[0]) && !IsSpace(text[|text| - 1]))
  {
    Strip(Unfence(Strip(reply)))
  }

  /** A JSON object's text as a model writes it: braces at both ends. */
  predicate ObjectText(body: string) {
    |body| >= 2 && body[0] == '{' && body[|body| - 1] == '}'
  }

  /** Text that opens neither with a backquote nor with "json", and so survives after an opening fence. */
  predicate PlainStart(inner: string) {
    inner != [] && inner[0] != '`' && inner[0] != 'j'
  }

  lemma UnfenceFenced(open: string, inner: string)
    requires open == "```json" || open == "```"
    requires PlainStart(inner)
    ensures Unfence(open + inner + "```") == inner
  {
    var t := open + inner + "```";
    var t1 := if "```json" <= t then t[7..] else t;
    if open == "```json" {
      assert t1 == inner + "```";
    } else {
      assert t[3] == inner[0];
      assert t1 == t;
      assert t1[3..] == inner + "```";
    }
    var t2 := if "```" <= t1 then t1[3..] else t1;
    assert t2 == inner + "```";
    assert EndsWith(t2, "```");
    assert DropSuffix(t2, 3) == inner;
  }

  lemma UnfenceObject(body: string)
    requires ObjectText(body)
    ensures Unfence(body) == body
  {
    assert !("```" <= body);
    if |body| >= 3 {
      assert body[|body| - 3..][2] == body[|body| - 1];
    }
  }

  lemma StripObject(w0: string, body: string, w1: string)
    requires AllSpace(w0) && AllSpace(w1) && ObjectText(body)
    ensures Strip(w0 + body + w1) == body
  {
    StripOfSpaced(w0, body, w1);
  }

  lemma StrippedObject(body: string)
    requires ObjectText(body)
    ensures Strip(body) == body
  {
    StripObject([], body, []);
    assert [] + body + [] == body;
  }

  /** A fenced reply, with any whitespace around the fence and the body, yields exactly the body. */
  lemma FencedReply(w0: string, open: string, w1: string, body: string, w2: string, w3: string)
    requires open == "```json" || open == "```"
    requires AllSpace(w0) && AllSpace(w1) && AllSpace(w2) && AllSpace(w3)
    requires ObjectText(body)
    ensures StripFences(w0 + open + w1 + body + w2 + "```" + w3) == body
  {
    var inner := w1 + body + w2;
    var fenced := open + inner + "```";
    assert w0 + open + w1 + body + w2 + "```" + w3 == w0 + fenced + w3;
    assert fenced[0] == '`' && fenced[|fenced| - 1] == '`';
    StripOfSpaced(w0, fenced, w3);
    assert inner[0] == (if w1 == [] then body[0] else w1[0]);
    UnfenceFenced(open, inner);
    StripObject(w1, body, w2);
  }

  /** A bare reply yields its body, whatever whitespace surrounds it. */
  lemma BareReply(w0: string, body: string, w1: string)
    requires AllSpace(w0) && AllSpace(w1) && ObjectText(body)
    ensures StripFences(w0 + body + w1) == body
  {
    StripObject(w0, body, w1);
    UnfenceObject(body);
    StrippedObject(body);
  }

  /** The outcome of `parse_llm_monthly_assignments`: the decoded value, or the stripped text it could not decode. */
  datatype ParsedReply = Parsed(value: Json) | Undecodable(text: string)

  /**
   * `parse_llm_monthly_assignments`, with `json.loads` as the parameter
   * `loads` (`None` where it raises).
   */
  function ParseMonthlyAssignments(reply: string, loads: string -> Option<Json>): (r: ParsedReply)
    ensures r.Parsed? <==> loads(StripFences(reply)).Some?
    ensures r.Parsed? ==> r.value == loads(StripFences(reply)).value
    ensures r.Undecodable? ==> r.text == StripFences(reply)
  {
    match loads(StripFences(reply))
    case Some(v) => Parsed(v)
    case None => Undecodable(StripFences(reply))
  }

  /** Fenced or bare, a reply whose body decodes is decoded from its body. */
  lemma ParseFencedReply(w0: string, open: string, w1: string, body: string, w2: string, w3: string,
                         loads: string -> Option<Json>)
    requires open == "```json" || open == "```"
    requires AllSpace(w0) && AllSpace(w1) && AllSpace(w2) && AllSpace(w3)
    requires ObjectText(body) && loads(body).Some?
    ensures ParseMonthlyAssignments(w0 + open + w1 + body + w2 + "```" + w3, loads) == Parsed(loads(body).value)
    ensures ParseMonthlyAssignments(w0 + body + w3, loads) == Parsed(loads(body).value)
  {
    FencedReply(w0, open, w1, body, w2, w3);
    BareReply(w0, body, w3);
  }

  // ---------------------------------------------------------------------------
  // Validation
  // ---------------------------------------------------------------------------

  /** One entry of `monthly_themes`: its key and its `ink_indices` list, `None` when absent. */
  datatype MonthPlan = MonthPlan(key: string, inkIndices: Option<seq<int>>)

  /** The errors `validate_monthly_assignments` reports, without their wording. */
  datatype ValidationError =
    | MissingMonth(month: nat)
    | MultipleMonths(index: int)
    | NotAssigned(indices: seq<int>)
    | InvalidIndices(indices: seq<int>)

  /** The month keys of `monthly_themes`. */
  function Keys(plans: seq<MonthPlan>): (keys: set<string>)
    ensures forall i :: 0 <= i < |plans| ==> plans[i].key in keys
    ensures forall k :: k in keys ==> exists i :: 0 <= i < |plans| && plans[i].key == k
  {
    set p | p in plans :: p.key
  }

  function IndicesOf(p: MonthPlan): seq<int> {
    p.inkIndices.GetOr([])
  }

  /** Every listed index, month by month in the plan's order. */
  function Flat(plans: seq<MonthPlan>): seq<int>
    decreases |plans|
  {
    if plans == [] then [] else Flat(plans[..|plans| - 1]) + IndicesOf(plans[|plans| - 1])
  }

  function Elems(s: seq<int>): set<int> {
    set x | x in s
  }

  /** `set(range(n))` */
  function Range(n: int): (r: set<int>)
    ensures forall i :: i in r <==> 0 <= i < n
    decreases if n < 0 then 0 else n
  {
    if n <= 0 then {} else Range(n - 1) + {n - 1}
  }

  predicate Distinct(s: seq<int>) {
    forall i, j :: 0 <= i < j < |s| ==> s[i] != s[j]
  }

  /** One error per month in `1..m-1` whose key (`str(month)`) is absent, in month order. */
  function MissingBelow(keys: set<string>, m: nat): (r: seq<ValidationError>)
    ensures forall i :: 0 <= i < |r| ==> r[i].MissingMonth? && 1 <= r[i].month < m && NatToString(r[i].month) !in keys
    ensures forall k :: 1 <= k < m && NatToString(k) !in keys ==> MissingMonth(k) in r
    ensures forall i, j :: 0 <= i < j < |r| ==> r[i].month < r[j].month
  {
    if m <= 1 then []
    else MissingBelow(keys, m - 1) + (if NatToString(m - 1) in keys then [] else [MissingMonth(m - 1)])
  }

  /** One error for each occurrence of an index after its first, in order of occurrence. */
  function Repeats(s: seq<int>): (r: seq<ValidationError>)
    ensures forall i :: 0 <= i < |r| ==> r[i].MultipleMonths? && r[i].index in s
  {
    if s == [] then []
    else
      var prefix := s[..|s| - 1];
      Repeats(prefix) + (if s[|s| - 1] in prefix then [MultipleMonths(s[|s| - 1])] else [])
  }

  lemma {:induction false} MinExists(s: set<int>)
    requires s != {}
    ensures exists m :: m in s && forall x :: x in s ==> m <= x
    decreases |s|
  {
    assert exists y :: y in s by {
      if forall y :: y !in s {
        assert false;
      }
    }
    var y :| y in s;
    if s != {y} {
      var rest := s - {y};
      MinExists(rest);
      var m :| m in rest && forall x :: x in rest ==> m <= x;
      var least := if y < m then y else m;
      forall x | x in s
        ensures least <= x
      {
        if x != y {
          assert x in rest;
        }
      }
      assert least in s;
    } else {
      assert forall x :: x in s ==> y <= x;
    }
  }

  /** The smallest element of a non-empty set. */
  function MinOf(s: set<int>): (m: int)
    requires s != {}
    ensures m in s && forall x :: x in s ==> m <= x
  {
    MinExists(s);
    var m :| m in s && forall x :: x in s ==> m <= x;
    m
  }

  /** `sorted(s)` for a set: its elements in strictly increasing order. */
  function SortedElems(s: set<int>): (r: seq<int>)
    ensures |r| == |s|
    ensures forall x :: x in r <==> x in s
    ensures forall i, j :: 0 <= i < j < |r| ==> r[i] < r[j]
    decreases |s|
  {
    if s == {} then []
    else
      var m := MinOf(s);
      [m] + SortedElems(s - {m})
  }

  lemma NonEmptyHasElement(s: set<int>)
    ensures s != {} <==> exists x :: x in s
  {
    if s != {} {
      assert exists x :: x in s by {
        if forall x :: x !in s {
          assert false;
        }
      }
    }
  }

  lemma MissingWitness(listed: set<int>, numInks: int)
    ensures Range(numInks) - listed != {} <==> SomeUnlisted(listed, numInks)
  {
    var missing := Range(numInks) - listed;
    if missing != {} {
      NonEmptyHasElement(missing);
      var x :| x in missing;
      assert 0 <= x < numInks && x !in listed;
    } else {
      forall x | 0 <= x < numInks
        ensures x in listed
      {
        assert x in Range(numInks) && x !in missing;
      }
    }
  }

  lemma ExtraWitness(listed: set<int>, numInks: int)
    ensures listed - Range(numInks) != {} <==> SomeOutOfRange(listed, numInks)
  {
    var extra := listed - Range(numInks);
    if extra != {} {
      NonEmptyHasElement(extra);
      var x :| x in extra;
      assert x in listed && !(0 <= x < numInks);
    } else {
      forall x | x in listed
        ensures 0 <= x < numInks
      {
        assert x !in extra;
      }
    }
  }

  predicate Increasing(s: seq<int>) {
    forall i, j :: 0 <= i < j < |s| ==> s[i] < s[j]
  }

  /** Some index `0..numInks-1` is not listed. */
  predicate SomeUnlisted(listed: set<int>, numInks: int) {
    exists x :: 0 <= x < numInks && x !in listed
  }

  /** Some listed index lies outside `0..numInks-1`. */
  predicate SomeOutOfRange(listed: set<int>, numInks: int) {
    exists x :: x in listed && !(0 <= x < numInks)
  }

  /** `e` is `NotAssigned` listing, in increasing order, exactly the indices `0..numInks-1` not in `listed`. */
  ghost predicate ReportsUnlisted(e: ValidationError, listed: set<int>, numInks: int) {
    e.NotAssigned? && Increasing(e.indices) &&
    forall x :: x in e.indices <==> 0 <= x < numInks && x !in listed
  }

  /** `e` is `InvalidIndices` listing, in increasing order, exactly the indices in `listed` outside `0..numInks-1`. */
  ghost predicate ReportsOutOfRange(e: ValidationError, listed: set<int>, numInks: int) {
    e.InvalidIndices? && Increasing(e.indices) &&
    forall x :: x in e.indices <==> x in listed && !(0 <= x < numInks)
  }

  /** The `NotAssigned` error, when some index `0..numInks-1` is never listed. */
  function UnlistedError(listed: set<int>, numInks: int): (r: seq<ValidationError>)
    ensures |r| <= 1
    ensures r != [] <==> SomeUnlisted(listed, numInks)
    ensures r != [] ==> ReportsUnlisted(r[0], listed, numInks)
    ensures forall e :: e in r ==> e.NotAssigned?
  {
    var missing := Range(numInks) - listed;
    MissingWitness(listed, numInks);
    if missing != {} then [NotAssigned(SortedElems(missing))] else []
  }

  /** The `InvalidIndices` error, when some listed index lies outside `0..numInks-1`. */
  function OutOfRangeError(listed: set<int>, numInks: int): (r: seq<ValidationError>)
    ensures |r| <= 1
    ensures r != [] <==> SomeOutOfRange(listed, numInks)
    ensures r != [] ==> ReportsOutOfRange(r[0], listed, numInks)
    ensures forall e :: e in r ==> e.InvalidIndices?
  {
    var extra := listed - Range(numInks);
    ExtraWitness(listed, numInks);
    if extra != {} then [InvalidIndices(SortedElems(extra))] else []
  }

  /**
   * The errors about coverage: first a `NotAssigned` error exactly when some
   * index `0..numInks-1` is never listed, then an `InvalidIndices` error exactly
   * when some listed index lies outside that range; each lists its indices in
   * increasing order.
   */
  function Coverage(listed: set<int>, numInks: int): (r: seq<ValidationError>)
    ensures |r| == (if SomeUnlisted(listed, numInks) then 1 else 0)
                 + (if SomeOutOfRange(listed, numInks) then 1 else 0)
    ensures SomeUnlisted(listed, numInks) <==> |r| > 0 && ReportsUnlisted(r[0], listed, numInks)
    ensures SomeOutOfRange(listed, numInks) <==> |r| > 0 && ReportsOutOfRange(r[|r| - 1], listed, numInks)
    ensures forall e :: e in r ==> e.NotAssigned? || e.InvalidIndices?
  {
    var unlisted := UnlistedError(listed, numInks);
    var outOfRange := OutOfRangeError(listed, numInks);
    var r := unlisted + outOfRange;
    assert |r| == |unlisted| + |outOfRange|;
    assert unlisted != [] ==> r[0] == unlisted[0];
    assert outOfRange != [] ==> r[|r| - 1] == outOfRange[0];
    assert outOfRange == [] && unlisted != [] ==> r[|r| - 1] == unlisted[0];
    assert unlisted == [] && outOfRange != [] ==> r[0] == outOfRange[0];
    r
  }

  /** The errors about indices: repeats, then coverage. */
  function InkErrors(flat: seq<int>, numInks: int): (r: seq<ValidationError>)
    ensures forall e :: e in r ==> !e.MissingMonth?
  {
    Repeats(flat) + Coverage(Elems(flat), numInks)
  }

  /** What `validate_monthly_assignments` reports for a plan (`None`: no `monthly_themes` key) over `numInks` inks. */
  function ValidationErrors(monthlyThemes: Option<seq<MonthPlan>>, numInks: int): seq<ValidationError> {
    var plans := monthlyThemes.GetOr([]);
    MissingBelow(Keys(plans), 13) + InkErrors(Flat(plans), numInks)
  }

  lemma RepeatsStep(seen: seq<int>, x: int)
    ensures Repeats(seen + [x]) == Repeats(seen) + (if x in seen then [MultipleMonths(x)] else [])
    ensures Elems(seen + [x]) == Elems(seen) + {x}
  {
    assert (seen + [x])[..|seen|] == seen;
  }

  lemma FlatStep(plans: seq<MonthPlan>, i: nat)
    requires i < |plans|
    ensures Flat(plans[..i + 1]) == Flat(plans[..i]) + IndicesOf(plans[i])
  {
    assert plans[..i + 1][..i] == plans[..i];
  }

  /**
   * The inner loop over one month's `ink_indices`: the repeat errors it adds
   * and the set of indices seen so far.
   */
  method NoteIndices(ghost seen: seq<int>, assignedBefore: set<int>, indices: seq<int>)
    returns (repeats: seq<ValidationError>, assignedAfter: set<int>)
    requires assignedBefore == Elems(seen)
    ensures Repeats(seen) + repeats == Repeats(seen + indices)
    ensures assignedAfter == Elems(seen + indices)
  {
    repeats := [];
    assignedAfter := assignedBefore;
    assert seen + indices[..0] == seen;
    for j := 0 to |indices|
      invariant Repeats(seen) + repeats == Repeats(seen + indices[..j])
      invariant assignedAfter == Elems(seen + indices[..j])
    {
      var idx := indices[j];
      assert seen + indices[..j + 1] == (seen + indices[..j]) + [idx];
      RepeatsStep(seen + indices[..j], idx);
      if idx in assignedAfter {
        repeats := repeats + [MultipleMonths(idx)];
      }
      assignedAfter := assignedAfter + {idx};
    }
    assert indices[..|indices|] == indices;
  }

  /** The first loop of `validate_monthly_assignments`: months 1 to 12 whose key is absent. */
  method ReportMissingMonths(keys: set<string>) returns (errors: seq<ValidationError>)
    ensures errors == MissingBelow(keys, 13)
  {
    errors := [];
    for month := 1 to 13
      invariant errors == MissingBelow(keys, month)
    {
      if NatToString(month) !in keys {
        errors := errors + [MissingMonth(month)];
      }
    }
  }

  /** The second loop of `validate_monthly_assignments`: repeats over all months, and every index listed. */
  method ReportRepeats(plans: seq<MonthPlan>) returns (repeats: seq<ValidationError>, allAssigned: set<int>)
    ensures repeats == Repeats(Flat(plans))
    ensures allAssigned == Elems(Flat(plans))
  {
    repeats := [];
    allAssigned := {};
    for i := 0 to |plans|
      invariant repeats == Repeats(Flat(plans[..i]))
      invariant allAssigned == Elems(Flat(plans[..i]))
    {
      FlatStep(plans, i);
      var more;
      more, allAssigned := NoteIndices(Flat(plans[..i]), allAssigned, IndicesOf(plans[i]));
      repeats := repeats + more;
    }
    assert plans[..|plans|] == plans;
  }

  /** The last two checks of `validate_monthly_assignments`, given the indices listed. */
  method ReportCoverage(allAssigned: set<int>, numInks: int) returns (errors: seq<ValidationError>)
    ensures errors == Coverage(allAssigned, numInks)
  {
    errors := [];
    var expected := Range(numInks);
    var missing := expected - allAssigned;
    if missing != {} {
      errors := errors + [NotAssigned(SortedElems(missing))];
    }
    assert errors == UnlistedError(allAssigned, numInks);
    var extra := allAssigned - expected;
    if extra != {} {
      errors := errors + [InvalidIndices(SortedElems(extra))];
    }
  }

  /** `validate_monthly_assignments` */
  method ValidateMonthlyAssignments(monthlyThemes: Option<seq<MonthPlan>>, numInks: int) returns (errors: seq<ValidationError>)
    ensures errors == ValidationErrors(monthlyThemes, numInks)
  {
    var plans := monthlyThemes.GetOr([]);
    var missingMonths := ReportMissingMonths(Keys(plans));
    var repeats, allAssigned := ReportRepeats(plans);
    var coverage := ReportCoverage(allAssigned, numInks);
    errors := missingMonths + (repeats + coverage);
  }

  // ---------------------------------------------------------------------------
  // What the errors mean
  // ---------------------------------------------------------------------------

  /** No repeat is reported exactly when no index is listed twice. */
  lemma {:induction false} RepeatsEmptyIffDistinct(s: seq<int>)
    ensures Repeats(s) == [] <==> Distinct(s)
  {
    if s != [] {
      var prefix := s[..|s| - 1];
      RepeatsEmptyIffDistinct(prefix);
      if Distinct(s) {
        assert Distinct(prefix) by {
          forall i, j | 0 <= i < j < |prefix|
            ensures prefix[i] != prefix[j]
          {
            assert prefix[i] == s[i] && prefix[j] == s[j];
          }
        }
        assert s[|s| - 1] !in prefix;
      }
      if Repeats(s) == [] {
        assert Distinct(prefix) && s[|s| - 1] !in prefix;
        forall i, j | 0 <= i < j < |s|
          ensures s[i] != s[j]
        {
          if j < |s| - 1 {
            assert s[i] == prefix[i] && s[j] == prefix[j];
          } else {
            assert s[i] == prefix[i];
          }
        }
      }
    }
  }

  /** Repeats reported plus distinct indices listed is the number of indices listed. */
  lemma {:induction false} RepeatsCount(s: seq<int>)
    ensures |Repeats(s)| + |Elems(s)| == |s|
  {
    if s != [] {
      var prefix := s[..|s| - 1];
      var x := s[|s| - 1];
      RepeatsCount(prefix);
      assert s == prefix + [x];
      assert Elems(s) == Elems(prefix) + {x};
      if x in prefix {
        assert Elems(s) == Elems(prefix);
      } else {
        assert x !in Elems(prefix);
      }
    }
  }

  /** Exactly the absent month keys are reported, in month order, so each at most once. */
  lemma MissingMonthsReported(monthlyThemes: Option<seq<MonthPlan>>, numInks: int, month: nat)
    requires 1 <= month <= 12
    ensures MissingMonth(month) in ValidationErrors(monthlyThemes, numInks)
            <==> NatToString(month) !in Keys(monthlyThemes.GetOr([]))
  {
    var plans := monthlyThemes.GetOr([]);
    var r := MissingBelow(Keys(plans), 13);
    var tail := InkErrors(Flat(plans), numInks);
    var e := ValidationErrors(monthlyThemes, numInks);
    assert e == r + tail;
  }

  /** The index errors are empty exactly when every index `0..numInks-1` is listed once and no other is. */
  lemma InkErrorsEmptyIff(flat: seq<int>, numInks: int)
    ensures InkErrors(flat, numInks) == [] <==> Distinct(flat) && Elems(flat) == Range(numInks)
  {
    RepeatsEmptyIffDistinct(flat);
    var missing := Range(numInks) - Elems(flat);
    var extra := Elems(flat) - Range(numInks);
    if Elems(flat) != Range(numInks) {
      assert missing != {} || extra != {};
    }
  }

  /** Every month key `"1"` to `"12"` is present. */
  predicate AllMonthsPresent(keys: set<string>) {
    forall m :: 1 <= m <= 12 ==> NatToString(m) in keys
  }

  /** No month is reported missing exactly when all twelve keys are present. */
  lemma MissingBelowEmptyIff(keys: set<string>)
    ensures MissingBelow(keys, 13) == [] <==> AllMonthsPresent(keys)
  {
    var r := MissingBelow(keys, 13);
    forall m | 1 <= m <= 12
      ensures NatToString(m) in keys || MissingMonth(m) in r
    {
    }
    if r != [] {
      var e := r[0];
      assert e in r;
      assert NatToString(e.month) !in keys && 1 <= e.month <= 12;
    }
  }

  /**
   * The plan is accepted exactly when all twelve month keys are present and
   * every index `0..numInks-1` is listed exactly once, with no other index.
   */
  lemma ValidIff(monthlyThemes: Option<seq<MonthPlan>>, numInks: int)
    ensures ValidationErrors(monthlyThemes, numInks) == [] <==>
      AllMonthsPresent(Keys(monthlyThemes.GetOr([]))) &&
      Distinct(Flat(monthlyThemes.GetOr([]))) && Elems(Flat(monthlyThemes.GetOr([]))) == Range(numInks)
  {
    var plans := monthlyThemes.GetOr([]);
    InkErrorsEmptyIff(Flat(plans), numInks);
    MissingBelowEmptyIff(Keys(plans));
    var r := MissingBelow(Keys(plans), 13);
    var tail := InkErrors(Flat(plans), numInks);
    assert ValidationErrors(monthlyThemes, numInks) == r + tail;
    assert |r + tail| == |r| + |tail|;
  }
}
