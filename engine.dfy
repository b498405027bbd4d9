/**
 * The single mutation path for session (unsaved) assignments: assign,
 * unassign, move and swap, all as pure functions from the old session to a
 * new one. Dates held by the persisted (API) layer are protected.
 */
module Engine {
  import opened Wrappers
  import opened Calendar

  /** Date string to ink index. */
  type Assignments = map<string, nat>

  /** `{**session, **api}`: the persisted layer wins where both have a date. */
  function Merged(session: Assignments, api: Assignments): (m: Assignments)
    ensures m.Keys == session.Keys + api.Keys
    ensures forall d :: d in api ==> m[d] == api[d]
    ensures forall d :: d in session && d !in api ==> m[d] == session[d]
  {
    session + api
  }

  datatype Operation = Assign | Unassign | Move | Swap

  datatype Failure =
    | NoDates                                  // neither from_date nor to_date
    | BadFormat(field: string, date: string)   // not a YYYY-MM-DD date
    | Protected(date: string)                  // the date belongs to the persisted layer
    | NoSessionEntry(date: string)             // nothing in the session to unassign or move
    | IndexMismatch(expected: nat, got: nat)   // the given ink is not the one on from_date
    | IndexRequired                            // assign without an ink
    | AlreadyAssigned                          // the ink already has a date in the merged view
    | NoAssignment(date: string)               // swap with an empty date

  /** `MoveResult`: its `success`, `operation`, `protected`, `already_assigned` and `displaced_ink_idx` fields. */
  datatype MoveResult = Failed(failure: Failure) | Done(operation: Operation, displaced: Option<nat>)
  {
    predicate Success() { Done? }
    predicate IsProtected() { Failed? && failure.Protected? }
    predicate IsAlreadyAssigned() { Failed? && failure.AlreadyAssigned? }
  }

  datatype Outcome = Outcome(session: Assignments, result: MoveResult)

  function Fail(session: Assignments, f: Failure): Outcome {
    Outcome(session, Failed(f))
  }

  /** Every date other than a and b has the same entry (or absence) in both maps. */
  ghost predicate SameElsewhere(s: Assignments, t: Assignments, a: Option<string>, b: Option<string>) {
    forall d :: Some(d) != a && Some(d) != b ==> (d in s <==> d in t) && (d in s ==> s[d] == t[d])
  }

  /** At least one date is given, and each given date is in `YYYY-MM-DD` form. */
  predicate DatesWellFormed(from: Option<string>, to: Option<string>) {
    (from.Some? || to.Some?) &&
    (from.Some? ==> IsDateText(from.value)) &&
    (to.Some? ==> IsDateText(to.value))
  }

  /**
   * The source side of a move passes its checks: a given `from` is a session
   * date not held by the persisted layer, carrying the given ink if one is
   * named; with no `from`, an ink is named.
   */
  predicate SourceReady(session: Assignments, api: Assignments, from: Option<string>, idx: Option<nat>) {
    (from.Some? ==> from.value !in api && from.value in session &&
                    (idx.Some? ==> idx.value == session[from.value])) &&
    (from.None? ==> idx.Some?)
  }

  /** `move_ink_assignment` */
  function MoveInk(session: Assignments, api: Assignments, from: Option<string>, to: Option<string>, idx: Option<nat>): (r: Outcome)
    ensures !r.result.Success() ==> r.session == session
    ensures r.result.Success() ==>
      SameElsewhere(session, r.session, from, to) &&
      (from.Some? ==> from.value !in api && from.value in session) &&
      (to.Some? ==> to.value !in api && IsDateText(to.value))
    ensures r.result == Done(Unassign, None) <==> (r.result.Success() && to.None?)
    ensures r.result.Success() && to.None? ==> from.Some? && r.session == session - {from.value}
    ensures r.result.Success() && from.None? ==>
      r.result.operation == Assign && idx.Some? && idx.value !in Merged(session, api).Values &&
      r.session == session[to.value := idx.value] &&
      r.result.displaced == (if to.value in session then Some(session[to.value]) else None)
    ensures r.result.Success() && from.Some? && to.Some? ==>
      r.result.operation == Move && (idx.Some? ==> idx.value == session[from.value]) &&
      r.session == (session - {from.value})[to.value := session[from.value]] &&
      r.result.displaced == (if to.value in session then Some(session[to.value]) else None)
    // The failures, each reported when every earlier check passes, in the source's order.
    ensures from.None? && to.None? ==> r == Fail(session, NoDates)
    ensures from.Some? && !IsDateText(from.value) ==> r == Fail(session, BadFormat("from_date", from.value))
    ensures (from.Some? ==> IsDateText(from.value)) && to.Some? && !IsDateText(to.value) ==>
              r == Fail(session, BadFormat("to_date", to.value))
    ensures DatesWellFormed(from, to) && from.Some? && from.value in api ==>
              r == Fail(session, Protected(from.value))
    ensures DatesWellFormed(from, to) && from.Some? && from.value !in api && from.value !in session ==>
              r == Fail(session, NoSessionEntry(from.value))
    ensures DatesWellFormed(from, to) && from.Some? && from.value !in api && from.value in session &&
            idx.Some? && idx.value != session[from.value] ==>
              r == Fail(session, IndexMismatch(session[from.value], idx.value))
    ensures DatesWellFormed(from, to) && from.None? && idx.None? ==> r == Fail(session, IndexRequired)
    ensures DatesWellFormed(from, to) && SourceReady(session, api, from, idx) && to.Some? && to.value in api ==>
              r == Fail(session, Protected(to.value))
    ensures DatesWellFormed(from, to) && SourceReady(session, api, from, idx) && to.Some? && to.value !in api &&
            from.None? && idx.value in Merged(session, api).Values ==>
              r == Fail(session, AlreadyAssigned)
    ensures r.result.Success() <==>
              DatesWellFormed(from, to) && SourceReady(session, api, from, idx) &&
              (to.Some? ==> to.value !in api) &&
              (from.None? ==> idx.value !in Merged(session, api).Values)
  {
    if from.None? && to.None? then Fail(session, NoDates)
    else if from.Some? && !IsDateText(from.value) then Fail(session, BadFormat("from_date", from.value))
    else if to.Some? && !IsDateText(to.value) then Fail(session, BadFormat("to_date", to.value))
    else if from.Some? && from.value in api then Fail(session, Protected(from.value))
    else if from.Some? && from.value !in session then Fail(session, NoSessionEntry(from.value))
    else if from.Some? && idx.Some? && idx.value != session[from.value] then
      Fail(session, IndexMismatch(session[from.value], idx.value))
    else if from.None? && idx.None? then Fail(session, IndexRequired)
    else
      var ink := if from.Some? then session[from.value] else idx.value;
      if to.None? then
        Outcome(session - {from.value}, Done(Unassign, None))
      else if to.value in api then Fail(session, Protected(to.value))
      else
        var displaced := if to.value in session then Some(session[to.value]) else None;
        if from.None? then
          if ink in Merged(session, api).Values then Fail(session, AlreadyAssigned)
          else Outcome(session[to.value := ink], Done(Assign, displaced))
        else
          Outcome((session - {from.value})[to.value := ink], Done(Move, displaced))
  }

  /** `swap_ink_assignments` */
  function SwapInks(session: Assignments, api: Assignments, date1: string, date2: string): (r: Outcome)
    ensures !r.result.Success() ==> r.session == session
    ensures r.result.Success() ==>
      r.result == Done(Swap, None) &&
      IsDateText(date1) && IsDateText(date2) &&
      date1 !in api && date2 !in api && date1 in session && date2 in session &&
      r.session.Keys == session.Keys &&
      r.session[date1] == session[date2] && r.session[date2] == session[date1] &&
      SameElsewhere(session, r.session, Some(date1), Some(date2))
    ensures r.result.Success() <==>
      IsDateText(date1) && IsDateText(date2) && date1 !in api && date2 !in api && date1 in session && date2 in session
    // The failures, each reported when every earlier check passes, in the source's order.
    ensures !IsDateText(date1) ==> r == Fail(session, BadFormat("date1", date1))
    ensures IsDateText(date1) && !IsDateText(date2) ==> r == Fail(session, BadFormat("date2", date2))
    ensures IsDateText(date1) && IsDateText(date2) && date1 in api ==> r == Fail(session, Protected(date1))
    ensures IsDateText(date1) && IsDateText(date2) && date1 !in api && date2 in api ==>
              r == Fail(session, Protected(date2))
    ensures IsDateText(date1) && IsDateText(date2) && date1 !in api && date2 !in api && date1 !in session ==>
              r == Fail(session, NoAssignment(date1))
    ensures IsDateText(date1) && IsDateText(date2) && date1 !in api && date2 !in api && date1 in session &&
            date2 !in session ==>
              r == Fail(session, NoAssignment(date2))
  {
    if !IsDateText(date1) then Fail(session, BadFormat("date1", date1))
    else if !IsDateText(date2) then Fail(session, BadFormat("date2", date2))
    else if date1 in api then Fail(session, Protected(date1))
    else if date2 in api then Fail(session, Protected(date2))
    else
      var merged := Merged(session, api);
      if date1 !in merged then Fail(session, NoAssignment(date1))
      else if date2 !in merged then Fail(session, NoAssignment(date2))
      else Outcome(session[date1 := merged[date2]][date2 := merged[date1]], Done(Swap, None))
  }

  // ---------------------------------------------------------------------------
  // Properties
  // ---------------------------------------------------------------------------

  /** A well-formed date held by the persisted layer can be neither vacated nor overwritten. */
  lemma ProtectedDatesRejected(session: Assignments, api: Assignments, from: Option<string>, to: Option<string>, idx: Option<nat>)
    requires from.Some? ==> IsDateText(from.value)
    requires to.Some? ==> IsDateText(to.value)
    requires (from.Some? && from.value in api) || (to.Some? && to.value in api)
    ensures MoveInk(session, api, from, to, idx).result.Failed?
    ensures from.Some? && from.value in api ==> MoveInk(session, api, from, to, idx).result.IsProtected()
  {
  }

  /** The session keeps its entry (or its absence) on `d`. */
  ghost predicate KeepsEntry(before: Assignments, after: Assignments, d: string) {
    (d in after <==> d in before) && (d in before ==> after[d] == before[d])
  }

  /**
   * Neither a move nor a swap ever writes or clears the session entry of a date
   * the persisted layer holds, whatever the arguments: naming such a date makes
   * the operation fail (with `Protected`, by the contracts above) and a failure
   * leaves the session as it was.
   */
  lemma PersistedLayerUntouched(session: Assignments, api: Assignments, from: Option<string>, to: Option<string>, idx: Option<nat>, d1: string, d2: string)
    ensures forall d :: d in api ==> KeepsEntry(session, MoveInk(session, api, from, to, idx).session, d)
    ensures forall d :: d in api ==> KeepsEntry(session, SwapInks(session, api, d1, d2).session, d)
  {
    var m := MoveInk(session, api, from, to, idx);
    var s := SwapInks(session, api, d1, d2);
    forall d | d in api ensures KeepsEntry(session, m.session, d) && KeepsEntry(session, s.session, d) {
      if m.result.Success() {
        assert Some(d) != from && Some(d) != to;
      }
      if s.result.Success() {
        assert d != d1 && d != d2;
      }
    }
  }

  /** An assign that displaced nothing is undone by unassigning the same date. */
  lemma AssignThenUnassign(session: Assignments, api: Assignments, date: string, ink: nat)
    requires MoveInk(session, api, None, Some(date), Some(ink)).result == Done(Assign, None)
    ensures
      var after := MoveInk(session, api, None, Some(date), Some(ink)).session;
      MoveInk(after, api, Some(date), None, None) == Outcome(session, Done(Unassign, None))
  {
    var after := MoveInk(session, api, None, Some(date), Some(ink)).session;
    assert after - {date} == session;
  }

  /** A move onto an empty date is undone by the move back. */
  lemma MoveThenMoveBack(session: Assignments, api: Assignments, from: string, to: string)
    requires MoveInk(session, api, Some(from), Some(to), None).result == Done(Move, None)
    ensures
      var after := MoveInk(session, api, Some(from), Some(to), None).session;
      MoveInk(after, api, Some(to), Some(from), None) == Outcome(session, Done(Move, None))
  {
    var after := MoveInk(session, api, Some(from), Some(to), None).session;
    assert to != from;
    assert (after - {to})[from := after[to]] == session;
  }

  /** Swapping the same two dates twice restores the session. */
  lemma SwapTwice(session: Assignments, api: Assignments, date1: string, date2: string)
    requires SwapInks(session, api, date1, date2).result.Success()
    ensures
      var after := SwapInks(session, api, date1, date2).session;
      SwapInks(after, api, date1, date2) == Outcome(session, Done(Swap, None))
  {
    var after := SwapInks(session, api, date1, date2).session;
    var again := SwapInks(after, api, date1, date2).session;
    assert again == session;
  }

  /** No ink is shown on two dates of the merged view. */
  predicate Consistent(session: Assignments, api: Assignments) {
    var m := Merged(session, api);
    forall d1, d2 :: d1 in m && d2 in m && d1 != d2 ==> m[d1] != m[d2]
  }

  lemma UnassignKeepsConsistent(session: Assignments, api: Assignments, date: string)
    requires Consistent(session, api) && date !in api
    ensures Consistent(session - {date}, api)
  {
    var m, m' := Merged(session, api), Merged(session - {date}, api);
    assert forall d :: d in m' ==> d in m && m'[d] == m[d];
  }

  lemma AssignKeepsConsistent(session: Assignments, api: Assignments, date: string, ink: nat)
    requires Consistent(session, api) && date !in api && ink !in Merged(session, api).Values
    ensures Consistent(session[date := ink], api)
  {
    var m, m' := Merged(session, api), Merged(session[date := ink], api);
    assert forall d :: d in m' && d != date ==> d in m && m'[d] == m[d];
    forall d1, d2 | d1 in m' && d2 in m' && d1 != d2 ensures m'[d1] != m'[d2] {
      if d1 == date {
        assert m[d2] in m.Values;
      } else if d2 == date {
        assert m[d1] in m.Values;
      }
    }
  }

  lemma MoveKeepsConsistentStep(session: Assignments, api: Assignments, from: string, to: string)
    requires Consistent(session, api) && from in session && from !in api && to !in api
    ensures Consistent((session - {from})[to := session[from]], api)
  {
    var m, m' := Merged(session, api), Merged((session - {from})[to := session[from]], api);
    assert m'[to] == m[from];
    assert forall d :: d in m' && d != to ==> d in m && d != from && m'[d] == m[d];
  }

  /** Every successful assign, unassign and move keeps the merged view consistent; a failure changes nothing. */
  lemma MoveKeepsConsistent(session: Assignments, api: Assignments, from: Option<string>, to: Option<string>, idx: Option<nat>)
    requires Consistent(session, api)
    ensures Consistent(MoveInk(session, api, from, to, idx).session, api)
  {
    var r := MoveInk(session, api, from, to, idx);
    if r.result.Success() {
      if to.None? {
        UnassignKeepsConsistent(session, api, from.value);
      } else if from.None? {
        AssignKeepsConsistent(session, api, to.value, idx.value);
      } else {
        MoveKeepsConsistentStep(session, api, from.value, to.value);
      }
    }
  }

  lemma {:induction false} SwapKeepsConsistent(session: Assignments, api: Assignments, date1: string, date2: string)
    requires Consistent(session, api)
    ensures Consistent(SwapInks(session, api, date1, date2).session, api)
  {
    var r := SwapInks(session, api, date1, date2);
    if r.result.Success() {
      var m := Merged(session, api);
      var m' := Merged(r.session, api);
      assert m'.Keys == m.Keys;
      assert m'[date1] == m[date2] && m'[date2] == m[date1];
      assert forall d :: d in m' && d != date1 && d != date2 ==> m'[d] == m[d];
    }
  }
}
