/**
 minmax/brut.py: the exhaustive min-max solver. Same enumeration and capacity
 filter as the sum solver; the objective is the largest dissatisfaction of a
 single student.
 */
module MinMaxBrut {
  import opened Wrappers
  import opened Seqs
  import opened Preferences
  import opened Enumeration

  /** minmax/brut.py:18, `max(preferences[i, a[i]] for i in range(n))`: `EmptyMaximum` when there is no student,
      `MissingPreference` when a lookup fails, otherwise the largest of the students' ranks. */
  function MaxDissatisfaction(prefs: Table, a: Assignment, n: nat): (r: Result<int, Error>)
    ensures r == Failure(EmptyMaximum) <==> n == 0
    ensures r.Failure? ==> r.error == EmptyMaximum || r.error == MissingPreference
  {
    if n == 0 then Failure(EmptyMaximum)
    else
      match StudentDissatisfaction(prefs, a, n - 1)
      case None => Failure(MissingPreference)
      case Some(last) =>
        if n == 1 then Success(last)
        else
          match MaxDissatisfaction(prefs, a, n - 1)
          case Failure(e) => Failure(e)
          case Success(m) => Success(if last > m then last else m)
  }

  /** The maximum fails on a missing lookup exactly when some student's lookup fails; otherwise it
      bounds every student's rank and is attained by one of them. */
  lemma {:induction false} MaxDissatisfactionSpec(prefs: Table, a: Assignment, n: nat)
    ensures var r := MaxDissatisfaction(prefs, a, n);
      && (r == Failure(MissingPreference) <==>
            n > 0 && exists i :: 0 <= i < n && StudentDissatisfaction(prefs, a, i).None?)
      && (r.Success? ==>
            && (forall i :: 0 <= i < n ==>
                  StudentDissatisfaction(prefs, a, i).Some? && StudentDissatisfaction(prefs, a, i).value <= r.value)
            && (exists i :: 0 <= i < n && StudentDissatisfaction(prefs, a, i) == Some(r.value)))
  {
    if n > 1 {
      MaxDissatisfactionSpec(prefs, a, n - 1);
    }
  }

  /** With non-negative ranks the maximum lies between the mean and the total. */
  lemma {:induction false} MaxBelowTotal(prefs: Table, a: Assignment, n: nat)
    requires forall i :: 0 <= i < n ==> StudentDissatisfaction(prefs, a, i).Some? && StudentDissatisfaction(prefs, a, i).value >= 0
    requires n > 0
    ensures MaxDissatisfaction(prefs, a, n).Success? && TotalDissatisfaction(prefs, a, n).Some?
    ensures MaxDissatisfaction(prefs, a, n).value <= TotalDissatisfaction(prefs, a, n).value
    ensures TotalDissatisfaction(prefs, a, n).value <= n * MaxDissatisfaction(prefs, a, n).value
  {
    MaxDissatisfactionSpec(prefs, a, n);
    TotalDefined(prefs, a, n);
    if n > 1 {
      MaxBelowTotal(prefs, a, n - 1);
      MaxDissatisfactionSpec(prefs, a, n - 1);
      var m := MaxDissatisfaction(prefs, a, n - 1).value;
      var s := TotalDissatisfaction(prefs, a, n - 1).value;
      var last := StudentDissatisfaction(prefs, a, n - 1).value;
      var mm := MaxDissatisfaction(prefs, a, n).value;
      assert mm >= m && mm >= last;
      MulMonotone(n - 1, m, mm);
      assert n * mm == (n - 1) * mm + mm;
    }
  }

  lemma MulMonotone(k: nat, x: int, y: int)
    requires x <= y
    ensures k * x <= k * y
  {
    assert k * y - k * x == k * (y - x);
  }

  /** What the loop body makes of one enumerated assignment: skipped by the capacity filter, or its maximum. */
  function EntryOf(preferences: Table, nStudents: nat, nTopics: nat, a: Assignment): Entry
  {
    if WithinCapacity(a, nTopics) then Some(MaxDissatisfaction(preferences, a, nStudents)) else None
  }

  /** What the loop body makes of each enumerated assignment, in enumeration order. */
  function Entries(nStudents: nat, nTopics: nat, preferences: Table): (e: seq<Entry>)
    ensures |e| == |Product(nTopics, nStudents)|
  {
    var assignments := Product(nTopics, nStudents);
    seq(|assignments|, j requires 0 <= j < |assignments| => EntryOf(preferences, nStudents, nTopics, assignments[j]))
  }

  /** The search over the entries from the start. */
  function Search(nStudents: nat, nTopics: nat, preferences: Table): Result<Option<(nat, int)>, Error>
  {
    RunningMin(Entries(nStudents, nTopics, preferences), 0, None)
  }

  lemma EntryAt(nStudents: nat, nTopics: nat, preferences: Table, j: nat)
    requires j < |Product(nTopics, nStudents)|
    ensures var a := Product(nTopics, nStudents)[j];
      && (Admissible(a, nStudents, nTopics) <==> WithinCapacity(a, nTopics))
      && Entries(nStudents, nTopics, preferences)[j]
         == if WithinCapacity(a, nTopics) then Some(MaxDissatisfaction(preferences, a, nStudents)) else None
  {
    ProductEntry(nTopics, nStudents, j);
  }

  /** Every admissible assignment is enumerated and evaluated. */
  lemma AdmissibleEntry(nStudents: nat, nTopics: nat, preferences: Table, b: Assignment)
    requires Admissible(b, nStudents, nTopics)
    ensures exists j :: 0 <= j < |Product(nTopics, nStudents)| && Product(nTopics, nStudents)[j] == b
                     && Entries(nStudents, nTopics, preferences)[j] == Some(MaxDissatisfaction(preferences, b, nStudents))
  {
    ProductIndex(nTopics, nStudents, b);
    var j :| 0 <= j < |Product(nTopics, nStudents)| && Product(nTopics, nStudents)[j] == b;
    EntryAt(nStudents, nTopics, preferences, j);
  }

  /** The search fails exactly when the maximum of some admissible assignment fails; it then fails
      with `EmptyMaximum` exactly for the empty instance, and with `MissingPreference` exactly when
      some admissible assignment has a missing pair. */
  lemma SearchFails(nStudents: nat, nTopics: nat, preferences: Table)
    ensures var r := Search(nStudents, nTopics, preferences);
      && (r.Failure? <==> exists b :: Admissible(b, nStudents, nTopics) && MaxDissatisfaction(preferences, b, nStudents).Failure?)
      && (r.Failure? ==> r.error == EmptyMaximum || r.error == MissingPreference)
      && (r == Failure(EmptyMaximum) <==> nStudents == 0 && nTopics == 0)
      && (r == Failure(MissingPreference) <==>
            exists b :: Admissible(b, nStudents, nTopics) && MaxDissatisfaction(preferences, b, nStudents) == Failure(MissingPreference))
  {
    var entries := Entries(nStudents, nTopics, preferences);
    var r := Search(nStudents, nTopics, preferences);
    RunningMinSound(entries, 0, None);
    if r.Failure? {
      var j :| 0 <= j < |entries| && entries[j] == Some(Failure(r.error));
      EntryAt(nStudents, nTopics, preferences, j);
      CapacityBounds(Product(nTopics, nStudents)[j], nStudents, nTopics);
    }
    if exists b :: Admissible(b, nStudents, nTopics) && MaxDissatisfaction(preferences, b, nStudents).Failure? {
      var b :| Admissible(b, nStudents, nTopics) && MaxDissatisfaction(preferences, b, nStudents).Failure?;
      AdmissibleEntry(nStudents, nTopics, preferences, b);
      assert !NoFailure(entries);
    }
    if nStudents == 0 && nTopics == 0 {
      assert Admissible([], 0, 0) && MaxDissatisfaction(preferences, [], 0).Failure?;
    }
  }

  /** The search ends with nothing exactly when no assignment is admissible. */
  lemma SearchEmpty(nStudents: nat, nTopics: nat, preferences: Table)
    ensures Search(nStudents, nTopics, preferences) == Success(None) <==> !(nTopics <= nStudents <= 2 * nTopics)
  {
    var entries := Entries(nStudents, nTopics, preferences);
    var r := Search(nStudents, nTopics, preferences);
    RunningMinSound(entries, 0, None);
    FeasibleExists(nStudents, nTopics);
    if nTopics <= nStudents <= 2 * nTopics {
      var b :| Admissible(b, nStudents, nTopics);
      AdmissibleEntry(nStudents, nTopics, preferences, b);
    } else if r != Success(None) {
      if r.Failure? {
        var j :| 0 <= j < |entries| && entries[j] == Some(Failure(r.error));
        EntryAt(nStudents, nTopics, preferences, j);
      } else {
        EntryAt(nStudents, nTopics, preferences, r.value.value.0);
      }
    }
  }

  /** What the search finds is admissible, optimal among all admissible assignments, and
      lexicographically first among the optimal ones. */
  lemma SearchFinds(nStudents: nat, nTopics: nat, preferences: Table)
    ensures var r := Search(nStudents, nTopics, preferences);
      r.Success? && r.value.Some? ==>
        var a := Product(nTopics, nStudents)[r.value.value.0];
        var m := r.value.value.1;
        && Admissible(a, nStudents, nTopics)
        && MaxDissatisfaction(preferences, a, nStudents) == Success(m)
        && (forall b :: Admissible(b, nStudents, nTopics) ==>
              && MaxDissatisfaction(preferences, b, nStudents).Success?
              && m <= MaxDissatisfaction(preferences, b, nStudents).value)
        && (forall b :: Admissible(b, nStudents, nTopics) && LexLess(b, a) ==>
              m < MaxDissatisfaction(preferences, b, nStudents).value)
  {
    var assignments := Product(nTopics, nStudents);
    var entries := Entries(nStudents, nTopics, preferences);
    var r := Search(nStudents, nTopics, preferences);
    RunningMinSound(entries, 0, None);
    if r.Success? && r.value.Some? {
      var k := r.value.value.0;
      var m := r.value.value.1;
      EntryAt(nStudents, nTopics, preferences, k);
      forall b | Admissible(b, nStudents, nTopics)
        ensures MaxDissatisfaction(preferences, b, nStudents).Success?
        ensures m <= MaxDissatisfaction(preferences, b, nStudents).value
        ensures LexLess(b, assignments[k]) ==> m < MaxDissatisfaction(preferences, b, nStudents).value
      {
        AdmissibleEntry(nStudents, nTopics, preferences, b);
        if LexLess(b, assignments[k]) {
          ProductMembership(nTopics, nStudents, b);
          ProductEarlier(nTopics, nStudents, k, b);
          var i :| 0 <= i < k && assignments[i] == b;
          EntryAt(nStudents, nTopics, preferences, i);
        }
      }
    }
  }

  /** What `solve(n_students, n_topics, preferences)` returns of minmax/brut.py. Its errors: `EmptyMaximum` when the
      only admissible assignment is the empty one (no student, no topic), `MissingPreference` at the
      first admissible assignment with a failed lookup, `NoFeasibleAssignment` for `list(None)`. */
  function SolveResult(nStudents: nat, nTopics: nat, preferences: Table): Result<(Assignment, int), Error>
  {
    match Search(nStudents, nTopics, preferences)
    case Failure(e) => Failure(e)
    case Success(None) => Failure(NoFeasibleAssignment)
    case Success(Some(best)) => Success((Product(nTopics, nStudents)[best.0], best.1))
  }

  /** The result is admissible, optimal among all admissible assignments and lexicographically first
      among the optimal ones; each error is raised exactly in its case. */
  lemma SolveResultSpec(nStudents: nat, nTopics: nat, preferences: Table)
    ensures var r := SolveResult(nStudents, nTopics, preferences);
      r.Success? ==>
      && Admissible(r.value.0, nStudents, nTopics)
      && MaxDissatisfaction(preferences, r.value.0, nStudents) == Success(r.value.1)
      && (forall b :: Admissible(b, nStudents, nTopics) ==>
            && MaxDissatisfaction(preferences, b, nStudents).Success?
            && r.value.1 <= MaxDissatisfaction(preferences, b, nStudents).value)
      && (forall b :: Admissible(b, nStudents, nTopics) && LexLess(b, r.value.0) ==>
            r.value.1 < MaxDissatisfaction(preferences, b, nStudents).value)
    ensures var r := SolveResult(nStudents, nTopics, preferences);
      r.Failure? ==> r.error == EmptyMaximum || r.error == MissingPreference || r.error == NoFeasibleAssignment
    ensures var r := SolveResult(nStudents, nTopics, preferences);
      r == Failure(EmptyMaximum) <==> nStudents == 0 && nTopics == 0
    ensures var r := SolveResult(nStudents, nTopics, preferences);
      r == Failure(MissingPreference) <==>
      exists b :: Admissible(b, nStudents, nTopics) && MaxDissatisfaction(preferences, b, nStudents) == Failure(MissingPreference)
    ensures var r := SolveResult(nStudents, nTopics, preferences);
      r == Failure(NoFeasibleAssignment) <==> !(nTopics <= nStudents <= 2 * nTopics)
  {
    SearchFails(nStudents, nTopics, preferences);
    SearchEmpty(nStudents, nTopics, preferences);
    SearchFinds(nStudents, nTopics, preferences);
  }

  // One turn of the loop of minmax/brut.py:10-22 on the search, one lemma per branch.

  /** The enumerated assignment is `nStudents` topics. */
  lemma SearchEntry(nStudents: nat, nTopics: nat, idx: nat)
    requires idx < |Product(nTopics, nStudents)|
    ensures |Product(nTopics, nStudents)[idx]| == nStudents && InRange(Product(nTopics, nStudents)[idx], nTopics)
  {
    ProductEntry(nTopics, nStudents, idx);
  }

  /** An assignment the capacity filter rejects leaves the search as it was. */
  lemma SearchSkip(nStudents: nat, nTopics: nat, preferences: Table, idx: nat, cur: Option<(nat, int)>)
    requires idx < |Product(nTopics, nStudents)| && (cur.Some? ==> cur.value.0 < idx)
    requires !WithinCapacity(Product(nTopics, nStudents)[idx], nTopics)
    ensures RunningMin(Entries(nStudents, nTopics, preferences), idx, cur)
         == RunningMin(Entries(nStudents, nTopics, preferences), idx + 1, cur)
  {
    EntryAt(nStudents, nTopics, preferences, idx);
  }

  /** An admitted assignment whose objective fails ends the search with that failure. */
  lemma SearchStop(nStudents: nat, nTopics: nat, preferences: Table, idx: nat, cur: Option<(nat, int)>)
    requires idx < |Product(nTopics, nStudents)| && (cur.Some? ==> cur.value.0 < idx)
    requires WithinCapacity(Product(nTopics, nStudents)[idx], nTopics)
    requires MaxDissatisfaction(preferences, Product(nTopics, nStudents)[idx], nStudents).Failure?
    ensures RunningMin(Entries(nStudents, nTopics, preferences), idx, cur)
         == Failure(MaxDissatisfaction(preferences, Product(nTopics, nStudents)[idx], nStudents).error)
  {
    EntryAt(nStudents, nTopics, preferences, idx);
  }

  /** An admitted assignment with objective `v` is offered to the running minimum. */
  lemma SearchOffer(nStudents: nat, nTopics: nat, preferences: Table, idx: nat, cur: Option<(nat, int)>, v: int)
    requires idx < |Product(nTopics, nStudents)| && (cur.Some? ==> cur.value.0 < idx)
    requires WithinCapacity(Product(nTopics, nStudents)[idx], nTopics)
    requires MaxDissatisfaction(preferences, Product(nTopics, nStudents)[idx], nStudents) == Success(v)
    ensures RunningMin(Entries(nStudents, nTopics, preferences), idx, cur)
         == RunningMin(Entries(nStudents, nTopics, preferences), idx + 1,
                       if cur.None? || v < cur.value.1 then Some((idx, v)) else cur)
  {
    EntryAt(nStudents, nTopics, preferences, idx);
  }

  /** `solve(n_students, n_topics, preferences)` of minmax/brut.py. Its errors: `EmptyMaximum` when the
      only admissible assignment is the empty one (no student, no topic), `MissingPreference` at the
      first admissible assignment with a failed lookup, `NoFeasibleAssignment` for `list(None)`. */
  method Solve(nStudents: nat, nTopics: nat, preferences: Table) returns (r: Result<(Assignment, int), Error>)
    ensures r == SolveResult(nStudents, nTopics, preferences)
  {
    var assignments := Product(nTopics, nStudents);
    ghost var entries := Entries(nStudents, nTopics, preferences);
    ghost var search := Search(nStudents, nTopics, preferences);
    var bestAssignment: Option<Assignment> := None;
    var minMaxDissatisfaction: Option<int> := None;
    ghost var cur: Option<(nat, int)> := None;
    for idx := 0 to |assignments|
      invariant Tracks(assignments, idx, cur, bestAssignment, minMaxDissatisfaction)
      invariant RunningMin(entries, idx, cur) == search
    {
      var assignment := assignments[idx];
      SearchEntry(nStudents, nTopics, idx);
      var feasible := PassesFilter(assignment, nTopics);
      if !feasible {
        SearchSkip(nStudents, nTopics, preferences, idx, cur);
      } else {
        var maxDissatisfaction := MaxDissatisfaction(preferences, assignment, nStudents);
        if maxDissatisfaction.Failure? {
          SearchStop(nStudents, nTopics, preferences, idx, cur);
          assert search == Failure(maxDissatisfaction.error);
          return Failure(maxDissatisfaction.error);
        }
        SearchOffer(nStudents, nTopics, preferences, idx, cur, maxDissatisfaction.value);
        if minMaxDissatisfaction.None? || maxDissatisfaction.value < minMaxDissatisfaction.value {
          minMaxDissatisfaction := Some(maxDissatisfaction.value);
          bestAssignment := Some(assignment);
          cur := Some((idx, maxDissatisfaction.value));
        }
      }
    }
    assert search == Success(cur);
    if bestAssignment.None? {
      return Failure(NoFeasibleAssignment);
    }
    assert SolveResult(nStudents, nTopics, preferences) == Success((assignments[cur.value.0], cur.value.1));
    return Success((bestAssignment.value, minMaxDissatisfaction.value));
  }
}
