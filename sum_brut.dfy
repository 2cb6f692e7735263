/**
 sum/brut.py: the exhaustive minimum-total-dissatisfaction solver. It walks
 the product enumeration, skips assignments whose topic counts leave [1, 2],
 and keeps the first assignment that is strictly better than everything
 before it.
 */
module SumBrut {
  import opened Wrappers
  import opened Seqs
  import opened Preferences
  import opened Enumeration

  /** sum/brut.py:18: the total of an assignment, or the `KeyError` of a missing (student, topic) pair. */
  function Total(preferences: Table, a: Assignment, nStudents: nat): Result<int, Error>
  {
    match TotalDissatisfaction(preferences, a, nStudents)
    case None => Failure(MissingPreference)
    case Some(d) => Success(d)
  }

  /** What the loop body makes of one enumerated assignment: skipped by the capacity filter, or its total. */
  function EntryOf(preferences: Table, nStudents: nat, nTopics: nat, a: Assignment): Entry
  {
    if WithinCapacity(a, nTopics) then Some(Total(preferences, a, nStudents)) else None
  }

  /** What the loop body makes of each enumerated assignment, in enumeration order. */
  function Entries(nStudents: nat, nTopics: nat, preferences: Table): (e: seq<Entry>)
    ensures |e| == |Product(nTopics, nStudents)|
  {
    var assignments := Product(nTopics, nStudents);
    seq(|assignments|, j requires 0 <= j < |assignments| => EntryOf(preferences, nStudents, nTopics, assignments[j]))
  }

  /** The search over the entries from the start. */
  function Search(nStudents: nat, nTopics: nat, preferences: Table): Result<Option<(nat, int)>, Error>
  {
    RunningMin(Entries(nStudents, nTopics, preferences), 0, None)
  }

  lemma EntryAt(nStudents: nat, nTopics: nat, preferences: Table, j: nat)
    requires j < |Product(nTopics, nStudents)|
    ensures var a := Product(nTopics, nStudents)[j];
      && (Admissible(a, nStudents, nTopics) <==> WithinCapacity(a, nTopics))
      && Entries(nStudents, nTopics, preferences)[j]
         == if WithinCapacity(a, nTopics) then Some(Total(preferences, a, nStudents)) else None
  {
    ProductEntry(nTopics, nStudents, j);
  }

  /** Every admissible assignment is enumerated and evaluated. */
  lemma AdmissibleEntry(nStudents: nat, nTopics: nat, preferences: Table, b: Assignment)
    requires Admissible(b, nStudents, nTopics)
    ensures exists j :: 0 <= j < |Product(nTopics, nStudents)| && Product(nTopics, nStudents)[j] == b
                     && Entries(nStudents, nTopics, preferences)[j] == Some(Total(preferences, b, nStudents))
  {
    ProductIndex(nTopics, nStudents, b);
    var j :| 0 <= j < |Product(nTopics, nStudents)| && Product(nTopics, nStudents)[j] == b;
    EntryAt(nStudents, nTopics, preferences, j);
  }

  /** The search fails exactly when some admissible assignment has a missing pair, and then with
      `MissingPreference`. */
  lemma SearchFails(nStudents: nat, nTopics: nat, preferences: Table)
    ensures var r := Search(nStudents, nTopics, preferences);
      && (r.Failure? <==>
            exists b :: Admissible(b, nStudents, nTopics) && TotalDissatisfaction(preferences, b, nStudents).None?)
      && (r.Failure? ==> r.error == MissingPreference)
  {
    var entries := Entries(nStudents, nTopics, preferences);
    var r := Search(nStudents, nTopics, preferences);
    RunningMinSound(entries, 0, None);
    if r.Failure? {
      var j :| 0 <= j < |entries| && entries[j] == Some(Failure(r.error));
      EntryAt(nStudents, nTopics, preferences, j);
      assert Admissible(Product(nTopics, nStudents)[j], nStudents, nTopics);
    }
    if exists b :: Admissible(b, nStudents, nTopics) && TotalDissatisfaction(preferences, b, nStudents).None? {
      var b :| Admissible(b, nStudents, nTopics) && TotalDissatisfaction(preferences, b, nStudents).None?;
      AdmissibleEntry(nStudents, nTopics, preferences, b);
      assert !NoFailure(entries);
    }
  }

  /** The search ends with nothing exactly when no assignment is admissible. */
  lemma SearchEmpty(nStudents: nat, nTopics: nat, preferences: Table)
    ensures Search(nStudents, nTopics, preferences) == Success(None) <==> !(nTopics <= nStudents <= 2 * nTopics)
  {
    var entries := Entries(nStudents, nTopics, preferences);
    var r := Search(nStudents, nTopics, preferences);
    RunningMinSound(entries, 0, None);
    FeasibleExists(nStudents, nTopics);
    if nTopics <= nStudents <= 2 * nTopics {
      var b :| Admissible(b, nStudents, nTopics);
      AdmissibleEntry(nStudents, nTopics, preferences, b);
    } else if r != Success(None) {
      if r.Failure? {
        var j :| 0 <= j < |entries| && entries[j] == Some(Failure(r.error));
        EntryAt(nStudents, nTopics, preferences, j);
      } else {
        EntryAt(nStudents, nTopics, preferences, r.value.value.0);
      }
    }
  }

  /** What the search finds is admissible, optimal among all admissible assignments, and
      lexicographically first among the optimal ones. */
  lemma SearchFinds(nStudents: nat, nTopics: nat, preferences: Table)
    ensures var r := Search(nStudents, nTopics, preferences);
      r.Success? && r.value.Some? ==>
        var a := Product(nTopics, nStudents)[r.value.value.0];
        var m := r.value.value.1;
        && Admissible(a, nStudents, nTopics)
        && TotalDissatisfaction(preferences, a, nStudents) == Some(m)
        && (forall b :: Admissible(b, nStudents, nTopics) ==>
              && TotalDissatisfaction(preferences, b, nStudents).Some?
              && m <= TotalDissatisfaction(preferences, b, nStudents).value)
        && (forall b :: Admissible(b, nStudents, nTopics) && LexLess(b, a) ==>
              m < TotalDissatisfaction(preferences, b, nStudents).value)
  {
    var assignments := Product(nTopics, nStudents);
    var entries := Entries(nStudents, nTopics, preferences);
    var r := Search(nStudents, nTopics, preferences);
    RunningMinSound(entries, 0, None);
    if r.Success? && r.value.Some? {
      var k := r.value.value.0;
      var m := r.value.value.1;
      EntryAt(nStudents, nTopics, preferences, k);
      forall b | Admissible(b, nStudents, nTopics)
        ensures TotalDissatisfaction(preferences, b, nStudents).Some?
        ensures m <= TotalDissatisfaction(preferences, b, nStudents).value
        ensures LexLess(b, assignments[k]) ==> m < TotalDissatisfaction(preferences, b, nStudents).value
      {
        AdmissibleEntry(nStudents, nTopics, preferences, b);
        if LexLess(b, assignments[k]) {
          ProductMembership(nTopics, nStudents, b);
          ProductEarlier(nTopics, nStudents, k, b);
          var i :| 0 <= i < k && assignments[i] == b;
          EntryAt(nStudents, nTopics, preferences, i);
        }
      }
    }
  }

  /** What `solve(n_students, n_topics, preferences)` returns, with the `float('inf')` sentinel as None and the
      exceptions as failures: a missing (student, topic) pair at the first admissible assignment that
      needs it is `MissingPreference`, and `list(None)` when nothing is admissible is
      `NoFeasibleAssignment`. */
  function SolveResult(nStudents: nat, nTopics: nat, preferences: Table): Result<(Assignment, int), Error>
  {
    match Search(nStudents, nTopics, preferences)
    case Failure(e) => Failure(e)
    case Success(None) => Failure(NoFeasibleAssignment)
    case Success(Some(best)) => Success((Product(nTopics, nStudents)[best.0], best.1))
  }

  /** The result is admissible, optimal among all admissible assignments and lexicographically first
      among the optimal ones; each error is raised exactly in its case. */
  lemma SolveResultSpec(nStudents: nat, nTopics: nat, preferences: Table)
    ensures var r := SolveResult(nStudents, nTopics, preferences);
      r.Success? ==>
      && Admissible(r.value.0, nStudents, nTopics)
      && TotalDissatisfaction(preferences, r.value.0, nStudents) == Some(r.value.1)
      && (forall b :: Admissible(b, nStudents, nTopics) ==>
            && TotalDissatisfaction(preferences, b, nStudents).Some?
            && r.value.1 <= TotalDissatisfaction(preferences, b, nStudents).value)
      && (forall b :: Admissible(b, nStudents, nTopics) && LexLess(b, r.value.0) ==>
            r.value.1 < TotalDissatisfaction(preferences, b, nStudents).value)
    ensures var r := SolveResult(nStudents, nTopics, preferences);
      r.Failure? ==> r.error == MissingPreference || r.error == NoFeasibleAssignment
    ensures var r := SolveResult(nStudents, nTopics, preferences);
      r == Failure(MissingPreference) <==>
      exists b :: Admissible(b, nStudents, nTopics) && TotalDissatisfaction(preferences, b, nStudents).None?
    ensures var r := SolveResult(nStudents, nTopics, preferences);
      r == Failure(NoFeasibleAssignment) <==> !(nTopics <= nStudents <= 2 * nTopics)
  {
    SearchFails(nStudents, nTopics, preferences);
    SearchEmpty(nStudents, nTopics, preferences);
    SearchFinds(nStudents, nTopics, preferences);
  }

  // One turn of the loop of sum/brut.py:10-22 on the search, one lemma per branch.

  /** The enumerated assignment is `nStudents` topics. */
  lemma SearchEntry(nStudents: nat, nTopics: nat, idx: nat)
    requires idx < |Product(nTopics, nStudents)|
    ensures |Product(nTopics, nStudents)[idx]| == nStudents && InRange(Product(nTopics, nStudents)[idx], nTopics)
  {
    ProductEntry(nTopics, nStudents, idx);
  }

  /** An assignment the capacity filter rejects leaves the search as it was. */
  lemma SearchSkip(nStudents: nat, nTopics: nat, preferences: Table, idx: nat, cur: Option<(nat, int)>)
    requires idx < |Product(nTopics, nStudents)| && (cur.Some? ==> cur.value.0 < idx)
    requires !WithinCapacity(Product(nTopics, nStudents)[idx], nTopics)
    ensures RunningMin(Entries(nStudents, nTopics, preferences), idx, cur)
         == RunningMin(Entries(nStudents, nTopics, preferences), idx + 1, cur)
  {
    EntryAt(nStudents, nTopics, preferences, idx);
  }

  /** An admitted assignment whose objective fails ends the search with that failure. */
  lemma SearchStop(nStudents: nat, nTopics: nat, preferences: Table, idx: nat, cur: Option<(nat, int)>)
    requires idx < |Product(nTopics, nStudents)| && (cur.Some? ==> cur.value.0 < idx)
    requires WithinCapacity(Product(nTopics, nStudents)[idx], nTopics)
    requires TotalDissatisfaction(preferences, Product(nTopics, nStudents)[idx], nStudents).None?
    ensures RunningMin(Entries(nStudents, nTopics, preferences), idx, cur) == Failure(MissingPreference)
  {
    EntryAt(nStudents, nTopics, preferences, idx);
  }

  /** An admitted assignment with objective `v` is offered to the running minimum. */
  lemma SearchOffer(nStudents: nat, nTopics: nat, preferences: Table, idx: nat, cur: Option<(nat, int)>, v: int)
    requires idx < |Product(nTopics, nStudents)| && (cur.Some? ==> cur.value.0 < idx)
    requires WithinCapacity(Product(nTopics, nStudents)[idx], nTopics)
    requires TotalDissatisfaction(preferences, Product(nTopics, nStudents)[idx], nStudents) == Some(v)
    ensures RunningMin(Entries(nStudents, nTopics, preferences), idx, cur)
         == RunningMin(Entries(nStudents, nTopics, preferences), idx + 1,
                       if cur.None? || v < cur.value.1 then Some((idx, v)) else cur)
  {
    EntryAt(nStudents, nTopics, preferences, idx);
  }

  /** `solve(n_students, n_topics, preferences)`, with the `float('inf')` sentinel as None and the
      exceptions as failures: a missing (student, topic) pair at the first admissible assignment that
      needs it is `MissingPreference`, and `list(None)` when nothing is admissible is
      `NoFeasibleAssignment`. */
  method Solve(nStudents: nat, nTopics: nat, preferences: Table) returns (r: Result<(Assignment, int), Error>)
    ensures r == SolveResult(nStudents, nTopics, preferences)
  {
    var assignments := Product(nTopics, nStudents);
    ghost var entries := Entries(nStudents, nTopics, preferences);
    ghost var search := Search(nStudents, nTopics, preferences);
    var bestAssignment: Option<Assignment> := None;
    var minDissatisfaction: Option<int> := None;
    ghost var cur: Option<(nat, int)> := None;
    for idx := 0 to |assignments|
      invariant Tracks(assignments, idx, cur, bestAssignment, minDissatisfaction)
      invariant RunningMin(entries, idx, cur) == search
    {
      var assignment := assignments[idx];
      SearchEntry(nStudents, nTopics, idx);
      var feasible := PassesFilter(assignment, nTopics);
      if !feasible {
        SearchSkip(nStudents, nTopics, preferences, idx, cur);
      } else {
        var dissatisfaction := TotalDissatisfaction(preferences, assignment, nStudents);
        if dissatisfaction.None? {
          SearchStop(nStudents, nTopics, preferences, idx, cur);
          assert search == Failure(MissingPreference);
          return Failure(MissingPreference);
        }
        SearchOffer(nStudents, nTopics, preferences, idx, cur, dissatisfaction.value);
        if minDissatisfaction.None? || dissatisfaction.value < minDissatisfaction.value {
          minDissatisfaction := Some(dissatisfaction.value);
          bestAssignment := Some(assignment);
          cur := Some((idx, dissatisfaction.value));
        }
      }
    }
    assert search == Success(cur);
    if bestAssignment.None? {
      return Failure(NoFeasibleAssignment);
    }
    assert SolveResult(nStudents, nTopics, preferences) == Success((assignments[cur.value.0], cur.value.1));
    return Success((bestAssignment.value, minDissatisfaction.value));
  }
}
