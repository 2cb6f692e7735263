/**
 What the two brute-force solvers share: the enumeration
 `itertools.product(range(n_topics), repeat=n_students)`, the per-topic counts
 of an assignment, and the capacity filter that keeps only assignments giving
 every topic one or two students.
 */
module Enumeration {
  import opened Wrappers
  import opened Seqs
  import opened Preferences

  // ---------------------------------------------------------------------------
  // itertools.product

  /** `Prepend(t, rest)` for `t` from `t` up to `nTopics - 1`, one block after the other. */
  function Blocks(nTopics: nat, rest: seq<seq<int>>, t: nat): seq<seq<int>>
    decreases nTopics - t
  {
    if t >= nTopics then [] else Prepend(t, rest) + Blocks(nTopics, rest, t + 1)
  }

  /** `itertools.product(range(nTopics), repeat=n)`: every sequence of length `n` over `0 .. nTopics-1`,
      the first position varying slowest. */
  function Product(nTopics: nat, n: nat): seq<seq<int>>
  {
    if n == 0 then [[]] else Blocks(nTopics, Product(nTopics, n - 1), 0)
  }

  /** Every entry is a topic `0 .. nTopics-1`. */
  predicate InRange(a: seq<int>, nTopics: nat)
  {
    forall i :: 0 <= i < |a| ==> 0 <= a[i] < nTopics
  }

  function Power(b: nat, e: nat): nat
  {
    if e == 0 then 1 else b * Power(b, e - 1)
  }

  lemma {:induction false} BlocksMembership(nTopics: nat, rest: seq<seq<int>>, t: nat, a: seq<int>)
    ensures a in Blocks(nTopics, rest, t) <==> |a| > 0 && t <= a[0] < nTopics && a[1..] in rest
    decreases nTopics - t
  {
    if t < nTopics {
      PrependMembership(t, rest, a);
      BlocksMembership(nTopics, rest, t + 1, a);
    }
  }

  /** The product holds exactly the sequences of length `n` over the topics. */
  lemma {:induction false} ProductMembership(nTopics: nat, n: nat, a: seq<int>)
    ensures a in Product(nTopics, n) <==> |a| == n && InRange(a, nTopics)
  {
    if n == 0 {
      assert |a| == 0 ==> a == [];
    } else {
      BlocksMembership(nTopics, Product(nTopics, n - 1), 0, a);
      if |a| > 0 {
        ProductMembership(nTopics, n - 1, a[1..]);
        assert InRange(a, nTopics) <==> 0 <= a[0] < nTopics && InRange(a[1..], nTopics) by {
          if 0 <= a[0] < nTopics && InRange(a[1..], nTopics) {
            forall i | 0 <= i < |a| ensures 0 <= a[i] < nTopics {
              if i > 0 { assert a[i] == a[1..][i - 1]; }
            }
          }
        }
      }
    }
  }

  /** Index form of `ProductMembership`: every enumerated assignment has `n` entries, all topics. */
  lemma ProductEntry(nTopics: nat, n: nat, j: nat)
    requires j < |Product(nTopics, n)|
    ensures |Product(nTopics, n)[j]| == n && InRange(Product(nTopics, n)[j], nTopics)
  {
    ProductMembership(nTopics, n, Product(nTopics, n)[j]);
  }

  /** Index form of `ProductMembership`: every sequence of `n` topics is enumerated somewhere. */
  lemma ProductIndex(nTopics: nat, n: nat, a: seq<int>)
    requires |a| == n && InRange(a, nTopics)
    ensures exists j :: 0 <= j < |Product(nTopics, n)| && Product(nTopics, n)[j] == a
  {
    ProductMembership(nTopics, n, a);
  }

  lemma {:induction false} BlocksCount(nTopics: nat, rest: seq<seq<int>>, t: nat)
    ensures |Blocks(nTopics, rest, t)| == if t <= nTopics then (nTopics - t) * |rest| else 0
    decreases nTopics - t
  {
    if t < nTopics {
      BlocksCount(nTopics, rest, t + 1);
    }
  }

  /** `n_topics ** n_students` assignments are enumerated. */
  lemma {:induction false} ProductCount(nTopics: nat, n: nat)
    ensures |Product(nTopics, n)| == Power(nTopics, n)
  {
    if n > 0 {
      ProductCount(nTopics, n - 1);
      BlocksCount(nTopics, Product(nTopics, n - 1), 0);
    }
  }

  lemma {:induction false} BlocksSorted(nTopics: nat, rest: seq<seq<int>>, t: nat)
    requires Sorted(rest)
    ensures Sorted(Blocks(nTopics, rest, t))
    decreases nTopics - t
  {
    if t < nTopics {
      PrependSorted(t, rest);
      BlocksSorted(nTopics, rest, t + 1);
      forall x, y | x in Prepend(t, rest) && y in Blocks(nTopics, rest, t + 1) ensures LexLess(x, y) {
        PrependMembership(t, rest, x);
        BlocksMembership(nTopics, rest, t + 1, y);
      }
      SortedConcat(Prepend(t, rest), Blocks(nTopics, rest, t + 1));
    }
  }

  /** The enumeration is in strictly increasing lexicographic order. */
  lemma {:induction false} ProductSorted(nTopics: nat, n: nat)
    ensures Sorted(Product(nTopics, n))
  {
    if n > 0 {
      ProductSorted(nTopics, n - 1);
      BlocksSorted(nTopics, Product(nTopics, n - 1), 0);
    }
  }

  /** Position in the enumeration is lexicographic order: whatever is lexicographically smaller than
      the assignment at position `k` comes before it. */
  lemma ProductEarlier(nTopics: nat, n: nat, k: nat, b: seq<int>)
    requires k < |Product(nTopics, n)| && b in Product(nTopics, n) && LexLess(b, Product(nTopics, n)[k])
    ensures exists j :: 0 <= j < k && Product(nTopics, n)[j] == b
  {
    var p := Product(nTopics, n);
    ProductSorted(nTopics, n);
    var j :| 0 <= j < |p| && p[j] == b;
    LexAsymmetric(b, p[k]);
  }

  // ---------------------------------------------------------------------------
  // Topic counts and the capacity filter

  /** sum/brut.py:11-13 (and minmax/brut.py:11-13): `topic_counts[t]` ends as the number of positions of `assignment` holding `t`.
      Every entry is a topic, as it is for every assignment the enumeration yields. */
  method CountTopics(assignment: seq<int>, nTopics: nat) returns (counts: array<int>)
    requires InRange(assignment, nTopics)
    ensures fresh(counts) && counts.Length == nTopics
    ensures forall t :: 0 <= t < nTopics ==> counts[t] == multiset(assignment)[t]
  {
    counts := new int[nTopics](_ => 0);
    for i := 0 to |assignment|
      invariant forall t :: 0 <= t < nTopics ==> counts[t] == multiset(assignment[..i])[t]
    {
      assert assignment[..i + 1] == assignment[..i] + [assignment[i]];
      counts[assignment[i]] := counts[assignment[i]] + 1;
    }
    assert assignment[..|assignment|] == assignment;
  }

  /** sum/brut.py:15 (and minmax/brut.py:15) negated: every topic has one or two students. */
  predicate WithinCapacity(a: seq<int>, nTopics: nat)
  {
    forall t :: 0 <= t < nTopics ==> 1 <= multiset(a)[t] <= 2
  }

  /** sum/brut.py:11-15 (and minmax/brut.py:11-15): count the students of every topic and test every count against [1, 2]. */
  method PassesFilter(assignment: seq<int>, nTopics: nat) returns (ok: bool)
    requires InRange(assignment, nTopics)
    ensures ok <==> WithinCapacity(assignment, nTopics)
  {
    var topicCounts := CountTopics(assignment, nTopics);
    ok := forall t :: 0 <= t < nTopics ==> 1 <= topicCounts[t] <= 2;
  }

  /** An assignment the loops of the brute-force solvers evaluate: enumerated and not filtered out. */
  predicate Admissible(a: seq<int>, nStudents: nat, nTopics: nat)
  {
    |a| == nStudents && InRange(a, nTopics) && WithinCapacity(a, nTopics)
  }

  /** The number of students on topics `0 .. m-1`. */
  function CountBelow(a: seq<int>, m: nat): nat
  {
    if m == 0 then 0 else CountBelow(a, m - 1) + multiset(a)[m - 1]
  }

  lemma {:induction false} CountBelowSnoc(a: seq<int>, x: int, m: nat)
    ensures CountBelow(a + [x], m) == CountBelow(a, m) + if 0 <= x < m then 1 else 0
  {
    if m > 0 {
      CountBelowSnoc(a, x, m - 1);
      assert multiset(a + [x]) == multiset(a) + multiset{x};
    }
  }

  /** The counts of an assignment over the topics add up to its length. */
  lemma {:induction false} CountBelowTotal(a: seq<int>, nTopics: nat)
    requires InRange(a, nTopics)
    ensures CountBelow(a, nTopics) == |a|
    decreases |a|
  {
    if |a| == 0 {
      CountBelowZero(nTopics);
    } else {
      var init := a[..|a| - 1];
      assert a == init + [a[|a| - 1]];
      assert InRange(init, nTopics) by {
        forall i | 0 <= i < |init| ensures 0 <= init[i] < nTopics { assert init[i] == a[i]; }
      }
      CountBelowTotal(init, nTopics);
      CountBelowSnoc(init, a[|a| - 1], nTopics);
    }
  }

  lemma {:induction false} CountBelowZero(m: nat)
    ensures CountBelow([], m) == 0
  {
    if m > 0 {
      CountBelowZero(m - 1);
    }
  }

  lemma {:induction false} CountBelowBounds(a: seq<int>, nTopics: nat, m: nat)
    requires WithinCapacity(a, nTopics) && m <= nTopics
    ensures m <= CountBelow(a, m) <= 2 * m
  {
    if m > 0 {
      CountBelowBounds(a, nTopics, m - 1);
    }
  }

  /** An assignment passes the filter only when `nTopics <= nStudents <= 2 * nTopics`. */
  lemma CapacityBounds(a: seq<int>, nStudents: nat, nTopics: nat)
    requires Admissible(a, nStudents, nTopics)
    ensures nTopics <= nStudents <= 2 * nTopics
  {
    CountBelowTotal(a, nTopics);
    CountBelowBounds(a, nTopics, nTopics);
  }

  /** Conversely, topics `0 .. nTopics-1` once each, then `0 .. nStudents-nTopics-1` again, pass it. */
  lemma CapacityWitness(nStudents: nat, nTopics: nat)
    requires nTopics <= nStudents <= 2 * nTopics
    ensures Admissible(Range(0, nTopics) + Range(0, nStudents - nTopics), nStudents, nTopics)
  {
    var a := Range(0, nTopics) + Range(0, nStudents - nTopics);
    forall t | 0 <= t < nTopics ensures 1 <= multiset(a)[t] <= 2 {
      RangeCount(nTopics, t);
      RangeCount(nStudents - nTopics, t);
    }
    forall i | 0 <= i < |a| ensures 0 <= a[i] < nTopics {
      if i >= nTopics { assert a[i] == Range(0, nStudents - nTopics)[i - nTopics]; }
    }
  }

  /** Some enumerated assignment passes the filter exactly when `nTopics <= nStudents <= 2 * nTopics`. */
  lemma FeasibleExists(nStudents: nat, nTopics: nat)
    ensures (exists a :: Admissible(a, nStudents, nTopics)) <==> nTopics <= nStudents <= 2 * nTopics
  {
    if nTopics <= nStudents <= 2 * nTopics {
      CapacityWitness(nStudents, nTopics);
    }
    if exists a :: Admissible(a, nStudents, nTopics) {
      var a :| Admissible(a, nStudents, nTopics);
      CapacityBounds(a, nStudents, nTopics);
    }
  }

  // ---------------------------------------------------------------------------
  // The running strict minimum of the solver loops

  /** What the loop body makes of one enumerated assignment: None when the filter skips it, else
      the objective, or the exception computing it raises. */
  type Entry = Option<Result<int, Error>>

  /** The loop of sum/brut.py:10-22 (and minmax/brut.py:10-22) over `entries` from position `k` on, with the best so far `best`
      (its position and its value; None while nothing has been evaluated). The comparison with the
      best so far is strict, and the first failure ends the search. */
  function RunningMin(entries: seq<Entry>, k: nat, best: Option<(nat, int)>): (r: Result<Option<(nat, int)>, Error>)
    requires k <= |entries| && (best.Some? ==> best.value.0 < k)
    ensures r.Success? && r.value.Some? ==> r.value.value.0 < |entries|
    decreases |entries| - k
  {
    if k == |entries| then Success(best)
    else
      match entries[k]
      case None => RunningMin(entries, k + 1, best)
      case Some(Failure(e)) => Failure(e)
      case Some(Success(v)) =>
        if best.None? || v < best.value.1 then RunningMin(entries, k + 1, Some((k, v)))
        else RunningMin(entries, k + 1, best)
  }

  /** The solvers' loop state `(best_assignment, min_…)` stands for the running best `cur` of
      `RunningMin`: nothing (the `float('inf')` start) or the assignment at position `cur.0` with
      value `cur.1`. */
  predicate Tracks(assignments: seq<seq<int>>, idx: nat, cur: Option<(nat, int)>,
                   bestAssignment: Option<seq<int>>, best: Option<int>)
  {
    match cur
    case None => bestAssignment.None? && best.None?
    case Some(c) => c.0 < idx && c.0 < |assignments| && bestAssignment == Some(assignments[c.0]) && best == Some(c.1)
  }

  /** No evaluated entry failed. */
  predicate NoFailure(entries: seq<Entry>)
  {
    forall j :: 0 <= j < |entries| && entries[j].Some? ==> entries[j].value.Success?
  }

  /** Entry `k` is evaluated with value `m`, no evaluated entry is smaller, and every earlier one is
      larger. */
  predicate IsFirstMin(entries: seq<Entry>, k: nat, m: int)
  {
    && NoFailure(entries)
    && k < |entries| && entries[k] == Some(Success(m))
    && (forall j :: 0 <= j < |entries| && entries[j].Some? ==> m <= entries[j].value.value)
    && (forall j :: 0 <= j < k && entries[j].Some? ==> m < entries[j].value.value)
  }

  lemma {:induction false} RunningMinSound(entries: seq<Entry>, k: nat, best: Option<(nat, int)>)
    requires k <= |entries| && (best.Some? ==> best.value.0 < k)
    requires forall j :: 0 <= j < k && entries[j].Some? ==> entries[j].value.Success?
    requires best.None? ==> forall j :: 0 <= j < k ==> entries[j].None?
    requires best.Some? ==>
      && entries[best.value.0] == Some(Success(best.value.1))
      && (forall j :: 0 <= j < k && entries[j].Some? ==> best.value.1 <= entries[j].value.value)
      && (forall j :: 0 <= j < best.value.0 && entries[j].Some? ==> best.value.1 < entries[j].value.value)
    ensures var r := RunningMin(entries, k, best);
      && (r.Failure? ==> exists j :: 0 <= j < |entries| && entries[j] == Some(Failure(r.error)))
      && (r.Success? <==> NoFailure(entries))
      && (r == Success(None) ==> forall j :: 0 <= j < |entries| ==> entries[j].None?)
      && (r.Success? && r.value.Some? ==> IsFirstMin(entries, r.value.value.0, r.value.value.1))
    decreases |entries| - k
  {
    if k < |entries| {
      match entries[k]
      case None => RunningMinSound(entries, k + 1, best);
      case Some(Failure(e)) =>
      case Some(Success(v)) =>
        if best.None? || v < best.value.1 {
          RunningMinSound(entries, k + 1, Some((k, v)));
        } else {
          RunningMinSound(entries, k + 1, best);
        }
    }
  }
}
