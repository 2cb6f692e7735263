/**
 The candidate enumerator of manipulate.py (`get_possible_student_preferences`):
 every ranking a single student could declare, as the topic-to-rank maps built
 from `itertools.permutations(range(1, n + 1))`, in that function's order.
 */
module Declarations {
  import opened Seqs
  import opened Preferences

  /** `itertools.permutations(s)` for a sequence of distinct elements: the element picked first
      runs through `s` in order, and the rest are the permutations of what remains. */
  function Permutations(s: seq<int>): seq<seq<int>>
    decreases |s|, 1
  {
    if |s| == 0 then [[]] else Picking(s, 0)
  }

  /** The permutations of `s` whose first element is `s[i]`, `s[i+1]`, ..., in that order. */
  function Picking(s: seq<int>, i: nat): seq<seq<int>>
    requires i <= |s|
    decreases |s|, 0, |s| - i
  {
    if i == |s| then [] else Prepend(s[i], Permutations(Without(s, i))) + Picking(s, i + 1)
  }

  /** `dict(zip(range(len(p)), p))`: topic `t` gets rank `p[t]`. */
  function ToDeclaration(p: seq<int>): Declaration
  {
    map t | 0 <= t < |p| :: p[t]
  }

  /** The ranks of topics `0 .. nTopics-1` in topic order. */
  function RanksOf(d: Declaration, nTopics: nat): seq<int>
    requires forall t :: 0 <= t < nTopics ==> t in d
  {
    seq(nTopics, t requires 0 <= t < nTopics => d[t])
  }

  /** A strict ranking: `d` is defined exactly on the topics and its ranks, read in topic order,
      are a rearrangement of `1 .. nTopics`. */
  predicate IsRanking(d: Declaration, nTopics: nat)
  {
    && (forall t :: t in d ==> 0 <= t < nTopics)
    && (forall t :: 0 <= t < nTopics ==> t in d)
    && multiset(RanksOf(d, nTopics)) == multiset(Range(1, nTopics + 1))
  }

  /** `get_possible_student_preferences(nTopics)`. */
  function Candidates(nTopics: nat): seq<Declaration>
  {
    var perms := Permutations(Range(1, nTopics + 1));
    seq(|perms|, k requires 0 <= k < |perms| => ToDeclaration(perms[k]))
  }

  // ---------------------------------------------------------------------------
  // Permutations: soundness, completeness, distinctness and number

  lemma {:induction false} PermutationsSound(s: seq<int>, p: seq<int>)
    requires p in Permutations(s)
    ensures multiset(p) == multiset(s)
    decreases |s|, 1
  {
    if |s| > 0 {
      PickingSound(s, 0, p);
    }
  }

  lemma {:induction false} PickingSound(s: seq<int>, i: nat, p: seq<int>)
    requires i <= |s| && p in Picking(s, i)
    ensures multiset(p) == multiset(s) && |p| > 0 && exists j :: i <= j < |s| && p[0] == s[j]
    decreases |s|, 0, |s| - i
  {
    var block := Prepend(s[i], Permutations(Without(s, i)));
    if p in block {
      var k :| 0 <= k < |block| && block[k] == p;
      var q := Permutations(Without(s, i))[k];
      assert p == [s[i]] + q;
      PermutationsSound(Without(s, i), q);
      MultisetWithout(s, i);
    } else {
      PickingSound(s, i + 1, p);
    }
  }

  lemma {:induction false} PermutationsComplete(s: seq<int>, p: seq<int>)
    requires multiset(p) == multiset(s)
    ensures p in Permutations(s)
    decreases |s|
  {
    assert |p| == |multiset(p)| == |s|;
    if |s| > 0 {
      assert p[0] in multiset(s);
      var i :| 0 <= i < |s| && s[i] == p[0];
      TailMultiset(s, i, p);
      PermutationsComplete(Without(s, i), p[1..]);
      var perms := Permutations(Without(s, i));
      var k :| 0 <= k < |perms| && perms[k] == p[1..];
      assert Prepend(s[i], perms)[k] == p;
      PickingContains(s, 0, i, p);
    }
  }

  /** Removing a shared first element from two rearrangements of each other leaves rearrangements. */
  lemma TailMultiset(s: seq<int>, i: nat, p: seq<int>)
    requires i < |s| && |p| > 0 && s[i] == p[0] && multiset(p) == multiset(s)
    ensures multiset(p[1..]) == multiset(Without(s, i))
  {
    MultisetWithout(s, i);
    assert p == [p[0]] + p[1..];
    assert multiset(p) == multiset{p[0]} + multiset(p[1..]);
    assert multiset(p[1..]) == multiset(p) - multiset{p[0]};
    assert multiset(Without(s, i)) == multiset(s) - multiset{s[i]};
  }

  lemma MulSucc(n: nat, f: nat)
    ensures (n + 1) * f == f + n * f
  {
  }

  lemma {:induction false} PickingContains(s: seq<int>, from: nat, i: nat, p: seq<int>)
    requires from <= i < |s| && p in Prepend(s[i], Permutations(Without(s, i)))
    ensures p in Picking(s, from)
    decreases i - from
  {
    if from < i {
      PickingContains(s, from + 1, i, p);
    }
  }

  lemma {:induction false} PermutationsDistinct(s: seq<int>)
    requires NoDuplicates(s)
    ensures NoDuplicates(Permutations(s))
    decreases |s|, 1
  {
    if |s| > 0 {
      PickingDistinct(s, 0);
    }
  }

  lemma {:induction false} PickingDistinct(s: seq<int>, i: nat)
    requires NoDuplicates(s) && i <= |s|
    ensures NoDuplicates(Picking(s, i))
    decreases |s|, 0, |s| - i
  {
    if i < |s| {
      var w := Without(s, i);
      assert NoDuplicates(w) by {
        forall a, b | 0 <= a < b < |w| ensures w[a] != w[b] {
          var a' := if a < i then a else a + 1;
          var b' := if b < i then b else b + 1;
          assert w[a] == s[a'] && w[b] == s[b'];
        }
      }
      PermutationsDistinct(w);
      PrependNoDuplicates(s[i], Permutations(w));
      PickingDistinct(s, i + 1);
      var block := Prepend(s[i], Permutations(w));
      forall q | q in Picking(s, i + 1) ensures |q| > 0 && q[0] != s[i] {
        PickingSound(s, i + 1, q);
      }
      forall p | p in block ensures p !in Picking(s, i + 1) {
        var k :| 0 <= k < |block| && block[k] == p;
        assert p[0] == s[i];
      }
      ConcatNoDuplicates(block, Picking(s, i + 1));
    }
  }

  lemma {:induction false} PermutationsCount(s: seq<int>)
    ensures |Permutations(s)| == Factorial(|s|)
    decreases |s|, 1
  {
    if |s| > 0 {
      PickingCount(s, 0);
    }
  }

  lemma {:induction false} PickingCount(s: seq<int>, i: nat)
    requires 0 < |s| && i <= |s|
    ensures |Picking(s, i)| == (|s| - i) * Factorial(|s| - 1)
    decreases |s|, 0, |s| - i
  {
    if i < |s| {
      PermutationsCount(Without(s, i));
      PickingCount(s, i + 1);
      assert |Picking(s, i)| == |Permutations(Without(s, i))| + |Picking(s, i + 1)|;
      MulSucc(|s| - (i + 1), Factorial(|s| - 1));
    }
  }

  /** Strictly increasing elements. */
  predicate Increasing(s: seq<int>)
  {
    forall i, j :: 0 <= i < j < |s| ==> s[i] < s[j]
  }

  /** `itertools.permutations` of an increasing sequence comes in strictly increasing lexicographic
      order. */
  lemma {:induction false} PermutationsSorted(s: seq<int>)
    requires Increasing(s)
    ensures Sorted(Permutations(s))
    decreases |s|, 1
  {
    if |s| > 0 {
      PickingSorted(s, 0);
    }
  }

  lemma {:induction false} PickingSorted(s: seq<int>, i: nat)
    requires Increasing(s) && i <= |s|
    ensures Sorted(Picking(s, i))
    decreases |s|, 0, |s| - i
  {
    if i < |s| {
      var w := Without(s, i);
      assert Increasing(w) by {
        forall a, b | 0 <= a < b < |w| ensures w[a] < w[b] {
          var a' := if a < i then a else a + 1;
          var b' := if b < i then b else b + 1;
          assert w[a] == s[a'] && w[b] == s[b'];
        }
      }
      var block := Prepend(s[i], Permutations(w));
      PermutationsSorted(w);
      PrependSorted(s[i], Permutations(w));
      PickingSorted(s, i + 1);
      forall x, y | x in block && y in Picking(s, i + 1) ensures LexLess(x, y) {
        PrependMembership(s[i], Permutations(w), x);
        PickingSound(s, i + 1, y);
      }
      SortedConcat(block, Picking(s, i + 1));
    }
  }

  // ---------------------------------------------------------------------------
  // The candidate declarations

  lemma RangeDistinct(lo: int, hi: int)
    ensures NoDuplicates(Range(lo, hi))
  {
  }

  lemma ToDeclarationRoundTrip(p: seq<int>)
    ensures forall t :: t in ToDeclaration(p) <==> 0 <= t < |p|
    ensures RanksOf(ToDeclaration(p), |p|) == p
  {
  }

  /** There are `nTopics!` candidates. */
  lemma CandidatesCount(nTopics: nat)
    ensures |Candidates(nTopics)| == Factorial(nTopics)
  {
    PermutationsCount(Range(1, nTopics + 1));
  }

  /** Every candidate is a strict ranking of the topics by `1 .. nTopics`. */
  lemma CandidatesAreRankings(nTopics: nat, k: nat)
    requires k < |Candidates(nTopics)|
    ensures IsRanking(Candidates(nTopics)[k], nTopics)
  {
    var perms := Permutations(Range(1, nTopics + 1));
    PermutationsSound(Range(1, nTopics + 1), perms[k]);
    assert |perms[k]| == |multiset(perms[k])| == nTopics;
    ToDeclarationRoundTrip(perms[k]);
  }

  /** The candidates come in the order of `itertools.permutations(range(1, nTopics + 1))`: their rank
      vectors, read in topic order, increase strictly in lexicographic order. */
  lemma CandidatesInOrder(nTopics: nat, j: nat, k: nat)
    requires j < k < |Candidates(nTopics)|
    ensures && (forall t :: 0 <= t < nTopics ==> t in Candidates(nTopics)[j] && t in Candidates(nTopics)[k])
            && LexLess(RanksOf(Candidates(nTopics)[j], nTopics), RanksOf(Candidates(nTopics)[k], nTopics))
  {
    var perms := Permutations(Range(1, nTopics + 1));
    PermutationsSorted(Range(1, nTopics + 1));
    PermutationsSound(Range(1, nTopics + 1), perms[j]);
    PermutationsSound(Range(1, nTopics + 1), perms[k]);
    assert |perms[j]| == |multiset(perms[j])| == nTopics;
    assert |perms[k]| == |multiset(perms[k])| == nTopics;
    ToDeclarationRoundTrip(perms[j]);
    ToDeclarationRoundTrip(perms[k]);
  }

  /** No candidate is listed twice. */
  lemma CandidatesDistinct(nTopics: nat)
    ensures NoDuplicates(Candidates(nTopics))
  {
    var perms := Permutations(Range(1, nTopics + 1));
    var c := Candidates(nTopics);
    RangeDistinct(1, nTopics + 1);
    PermutationsDistinct(Range(1, nTopics + 1));
    forall i, j | 0 <= i < j < |c| ensures c[i] != c[j] {
      CandidatesAreRankings(nTopics, i);
      CandidatesAreRankings(nTopics, j);
      PermutationsSound(Range(1, nTopics + 1), perms[i]);
      PermutationsSound(Range(1, nTopics + 1), perms[j]);
      assert |perms[i]| == |multiset(perms[i])| == nTopics;
      assert |perms[j]| == |multiset(perms[j])| == nTopics;
      ToDeclarationRoundTrip(perms[i]);
      ToDeclarationRoundTrip(perms[j]);
    }
  }

  /** Every strict ranking of the topics by `1 .. nTopics` is a candidate. */
  lemma CandidatesComplete(nTopics: nat, d: Declaration)
    requires IsRanking(d, nTopics)
    ensures d in Candidates(nTopics)
  {
    var p := RanksOf(d, nTopics);
    PermutationsComplete(Range(1, nTopics + 1), p);
    var perms := Permutations(Range(1, nTopics + 1));
    var k :| 0 <= k < |perms| && perms[k] == p;
    assert Candidates(nTopics)[k] == ToDeclaration(p);
    ToDeclarationRoundTrip(p);
    forall t | t in d ensures ToDeclaration(p)[t] == d[t] {
      assert p[t] == d[t];
    }
    assert ToDeclaration(p).Keys == d.Keys;
    assert ToDeclaration(p) == d;
    assert Candidates(nTopics)[k] == d;
  }

  /** A ranking gives each topic a rank in `1 .. nTopics` and no two topics the same rank. */
  lemma RankingIsBijection(d: Declaration, nTopics: nat)
    requires IsRanking(d, nTopics)
    ensures forall t :: t in d ==> 1 <= d[t] <= nTopics
    ensures forall t, u :: t in d && u in d && d[t] == d[u] ==> t == u
  {
    var r := RanksOf(d, nTopics);
    forall t | t in d ensures 1 <= d[t] <= nTopics {
      assert r[t] in multiset(r);
      assert d[t] in Range(1, nTopics + 1);
    }
    forall t, u | t in d && u in d && d[t] == d[u] ensures t == u {
      if t != u {
        if t < u { TwiceCounted(r, t, u); } else { TwiceCounted(r, u, t); }
        RangeAtMostOnce(1, nTopics + 1, d[t]);
      }
    }
  }

  lemma TwiceCounted(r: seq<int>, t: nat, u: nat)
    requires t < u < |r| && r[t] == r[u]
    ensures multiset(r)[r[t]] >= 2
  {
    assert r == r[..u] + r[u..];
    assert r[t] in r[..u] && r[u] in r[u..];
  }

  lemma RangeAtMostOnce(lo: int, hi: int, v: int)
    ensures multiset(Range(lo, hi))[v] <= 1
  {
    RangeDistinct(lo, hi);
    DistinctAtMostOnce(Range(lo, hi), v);
  }
}
