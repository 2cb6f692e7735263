/** Small facts about sequences shared by the two enumerators (permutations and products). */
module Seqs {

  /** Every sequence of `ps`, in order, with `x` put in front of it. */
  function Prepend<T>(x: T, ps: seq<seq<T>>): seq<seq<T>>
  {
    seq(|ps|, k requires 0 <= k < |ps| => [x] + ps[k])
  }

  /** No element occurs twice. */
  predicate NoDuplicates<T(==)>(s: seq<T>)
  {
    forall i, j :: 0 <= i < j < |s| ==> s[i] != s[j]
  }

  /** `s` with its element at position `i` taken out. */
  function Without<T>(s: seq<T>, i: nat): seq<T>
    requires i < |s|
  {
    s[..i] + s[i + 1..]
  }

  function Factorial(n: nat): nat
  {
    if n == 0 then 1 else n * Factorial(n - 1)
  }

  /** The integers from `lo` (inclusive) to `hi` (exclusive), ascending: Python's `range(lo, hi)`. */
  function Range(lo: int, hi: int): seq<int>
  {
    if hi <= lo then [] else seq(hi - lo, i requires 0 <= i < hi - lo => lo + i)
  }

  /** In a sequence without repetitions every value occurs at most once. */
  lemma {:induction false} DistinctAtMostOnce<T>(s: seq<T>, v: T)
    requires NoDuplicates(s)
    ensures multiset(s)[v] <= 1
    decreases |s|
  {
    if |s| > 0 {
      assert s == [s[0]] + s[1..];
      assert NoDuplicates(s[1..]) by {
        forall i, j | 0 <= i < j < |s[1..]| ensures s[1..][i] != s[1..][j] {
          assert s[1..][i] == s[i + 1] && s[1..][j] == s[j + 1];
        }
      }
      DistinctAtMostOnce(s[1..], v);
      if v == s[0] {
        assert v !in s[1..] by {
          forall i | 0 <= i < |s[1..]| ensures s[1..][i] != v {
            assert s[1..][i] == s[i + 1];
          }
        }
      }
    }
  }

  lemma MultisetWithout<T>(s: seq<T>, i: nat)
    requires i < |s|
    ensures multiset(s) == multiset(Without(s, i)) + multiset{s[i]}
  {
    assert s == s[..i] + [s[i]] + s[i + 1..];
  }

  /** Prepending the same element keeps sequences apart. */
  lemma PrependNoDuplicates<T>(x: T, ps: seq<seq<T>>)
    requires NoDuplicates(ps)
    ensures NoDuplicates(Prepend(x, ps))
  {
    var r := Prepend(x, ps);
    forall i, j | 0 <= i < j < |r| ensures r[i] != r[j] {
      assert r[i][1..] == ps[i] && r[j][1..] == ps[j];
    }
  }

  /** Two duplicate-free sequences with no element in common concatenate to a duplicate-free one. */
  lemma ConcatNoDuplicates<T>(a: seq<T>, b: seq<T>)
    requires NoDuplicates(a) && NoDuplicates(b)
    requires forall x :: x in a ==> x !in b
    ensures NoDuplicates(a + b)
  {
    var c := a + b;
    forall i, j | 0 <= i < j < |c| ensures c[i] != c[j] {
      if j < |a| {
        assert c[i] == a[i] && c[j] == a[j];
      } else if i >= |a| {
        assert c[i] == b[i - |a|] && c[j] == b[j - |a|];
      } else {
        assert c[i] == a[i] && c[j] == b[j - |a|] && a[i] in a;
      }
    }
  }

  /** In `range(0, m)` every integer of `[0, m)` occurs once and nothing else occurs. */
  lemma {:induction false} RangeCount(m: nat, t: int)
    ensures multiset(Range(0, m))[t] == if 0 <= t < m then 1 else 0
  {
    if m > 0 {
      assert Range(0, m) == Range(0, m - 1) + [m - 1];
      RangeCount(m - 1, t);
    }
  }

  // ---------------------------------------------------------------------------
  // Lexicographic order

  /** Strict lexicographic order, the order of `itertools.product` and `itertools.permutations`. */
  predicate LexLess(a: seq<int>, b: seq<int>)
    decreases |a|
  {
    && |a| > 0 && |b| > 0
    && (a[0] < b[0] || (a[0] == b[0] && LexLess(a[1..], b[1..])))
  }

  /** Strictly increasing in `LexLess`. */
  predicate Sorted(s: seq<seq<int>>)
  {
    forall i, j :: 0 <= i < j < |s| ==> LexLess(s[i], s[j])
  }

  lemma PrependMembership(t: int, rest: seq<seq<int>>, a: seq<int>)
    ensures a in Prepend(t, rest) <==> |a| > 0 && a[0] == t && a[1..] in rest
  {
    var p := Prepend(t, rest);
    if a in p {
      var k :| 0 <= k < |p| && p[k] == a;
      assert a[1..] == rest[k];
    }
    if |a| > 0 && a[0] == t && a[1..] in rest {
      var k :| 0 <= k < |rest| && rest[k] == a[1..];
      assert p[k] == a;
    }
  }

  /** `LexLess` is asymmetric, hence irreflexive. */
  lemma {:induction false} LexAsymmetric(a: seq<int>, b: seq<int>)
    ensures LexLess(a, b) ==> !LexLess(b, a)
    decreases |a|
  {
    if |a| > 0 && |b| > 0 && a[0] == b[0] {
      LexAsymmetric(a[1..], b[1..]);
    }
  }

  lemma SortedConcat(a: seq<seq<int>>, b: seq<seq<int>>)
    requires Sorted(a) && Sorted(b)
    requires forall x, y :: x in a && y in b ==> LexLess(x, y)
    ensures Sorted(a + b)
  {
    var c := a + b;
    forall i, j | 0 <= i < j < |c| ensures LexLess(c[i], c[j]) {
      if j < |a| {
        assert c[i] == a[i] && c[j] == a[j];
      } else if i >= |a| {
        assert c[i] == b[i - |a|] && c[j] == b[j - |a|];
      } else {
        assert c[i] == a[i] && c[j] == b[j - |a|] && a[i] in a && b[j - |a|] in b;
      }
    }
  }

  lemma PrependSorted(t: int, rest: seq<seq<int>>)
    requires Sorted(rest)
    ensures Sorted(Prepend(t, rest))
  {
    var p := Prepend(t, rest);
    forall i, j | 0 <= i < j < |p| ensures LexLess(p[i], p[j]) {
      assert p[i][1..] == rest[i] && p[j][1..] == rest[j];
      assert LexLess(rest[i], rest[j]);
    }
  }
}
