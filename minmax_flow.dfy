/**
 minmax/flow.py: the min-max solver by a threshold search over a flow
 network. Each topic has two slots, the second one `nTopics` dearer than the
 first; student i may use slot j when its slot cost is at most the threshold.
 The maximum-flow computation is an abstract oracle over that graph, and the
 binary search looks for the smallest threshold the oracle accepts.
 */
module MinMaxFlow {
  import opened Wrappers
  import opened Preferences

  // ---------------------------------------------------------------------------
  // The two-slot cost matrix

  /** The cost of slot `j` (of `2 * nTopics`) for student `i`: the rank of topic `j` for the first
      slots and the rank of topic `j - nTopics` plus `nTopics` for the second ones. */
  function SlotCost(prefs: Table, nStudents: nat, nTopics: nat, i: nat, j: nat): int
    requires Complete(prefs, nStudents, nTopics) && i < nStudents && j < 2 * nTopics
  {
    if j < nTopics then prefs[(i, j)] else prefs[(i, j - nTopics)] + nTopics
  }

  /** `cost` is the matrix of minmax/flow.py:5-10 for `prefs`. */
  predicate CostMatches(cost: array2<int>, prefs: Table, nStudents: nat, nTopics: nat)
    reads cost
  {
    && cost.Length0 == nStudents && cost.Length1 == 2 * nTopics
    && Complete(prefs, nStudents, nTopics)
    && forall i, j :: 0 <= i < nStudents && 0 <= j < 2 * nTopics ==> cost[i, j] == SlotCost(prefs, nStudents, nTopics, i, j)
  }

  /** minmax/flow.py:5-10: the `nStudents` by `2 * nTopics` cost matrix, or the `KeyError` of a missing pair. */
  method BuildCostMatrix(nStudents: nat, nTopics: nat, preferences: Table) returns (r: Result<array2<int>, Error>)
    ensures r.Failure? <==> !Complete(preferences, nStudents, nTopics)
    ensures r.Failure? ==> r.error == MissingPreference
    ensures r.Success? ==> CostMatches(r.value, preferences, nStudents, nTopics)
    ensures r.Success? ==> fresh(r.value)
  {
    var cost := new int[nStudents, 2 * nTopics]((_, _) => 0);
    for i := 0 to nStudents
      invariant forall s, t :: 0 <= s < i && 0 <= t < nTopics ==>
        (s, t) in preferences && cost[s, t] == preferences[(s, t)] && cost[s, nTopics + t] == preferences[(s, t)] + nTopics
    {
      for j := 0 to nTopics
        invariant forall s, t :: 0 <= s < i && 0 <= t < nTopics ==>
          (s, t) in preferences && cost[s, t] == preferences[(s, t)] && cost[s, nTopics + t] == preferences[(s, t)] + nTopics
        invariant forall t :: 0 <= t < j ==>
          (i, t) in preferences && cost[i, t] == preferences[(i, t)] && cost[i, nTopics + t] == preferences[(i, t)] + nTopics
      {
        if (i, j) !in preferences {
          return Failure(MissingPreference);
        }
        var baseCost := preferences[(i, j)];
        cost[i, j] := baseCost;
        cost[i, nTopics + j] := baseCost + nTopics;
      }
    }
    forall s, j | 0 <= s < nStudents && nTopics <= j < 2 * nTopics
      ensures cost[s, j] == preferences[(s, j - nTopics)] + nTopics
    {
      assert cost[s, nTopics + (j - nTopics)] == preferences[(s, j - nTopics)] + nTopics;
    }
    return Success(cost);
  }

  // ---------------------------------------------------------------------------
  // The graph, the oracle and the extraction of an assignment

  /** The student-to-slot edges of minmax/flow.py:24-27 at `threshold`: `edges[i][j]` when student `i` may use
      slot `j`. The other edges of the graph depend on the dimensions only. */
  function Edges(prefs: Table, nStudents: nat, nTopics: nat, threshold: int): (e: seq<seq<bool>>)
    requires Complete(prefs, nStudents, nTopics)
    ensures |e| == nStudents && forall i :: 0 <= i < nStudents ==> |e[i]| == 2 * nTopics
  {
    seq(nStudents, i requires 0 <= i < nStudents =>
      seq(2 * nTopics, j requires 0 <= j < 2 * nTopics => SlotCost(prefs, nStudents, nTopics, i, j) <= threshold))
  }

  /** What `nx.maximum_flow` hands back: the flow value and, for every student node present in the
      flow dictionary, the flow on its edges to slots `0, 1, ...` in insertion order (0 where the
      graph has no such edge). */
  datatype Flow = Flow(value: int, toSlot: seq<seq<int>>)

  /** The graph of minmax/flow.py:13-58 with the maximum flow from the super source to the super sink computed
      on it, given the dimensions and the student-to-slot edges. */
  type MaxFlow = (nat, nat, seq<seq<bool>>) -> Flow

  /** The nodes of the graph of minmax/flow.py:13-17 that carry a demand. */
  datatype Node = Source | Sink | StudentNode(i: nat) | SlotNode(j: nat) | TopicNode(t: nat)

  /** The `demand` dict of minmax/flow.py:35-44 as its items in insertion order: one unit for every
      topic's lower bound, nothing for a slot, one unit out of every student, `nStudents` into the
      source and `nTopics` out of the sink. */
  function Demands(nStudents: nat, nTopics: nat): seq<(Node, int)>
  {
    seq(nTopics, t requires 0 <= t < nTopics => (TopicNode(t), 1))
    + seq(2 * nTopics, j requires 0 <= j < 2 * nTopics => (SlotNode(j), 0))
    + seq(nStudents, i requires 0 <= i < nStudents => (StudentNode(i), -1))
    + [(Source, nStudents as int), (Sink, -(nTopics as int))]
  }

  /** The sum of the positive demands among `ds`, as the loop of minmax/flow.py:51-54 adds them up. */
  function PositiveDemand(ds: seq<(Node, int)>): int
  {
    if |ds| == 0 then 0
    else
      var d := ds[|ds| - 1].1;
      PositiveDemand(ds[..|ds| - 1]) + (if d > 0 then d else 0)
  }

  lemma {:induction false} PositiveDemandConcat(a: seq<(Node, int)>, b: seq<(Node, int)>)
    ensures PositiveDemand(a + b) == PositiveDemand(a) + PositiveDemand(b)
    decreases |b|
  {
    if |b| > 0 {
      assert (a + b)[..|a + b| - 1] == a + b[..|b| - 1];
      assert (a + b)[|a + b| - 1] == b[|b| - 1];
      PositiveDemandConcat(a, b[..|b| - 1]);
    } else {
      assert a + b == a;
    }
  }

  /** Demands of one unit each add up to their number. */
  lemma {:induction false} PositiveDemandUnits(ds: seq<(Node, int)>)
    requires forall k :: 0 <= k < |ds| ==> ds[k].1 == 1
    ensures PositiveDemand(ds) == |ds|
  {
    if |ds| > 0 {
      PositiveDemandUnits(ds[..|ds| - 1]);
    }
  }

  /** Demands that are not positive add nothing. */
  lemma {:induction false} PositiveDemandNone(ds: seq<(Node, int)>)
    requires forall k :: 0 <= k < |ds| ==> ds[k].1 <= 0
    ensures PositiveDemand(ds) == 0
  {
    if |ds| > 0 {
      PositiveDemandNone(ds[..|ds| - 1]);
    }
  }

  /** The loop of minmax/flow.py:49-54 over the demand items: every positive demand is added to the
      total (and becomes an edge out of the super source, which the oracle stands for). */
  method SumPositive(demand: seq<(Node, int)>) returns (totalDemand: int)
    ensures totalDemand == PositiveDemand(demand)
  {
    totalDemand := 0;
    for k := 0 to |demand|
      invariant totalDemand == PositiveDemand(demand[..k])
    {
      assert demand[..k + 1][..k] == demand[..k];
      var d := demand[k].1;
      if d > 0 {
        totalDemand := totalDemand + d;
      }
    }
    assert demand[..|demand|] == demand;
  }

  /** `total_demand` after minmax/flow.py:49-54: the capacity leaving the super source, which is one
      unit per topic and `nStudents` for the source (when positive). */
  function TotalDemand(nStudents: nat, nTopics: nat): (d: int)
    ensures d == nStudents + nTopics
  {
    var topics := seq(nTopics, t requires 0 <= t < nTopics => (TopicNode(t), 1));
    var slots := seq(2 * nTopics, j requires 0 <= j < 2 * nTopics => (SlotNode(j), 0));
    var students := seq(nStudents, i requires 0 <= i < nStudents => (StudentNode(i), -1));
    var ends := [(Source, nStudents as int), (Sink, -(nTopics as int))];
    assert Demands(nStudents, nTopics) == topics + slots + students + ends;
    PositiveDemandConcat(topics + slots + students, ends);
    PositiveDemandConcat(topics + slots, students);
    PositiveDemandConcat(topics, slots);
    PositiveDemandUnits(topics);
    PositiveDemandNone(slots);
    PositiveDemandNone(students);
    assert ends[..1] == [(Source, nStudents as int)] && ends[..1][..0] == [];
    assert PositiveDemand(ends[..1]) == nStudents;
    assert PositiveDemand(ends) == nStudents;
    PositiveDemand(Demands(nStudents, nTopics))
  }

  /** minmax/flow.py:74: the threshold is feasible when the maximum flow saturates every demand. */
  predicate Feasible(maxFlow: MaxFlow, prefs: Table, nStudents: nat, nTopics: nat, threshold: int)
    requires Complete(prefs, nStudents, nTopics)
  {
    maxFlow(nStudents, nTopics, Edges(prefs, nStudents, nTopics, threshold)).value == TotalDemand(nStudents, nTopics)
  }

  /** The first slot among the first `limit` entries of `row` that carries one unit of flow. */
  function FirstUnit(row: seq<int>, limit: nat): (r: Option<nat>)
    ensures r.Some? ==> r.value < limit && r.value < |row| && row[r.value] == 1
    ensures r.Some? ==> forall j :: 0 <= j < r.value ==> row[j] != 1
    ensures r.None? ==> forall j :: 0 <= j < |row| && j < limit ==> row[j] != 1
  {
    if |row| == 0 || limit == 0 then None
    else if row[0] == 1 then Some(0)
    else
      match FirstUnit(row[1..], limit - 1)
      case None => None
      case Some(j) => Some(j + 1)
  }

  /** minmax/flow.py:63-71: the topic of student `i` is the topic of its first unit-flow slot, `j % nTopics`,
      or -1 when it got no slot (or is missing from the flow dictionary). */
  function Extract(flow: Flow, nStudents: nat, nTopics: nat): (result: seq<int>)
    ensures |result| == nStudents
    ensures forall i :: 0 <= i < nStudents ==> result[i] == -1 || 0 <= result[i] < nTopics
  {
    seq(nStudents, i requires 0 <= i < nStudents =>
      if i < |flow.toSlot| then
        match FirstUnit(flow.toSlot[i], 2 * nTopics)
        case None => -1
        case Some(j) => j % nTopics
      else -1)
  }

  /** `is_feasible(threshold)` (minmax/flow.py:12-74) over the cost matrix, with the maximum flow as the oracle. */
  method IsFeasible(cost: array2<int>, nStudents: nat, nTopics: nat, threshold: int, maxFlow: MaxFlow, ghost prefs: Table)
    returns (feasible: bool, assignments: seq<int>)
    requires CostMatches(cost, prefs, nStudents, nTopics)
    ensures feasible == Feasible(maxFlow, prefs, nStudents, nTopics, threshold)
    ensures assignments == Extract(maxFlow(nStudents, nTopics, Edges(prefs, nStudents, nTopics, threshold)), nStudents, nTopics)
  {
    // minmax/flow.py:24-27: the student-to-slot edges under the threshold.
    var edges: seq<seq<bool>> := [];
    for i := 0 to nStudents
      invariant |edges| == i
      invariant forall s :: 0 <= s < i ==> edges[s] == Edges(prefs, nStudents, nTopics, threshold)[s]
    {
      var row: seq<bool> := [];
      for j := 0 to 2 * nTopics
        invariant |row| == j
        invariant forall t :: 0 <= t < j ==> row[t] == (cost[i, t] <= threshold)
      {
        row := row + [cost[i, j] <= threshold];
      }
      edges := edges + [row];
    }
    assert edges == Edges(prefs, nStudents, nTopics, threshold);
    var flow := maxFlow(nStudents, nTopics, edges);
    var totalDemand := SumPositive(Demands(nStudents, nTopics));

    // minmax/flow.py:63-71: for every student, the topic of its first unit-flow slot.
    var result := new int[nStudents](_ => -1);
    for i := 0 to nStudents
      invariant forall s :: 0 <= s < i ==> result[s] == Extract(flow, nStudents, nTopics)[s]
      invariant forall s :: i <= s < nStudents ==> result[s] == -1
    {
      if i < |flow.toSlot| {
        var slots := flow.toSlot[i];
        var j := 0;
        while j < |slots| && j < 2 * nTopics
          invariant 0 <= j <= |slots|
          invariant forall t :: 0 <= t < j ==> slots[t] != 1
          invariant result[i] == -1
          invariant forall s :: 0 <= s < i ==> result[s] == Extract(flow, nStudents, nTopics)[s]
          invariant forall s :: i < s < nStudents ==> result[s] == -1
        {
          if slots[j] == 1 {
            result[i] := j % nTopics;
            break;
          }
          j := j + 1;
        }
      }
    }
    return flow.value == totalDemand, result[..];
  }

  // ---------------------------------------------------------------------------
  // Monotonicity of feasibility in the threshold

  /** `more` has every edge of `fewer`. */
  predicate Covers(more: seq<seq<bool>>, fewer: seq<seq<bool>>)
  {
    && |more| == |fewer|
    && forall i :: 0 <= i < |fewer| ==>
         |more[i]| == |fewer[i]| && forall j :: 0 <= j < |fewer[i]| && fewer[i][j] ==> more[i][j]
  }

  /** The hypothesis on the oracle: adding edges never loses a saturating flow, as holds of maximum
      flow in any graph. */
  ghost predicate MonotoneOracle(maxFlow: MaxFlow, nStudents: nat, nTopics: nat)
  {
    forall more, fewer :: Covers(more, fewer) && maxFlow(nStudents, nTopics, fewer).value == TotalDemand(nStudents, nTopics)
      ==> maxFlow(nStudents, nTopics, more).value == TotalDemand(nStudents, nTopics)
  }

  /** A larger threshold keeps every edge of a smaller one. */
  lemma EdgesGrow(prefs: Table, nStudents: nat, nTopics: nat, low: int, high: int)
    requires Complete(prefs, nStudents, nTopics) && low <= high
    ensures Covers(Edges(prefs, nStudents, nTopics, high), Edges(prefs, nStudents, nTopics, low))
  {
  }

  /** Under the hypothesis, feasibility is upward closed in the threshold. */
  lemma FeasibleUpward(maxFlow: MaxFlow, prefs: Table, nStudents: nat, nTopics: nat, low: int, high: int)
    requires Complete(prefs, nStudents, nTopics) && MonotoneOracle(maxFlow, nStudents, nTopics)
    requires low <= high && Feasible(maxFlow, prefs, nStudents, nTopics, low)
    ensures Feasible(maxFlow, prefs, nStudents, nTopics, high)
  {
    EdgesGrow(prefs, nStudents, nTopics, low, high);
  }

  /** An oracle whose flow only uses edges of the graph. */
  predicate UsesEdges(flow: Flow, edges: seq<seq<bool>>)
  {
    forall i, j ::
      0 <= i < |flow.toSlot| && i < |edges| && 0 <= j < |flow.toSlot[i]| && j < |edges[i]| && flow.toSlot[i][j] == 1
      ==> edges[i][j]
  }

  /** Slot costs penalise the second slot: when the flow only uses graph edges, every extracted topic
      has a rank at most the threshold, and at most the threshold minus `nTopics` when the student sits
      in the topic's second slot. The bound is about placed students only; the flow may leave students
      unplaced. */
  lemma ExtractedWithinThreshold(prefs: Table, nStudents: nat, nTopics: nat, threshold: int, flow: Flow, i: nat)
    requires Complete(prefs, nStudents, nTopics) && i < nStudents
    requires UsesEdges(flow, Edges(prefs, nStudents, nTopics, threshold))
    requires Extract(flow, nStudents, nTopics)[i] != -1
    ensures var t := Extract(flow, nStudents, nTopics)[i];
      && (i, t) in prefs && prefs[(i, t)] <= threshold
      && (FirstUnit(flow.toSlot[i], 2 * nTopics).value >= nTopics ==> prefs[(i, t)] + nTopics <= threshold)
  {
    var j := FirstUnit(flow.toSlot[i], 2 * nTopics).value;
    SlotTopic(j, nTopics);
    assert Edges(prefs, nStudents, nTopics, threshold)[i][j];
  }

  /** Slot `j` and slot `j + nTopics` belong to the same topic. */
  lemma SlotTopic(j: nat, nTopics: nat)
    requires j < 2 * nTopics
    ensures j % nTopics == if j < nTopics then j else j - nTopics
  {
  }

  // ---------------------------------------------------------------------------
  // The search

  /** `m` is `max(prefs.values())`. */
  predicate IsMax(prefs: Table, m: int)
  {
    && (exists k :: k in prefs && prefs[k] == m)
    && forall k :: k in prefs ==> prefs[k] <= m
  }

  /** `max(preferences.values())`, the `ValueError` of an empty table being the caller's. */
  method MaxRank(prefs: Table) returns (m: int)
    requires prefs != map[]
    ensures IsMax(prefs, m)
  {
    var k0 :| k0 in prefs;
    m := prefs[k0];
    var rest := prefs.Keys - {k0};
    while rest != {}
      invariant rest <= prefs.Keys
      invariant exists k :: k in prefs && prefs[k] == m
      invariant forall k :: k in prefs && k !in rest ==> prefs[k] <= m
      decreases |rest|
    {
      var k :| k in rest;
      if prefs[k] > m {
        m := prefs[k];
      }
      rest := rest - {k};
    }
  }

  /** `solve_with_flow(n_students, n_topics, preferences)`: the cost matrix (a missing pair is a
      `KeyError`), `max` over the ranks (an empty table is a `ValueError`), the binary search over
      `[0, max + nTopics]`, and the assignment of a last oracle call at the answer (-1 when no
      threshold was accepted). The answer is feasible whenever it is not -1; under the monotonicity
      hypothesis it is the least feasible threshold of the range, and -1 exactly when none is. */
  method SolveWithFlow(nStudents: nat, nTopics: nat, preferences: Table, maxFlow: MaxFlow)
    returns (r: Result<(int, seq<int>), Error>)
    ensures r == Failure(MissingPreference) <==> !Complete(preferences, nStudents, nTopics)
    ensures r == Failure(EmptyPreferences) <==> Complete(preferences, nStudents, nTopics) && preferences == map[]
    ensures r.Success? <==> Complete(preferences, nStudents, nTopics) && preferences != map[]
    ensures r.Success? ==>
      var answer := r.value.0;
      && r.value.1 == Extract(maxFlow(nStudents, nTopics, Edges(preferences, nStudents, nTopics, answer)), nStudents, nTopics)
      && (answer != -1 ==> Feasible(maxFlow, preferences, nStudents, nTopics, answer))
      && exists m ::
           && IsMax(preferences, m) && (answer == -1 || 0 <= answer <= m + nTopics)
           && (MonotoneOracle(maxFlow, nStudents, nTopics) ==>
                 && (answer == -1 <==> forall t :: 0 <= t <= m + nTopics ==> !Feasible(maxFlow, preferences, nStudents, nTopics, t))
                 && forall t :: 0 <= t < answer ==> !Feasible(maxFlow, preferences, nStudents, nTopics, t))
  {
    var built := BuildCostMatrix(nStudents, nTopics, preferences);
    if built.Failure? {
      return Failure(MissingPreference);
    }
    var cost := built.value;
    if preferences == map[] {
      return Failure(EmptyPreferences);
    }
    var top := MaxRank(preferences);
    var low, high := 0, top + nTopics;
    var answer := -1;
    while low <= high
      invariant 0 <= low && (answer != -1 ==> low <= high + 1)
      invariant CostMatches(cost, preferences, nStudents, nTopics)
      invariant answer == -1 ==> high == top + nTopics
      invariant answer != -1 ==>
        answer == high + 1 && 0 <= answer <= top + nTopics && Feasible(maxFlow, preferences, nStudents, nTopics, answer)
      invariant MonotoneOracle(maxFlow, nStudents, nTopics) ==>
        forall t :: 0 <= t < low ==> !Feasible(maxFlow, preferences, nStudents, nTopics, t)
      decreases high - low + 1
    {
      var mid := (low + high) / 2;
      var feasible, _ := IsFeasible(cost, nStudents, nTopics, mid, maxFlow, preferences);
      if feasible {
        answer := mid;
        high := mid - 1;
      } else {
        if MonotoneOracle(maxFlow, nStudents, nTopics) {
          forall t | 0 <= t <= mid ensures !Feasible(maxFlow, preferences, nStudents, nTopics, t) {
            if Feasible(maxFlow, preferences, nStudents, nTopics, t) {
              FeasibleUpward(maxFlow, preferences, nStudents, nTopics, t, mid);
            }
          }
        }
        low := mid + 1;
      }
    }
    var _, assignments := IsFeasible(cost, nStudents, nTopics, answer, maxFlow, preferences);
    if MonotoneOracle(maxFlow, nStudents, nTopics) && answer != -1 {
      assert !forall t :: 0 <= t <= top + nTopics ==> !Feasible(maxFlow, preferences, nStudents, nTopics, t) by {
        assert 0 <= answer <= top + nTopics && Feasible(maxFlow, preferences, nStudents, nTopics, answer);
      }
    }
    assert IsMax(preferences, top) && (answer == -1 || 0 <= answer <= top + nTopics);
    return Success((answer, assignments));
  }
}
