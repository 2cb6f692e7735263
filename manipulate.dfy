/**
 The strategic-manipulation engine of manipulate.py: one student's best
 response against the current declarations (`Manipulator.manipulate`) and the
 fixed-round driver (`simulate_game`), over an abstract, deterministic
 assignment solver.
 */
module Manipulation {
  import opened Wrappers
  import opened Seqs
  import opened Preferences
  import opened Declarations

  /** `AssignmentSolver.solve(n_students, n_topics, preferences)`: some fixed assignment rule over the
      declared table; None stands for the solver raising on the instance. */
  type Solver = (nat, nat, Table) -> Option<Assignment>

  /** The parts of a game that no operation changes: the rule, the true table and the dimensions. */
  datatype Game = Game(solver: Solver, truth: Table, nTopics: nat, nStudents: nat)

  /** `GameState`. The two `Preferences` wrappers are represented by their tables; only the declared
      table is ever rebound, so the true one is a constant. */
  class GameState {
    const solver: Solver
    const truth: Table
    var declared: Table
    const nTopics: nat
    const nStudents: nat

    constructor (solver: Solver, truth: Table, declared: Table, nTopics: nat, nStudents: nat)
      ensures this.solver == solver && this.truth == truth && this.declared == declared
      ensures this.nTopics == nTopics && this.nStudents == nStudents
    {
      this.solver := solver;
      this.truth := truth;
      this.declared := declared;
      this.nTopics := nTopics;
      this.nStudents := nStudents;
    }

    function AsGame(): Game
    {
      Game(solver, truth, nTopics, nStudents)
    }
  }

  // ---------------------------------------------------------------------------
  // The best response of one student, as a function of the declared table

  /** `compute_dissatisfaction` and manipulate.py:68-71: what `studentId` truly suffers when the solver is run
      on `declared`. */
  function Realised(g: Game, declared: Table, studentId: nat): Result<int, Error>
  {
    match g.solver(g.nStudents, g.nTopics, declared)
    case None => Failure(InfeasibleInstance)
    case Some(assignment) =>
      match StudentDissatisfaction(g.truth, assignment, studentId)
      case None => Failure(MissingPreference)
      case Some(sd) => Success(sd)
  }

  /** What `studentId` truly suffers if it declares `c` while everybody else keeps `declared`. */
  function Deviation(g: Game, declared: Table, studentId: nat, c: Declaration): Result<int, Error>
  {
    Realised(g, UpdatedPreferences(declared, c, studentId), studentId)
  }

  /** `compute_dissatisfaction` of every candidate, in enumeration order. */
  function Deviations(g: Game, declared: Table, studentId: nat, cands: seq<Declaration>): seq<Result<int, Error>>
  {
    seq(|cands|, j requires 0 <= j < |cands| => Deviation(g, declared, studentId, cands[j]))
  }

  /** The loop of manipulate.py:75-79 over the candidates' outcomes `vals` from position `k` on, with running
      best `bsd` reached by candidate `best` (None: nothing has beaten the baseline yet). */
  function Scan(vals: seq<Result<int, Error>>, k: nat, bsd: int, best: Option<nat>): (r: Result<Option<nat>, Error>)
    requires k <= |vals|
    requires best.Some? ==> best.value < k
    ensures r.Success? && r.value.Some? ==> r.value.value < |vals|
    decreases |vals| - k
  {
    if k == |vals| then Success(best)
    else
      match vals[k]
      case Failure(e) => Failure(e)
      case Success(sd) =>
        if sd < bsd then Scan(vals, k + 1, sd, Some(k))
        else Scan(vals, k + 1, bsd, best)
  }

  /** Every outcome is a value. */
  predicate AllSucceed(vals: seq<Result<int, Error>>)
  {
    forall j :: 0 <= j < |vals| ==> vals[j].Success?
  }

  /** No outcome is strictly below `baseline`. */
  predicate NoneBelow(vals: seq<Result<int, Error>>, baseline: int)
  {
    AllSucceed(vals) && forall j :: 0 <= j < |vals| ==> vals[j].value >= baseline
  }

  /** Outcome `k` is strictly below `baseline`, no outcome is below it, and every earlier one is
      strictly above it. */
  predicate FirstMinimumBelow(vals: seq<Result<int, Error>>, baseline: int, k: nat)
  {
    && AllSucceed(vals)
    && k < |vals|
    && vals[k].value < baseline
    && (forall j :: 0 <= j < |vals| ==> vals[j].value >= vals[k].value)
    && (forall j :: 0 <= j < k ==> vals[j].value > vals[k].value)
  }

  /** What the running minimum of `Scan` knows after outcomes `0 .. k-1`. */
  lemma {:induction false} ScanSound(vals: seq<Result<int, Error>>, baseline: int, k: nat, bsd: int, best: Option<nat>)
    requires k <= |vals| && (best.Some? ==> best.value < k)
    requires forall j :: 0 <= j < k ==> vals[j].Success?
    requires best.None? ==> bsd == baseline && forall j :: 0 <= j < k ==> vals[j].value >= bsd
    requires best.Some? ==>
      && vals[best.value].value == bsd < baseline
      && (forall j :: 0 <= j < k ==> vals[j].value >= bsd)
      && (forall j :: 0 <= j < best.value ==> vals[j].value > bsd)
    ensures var r := Scan(vals, k, bsd, best);
      && (r.Success? <==> AllSucceed(vals))
      && (r == Success(None) ==> NoneBelow(vals, baseline))
      && (r.Success? && r.value.Some? ==> FirstMinimumBelow(vals, baseline, r.value.value))
    decreases |vals| - k
  {
    if k < |vals| && vals[k].Success? {
      if vals[k].value < bsd {
        ScanSound(vals, baseline, k + 1, vals[k].value, Some(k));
      } else {
        ScanSound(vals, baseline, k + 1, bsd, best);
      }
    }
  }

  /** At most one outcome is the first minimum, and there is none when nothing is below the baseline. */
  lemma FirstMinimumUnique(vals: seq<Result<int, Error>>, baseline: int, i: nat, k: nat)
    requires FirstMinimumBelow(vals, baseline, k)
    ensures !NoneBelow(vals, baseline)
    ensures FirstMinimumBelow(vals, baseline, i) ==> i == k
  {
  }

  /** Scanning from the start yields exactly the first minimum below the baseline, or None when there
      is none, or fails when some outcome is an error. */
  lemma ScanExact(vals: seq<Result<int, Error>>, baseline: int)
    ensures Scan(vals, 0, baseline, None).Success? <==> AllSucceed(vals)
    ensures Scan(vals, 0, baseline, None) == Success(None) <==> NoneBelow(vals, baseline)
    ensures forall k: nat :: Scan(vals, 0, baseline, None) == Success(Some(k)) <==> FirstMinimumBelow(vals, baseline, k)
  {
    ScanSound(vals, baseline, 0, baseline, None);
    var r := Scan(vals, 0, baseline, None);
    forall k: nat | FirstMinimumBelow(vals, baseline, k) ensures r == Success(Some(k)) {
      FirstMinimumUnique(vals, baseline, k, k);
      if r.Success? && r.value.Some? {
        FirstMinimumUnique(vals, baseline, r.value.value, k);
      }
    }
    if r.Success? && r.value.Some? {
      FirstMinimumUnique(vals, baseline, r.value.value, r.value.value);
    }
  }

  /** The candidate `manipulate` commits (by its position in the enumeration), None if it commits nothing. */
  function BestResponse(g: Game, declared: Table, studentId: nat): (r: Result<Option<nat>, Error>)
    ensures r.Success? && r.value.Some? ==> r.value.value < |Candidates(g.nTopics)|
  {
    match Realised(g, declared, studentId)
    case Failure(e) => Failure(e)
    case Success(baseline) => Scan(Deviations(g, declared, studentId, Candidates(g.nTopics)), 0, baseline, None)
  }

  /** The lookups behind the trace of manipulate.py:84-89 (before the commit) and 96-101 (after it): the
      solver is run on `declared` and the true dissatisfaction of every student is looked up. The
      `sds` list repeats the lookups of the total, so it raises exactly when the total does. */
  function Trace(g: Game, declared: Table): Outcome<Error>
  {
    match g.solver(g.nStudents, g.nTopics, declared)
    case None => Fail(InfeasibleInstance)
    case Some(assignment) =>
      if TotalDissatisfaction(g.truth, assignment, g.nStudents).Some? then Pass else Fail(MissingPreference)
  }

  /** What a call of `manipulate` leaves behind: the declared table, and whether the call returned or
      raised. */
  datatype Turn = Turn(declared: Table, outcome: Outcome<Error>)

  /** `manipulate(gs, studentId)` on the declared table `declared`. A failure in the search or in the
      trace before the commit leaves the table as it was; a failure in the trace after the commit
      leaves the new table behind. */
  function Step(g: Game, declared: Table, studentId: nat): Turn
  {
    match BestResponse(g, declared, studentId)
    case Failure(e) => Turn(declared, Fail(e))
    case Success(None) => Turn(declared, Pass)
    case Success(Some(k)) =>
      match Trace(g, declared)
      case Fail(e) => Turn(declared, Fail(e))
      case Pass =>
        var next := UpdatedPreferences(declared, Candidates(g.nTopics)[k], studentId);
        Turn(next, Trace(g, next))
  }

  /** The baseline and every candidate can be evaluated. */
  predicate AllEvaluate(g: Game, declared: Table, studentId: nat)
  {
    && Realised(g, declared, studentId).Success?
    && AllSucceed(Deviations(g, declared, studentId, Candidates(g.nTopics)))
  }

  /** No candidate makes `studentId` strictly better off than the current declarations do. */
  predicate NoImprovement(g: Game, declared: Table, studentId: nat)
  {
    && Realised(g, declared, studentId).Success?
    && NoneBelow(Deviations(g, declared, studentId, Candidates(g.nTopics)), Realised(g, declared, studentId).value)
  }

  /** Candidate `k` leaves `studentId` strictly better off than the baseline, no candidate does better,
      and every earlier candidate does strictly worse. */
  predicate IsFirstBest(g: Game, declared: Table, studentId: nat, k: nat)
  {
    && Realised(g, declared, studentId).Success?
    && FirstMinimumBelow(Deviations(g, declared, studentId, Candidates(g.nTopics)), Realised(g, declared, studentId).value, k)
  }

  /** `manipulate` raises exactly when the baseline or some candidate cannot be evaluated. */
  lemma BestResponseFails(g: Game, declared: Table, studentId: nat)
    ensures BestResponse(g, declared, studentId).Failure? <==> !AllEvaluate(g, declared, studentId)
  {
    var b := Realised(g, declared, studentId);
    if b.Success? {
      ScanExact(Deviations(g, declared, studentId, Candidates(g.nTopics)), b.value);
    }
  }

  /** `bpreference` stays None exactly when no candidate is strictly better than the baseline. */
  lemma BestResponseKeeps(g: Game, declared: Table, studentId: nat)
    ensures BestResponse(g, declared, studentId) == Success(None) <==> NoImprovement(g, declared, studentId)
  {
    var b := Realised(g, declared, studentId);
    if b.Success? {
      ScanExact(Deviations(g, declared, studentId, Candidates(g.nTopics)), b.value);
    }
  }

  /** The committed candidate is the first one reaching the minimum, and that minimum is strictly
      below the baseline; conversely such a candidate is what gets committed. */
  lemma BestResponseCommits(g: Game, declared: Table, studentId: nat, k: nat)
    ensures BestResponse(g, declared, studentId) == Success(Some(k)) <==> IsFirstBest(g, declared, studentId, k)
  {
    var b := Realised(g, declared, studentId);
    if b.Success? {
      ScanExact(Deviations(g, declared, studentId, Candidates(g.nTopics)), b.value);
    }
  }

  /** Non-regression: after a successful step the student's true dissatisfaction is no worse; after a
      commit it is strictly better. */
  lemma StepNeverHurts(g: Game, declared: Table, studentId: nat, next: Table)
    requires Step(g, declared, studentId) == Turn(next, Pass)
    ensures Realised(g, next, studentId).Success? && Realised(g, declared, studentId).Success?
    ensures Realised(g, next, studentId).value <= Realised(g, declared, studentId).value
    ensures next != declared ==> Realised(g, next, studentId).value < Realised(g, declared, studentId).value
  {
    var r := BestResponse(g, declared, studentId);
    BestResponseFails(g, declared, studentId);
    if r.value.Some? {
      BestResponseCommits(g, declared, studentId, r.value.value);
    }
  }

  /** Every candidate is defined on exactly the topics `0 .. nTopics-1`. */
  ghost predicate SameTopics(cands: seq<Declaration>, nTopics: nat)
  {
    forall j :: 0 <= j < |cands| ==> forall t :: t in cands[j] <==> 0 <= t < nTopics
  }

  lemma SameTopicsKeys(cands: seq<Declaration>, nTopics: nat, j: nat, k: nat)
    requires SameTopics(cands, nTopics) && j < |cands| && k < |cands|
    ensures cands[j].Keys == cands[k].Keys
  {
    assert forall t :: t in cands[j] <==> t in cands[k];
  }

  lemma CandidatesSameTopics(nTopics: nat)
    ensures SameTopics(Candidates(nTopics), nTopics)
  {
    forall j | 0 <= j < |Candidates(nTopics)| ensures forall t :: t in Candidates(nTopics)[j] <==> 0 <= t < nTopics {
      CandidatesAreRankings(nTopics, j);
    }
  }

  /** After committing candidate `k`, every candidate's deviation is what it was before the commit:
      each candidate overwrites the whole committed row. */
  lemma CommitKeepsDeviations(g: Game, declared: Table, studentId: nat, k: nat)
    requires k < |Candidates(g.nTopics)|
    ensures var cands := Candidates(g.nTopics);
      Deviations(g, UpdatedPreferences(declared, cands[k], studentId), studentId, cands)
      == Deviations(g, declared, studentId, cands)
  {
    var cands := Candidates(g.nTopics);
    var next := UpdatedPreferences(declared, cands[k], studentId);
    CandidatesSameTopics(g.nTopics);
    forall j | 0 <= j < |cands|
      ensures Deviation(g, next, studentId, cands[j]) == Deviation(g, declared, studentId, cands[j])
    {
      SameTopicsKeys(cands, g.nTopics, k, j);
      UpdateOverride(declared, cands[k], cands[j], studentId);
    }
  }

  /** Idempotence: right after `manipulate(gs, studentId)`, whether it returned or raised, a second
      call for the same student, with nothing else changed, commits nothing; it returns when the
      first call returned or changed the table. */
  lemma StepIdempotent(g: Game, declared: Table, studentId: nat)
    ensures var next := Step(g, declared, studentId).declared;
      && Step(g, next, studentId).declared == next
      && (Step(g, declared, studentId).outcome == Pass || next != declared ==> Step(g, next, studentId).outcome == Pass)
  {
    var cands := Candidates(g.nTopics);
    var r := BestResponse(g, declared, studentId);
    BestResponseFails(g, declared, studentId);
    if r.Success? && r.value.Some? && Trace(g, declared).Pass? {
      var k := r.value.value;
      var next := UpdatedPreferences(declared, cands[k], studentId);
      BestResponseCommits(g, declared, studentId, k);
      CommitKeepsDeviations(g, declared, studentId, k);
      assert Realised(g, next, studentId) == Deviation(g, declared, studentId, cands[k]);
      assert NoImprovement(g, next, studentId);
      BestResponseKeeps(g, next, studentId);
    }
  }

  /** `manipulate` raises exactly when the search cannot evaluate everything, or when it commits the
      first best candidate and the trace before or after the commit cannot look up every student. */
  lemma StepFails(g: Game, declared: Table, studentId: nat)
    ensures var cands := Candidates(g.nTopics);
      Step(g, declared, studentId).outcome.Fail? <==>
        || !AllEvaluate(g, declared, studentId)
        || exists k: nat :: k < |cands| && IsFirstBest(g, declared, studentId, k)
             && (Trace(g, declared).Fail? || Trace(g, UpdatedPreferences(declared, cands[k], studentId)).Fail?)
  {
    var r := BestResponse(g, declared, studentId);
    BestResponseFails(g, declared, studentId);
    if r.Success? {
      forall k: nat | IsFirstBest(g, declared, studentId, k) ensures r == Success(Some(k)) {
        BestResponseCommits(g, declared, studentId, k);
      }
      if r.value.Some? {
        BestResponseCommits(g, declared, studentId, r.value.value);
      }
    }
  }

  /** The table changes only by committing the first best candidate, after a trace that passed. */
  lemma StepChanges(g: Game, declared: Table, studentId: nat)
    ensures var cands := Candidates(g.nTopics);
      Step(g, declared, studentId).declared != declared ==>
        exists k: nat :: k < |cands| && IsFirstBest(g, declared, studentId, k) && Trace(g, declared).Pass?
          && Step(g, declared, studentId).declared == UpdatedPreferences(declared, cands[k], studentId)
  {
    var r := BestResponse(g, declared, studentId);
    if r.Success? && r.value.Some? {
      BestResponseCommits(g, declared, studentId, r.value.value);
    }
  }

  /** Every assignment the solver returns places the `nStudents` students on topics `0 .. nTopics-1`. */
  predicate Placed(a: Assignment, nStudents: nat, nTopics: nat)
  {
    nStudents <= |a| && forall i :: 0 <= i < nStudents ==> 0 <= a[i] < nTopics
  }

  /** A game whose true table ranks every (student, topic) pair and whose solver only ever returns
      assignments of the students to existing topics. */
  ghost predicate WellBehaved(g: Game)
  {
    && Complete(g.truth, g.nStudents, g.nTopics)
    && forall declared :: g.solver(g.nStudents, g.nTopics, declared).Some?
         ==> Placed(g.solver(g.nStudents, g.nTopics, declared).value, g.nStudents, g.nTopics)
  }

  /** In a well-behaved game the trace never raises where the search has already run the solver. */
  lemma TraceDefined(g: Game, declared: Table)
    requires WellBehaved(g) && g.solver(g.nStudents, g.nTopics, declared).Some?
    ensures Trace(g, declared) == Pass
  {
    var a := g.solver(g.nStudents, g.nTopics, declared).value;
    TotalDefined(g.truth, a, g.nStudents);
  }

  /** In a well-behaved game `manipulate` raises exactly when the search cannot evaluate everything,
      and therefore never after the commit. */
  lemma StepFailsExactly(g: Game, declared: Table, studentId: nat)
    requires WellBehaved(g)
    ensures Step(g, declared, studentId).outcome.Fail? <==> !AllEvaluate(g, declared, studentId)
    ensures Step(g, declared, studentId).outcome.Fail? ==> Step(g, declared, studentId).declared == declared
  {
    var cands := Candidates(g.nTopics);
    var r := BestResponse(g, declared, studentId);
    BestResponseFails(g, declared, studentId);
    if r.Success? && r.value.Some? {
      var k := r.value.value;
      BestResponseCommits(g, declared, studentId, k);
      TraceDefined(g, declared);
      assert Deviations(g, declared, studentId, cands)[k].Success?;
      TraceDefined(g, UpdatedPreferences(declared, cands[k], studentId));
    }
  }

  // ---------------------------------------------------------------------------
  // The round driver, as a function of the initial table

  /** What one call of `manipulate` does to the declared table, for a given student. */
  type StepFn = (Table, nat) -> Turn

  /** The step of game `g`. */
  function StepOf(g: Game): StepFn
  {
    (declared: Table, studentId: nat) => Step(g, declared, studentId)
  }

  /** One round from student `s` on: students `s .. nStudents-1` take their step in index order,
      and the first step that raises ends the round with the table it left. */
  function RoundFrom(step: StepFn, nStudents: nat, declared: Table, s: nat): Turn
    decreases nStudents - s
  {
    if s >= nStudents then Turn(declared, Pass)
    else
      var t := step(declared, s);
      if t.outcome.Fail? then t else RoundFrom(step, nStudents, t.declared, s + 1)
  }

  /** `rounds` full rounds, ending at the first step that raises. */
  function Play(step: StepFn, nStudents: nat, declared: Table, rounds: nat): Turn
    decreases rounds
  {
    if rounds == 0 then Turn(declared, Pass)
    else
      var t := RoundFrom(step, nStudents, declared, 0);
      if t.outcome.Fail? then t else Play(step, nStudents, t.declared, rounds - 1)
  }

  /** A step either keeps the table or lays candidate `k` over `studentId`'s row. */
  ghost predicate Moves(cands: seq<Declaration>, declared: Table, studentId: nat, next: Table)
  {
    || next == declared
    || exists k :: 0 <= k < |cands| && next == UpdatedPreferences(declared, cands[k], studentId)
  }

  /** Whether `manipulate` returns or raises, the table it leaves is a move over the candidates. */
  lemma StepMoves(g: Game, declared: Table, studentId: nat)
    ensures Moves(Candidates(g.nTopics), declared, studentId, Step(g, declared, studentId).declared)
  {
    var r := BestResponse(g, declared, studentId);
    if r.Success? && r.value.Some? && Trace(g, declared).Pass? {
      assert Step(g, declared, studentId).declared
          == UpdatedPreferences(declared, Candidates(g.nTopics)[r.value.value], studentId);
    }
  }

  /** Every step of `step` for a student `0 .. nStudents-1` leaves a move over `cands`. */
  ghost predicate StepsMove(step: StepFn, cands: seq<Declaration>, nStudents: nat)
  {
    forall declared, studentId: nat :: studentId < nStudents ==> Moves(cands, declared, studentId, step(declared, studentId).declared)
  }

  lemma StepOfMoves(g: Game)
    ensures StepsMove(StepOf(g), Candidates(g.nTopics), g.nStudents)
  {
    forall declared, studentId: nat | studentId < g.nStudents
      ensures Moves(Candidates(g.nTopics), declared, studentId, StepOf(g)(declared, studentId).declared)
    {
      StepMoves(g, declared, studentId);
    }
  }

  /** Student `s`'s row is its row in `initial`, or (for `s` in `0 .. nStudents-1` only) that row
      overwritten by one of `cands`. */
  ghost predicate RowFrom(cands: seq<Declaration>, nStudents: nat, initial: Table, declared: Table, s: int)
  {
    || RowOf(declared, s) == RowOf(initial, s)
    || (0 <= s < nStudents && exists j :: 0 <= j < |cands| && RowOf(declared, s) == RowOf(initial, s) + cands[j])
  }

  /** `RowFrom` for every student. */
  ghost predicate RowsFrom(cands: seq<Declaration>, nStudents: nat, initial: Table, declared: Table)
  {
    forall s :: RowFrom(cands, nStudents, initial, declared, s)
  }

  lemma MoveKeepsRow(cands: seq<Declaration>, nTopics: nat, nStudents: nat, initial: Table, declared: Table,
                     studentId: nat, k: nat, s: int)
    requires SameTopics(cands, nTopics)
    requires studentId < nStudents && k < |cands| && RowFrom(cands, nStudents, initial, declared, s)
    ensures RowFrom(cands, nStudents, initial, UpdatedPreferences(declared, cands[k], studentId), s)
  {
    UpdatedRows(declared, cands[k], studentId, s);
    if s == studentId && RowOf(declared, s) != RowOf(initial, s) {
      var j :| 0 <= j < |cands| && RowOf(declared, s) == RowOf(initial, s) + cands[j];
      SameTopicsKeys(cands, nTopics, j, k);
      OverlayAbsorbs(RowOf(initial, s), cands[j], cands[k]);
    }
  }

  lemma MovesKeepRows(cands: seq<Declaration>, nTopics: nat, nStudents: nat, initial: Table, declared: Table, studentId: nat, next: Table)
    requires SameTopics(cands, nTopics)
    requires studentId < nStudents && RowsFrom(cands, nStudents, initial, declared)
    requires Moves(cands, declared, studentId, next)
    ensures RowsFrom(cands, nStudents, initial, next)
  {
    if next != declared {
      var k :| 0 <= k < |cands| && next == UpdatedPreferences(declared, cands[k], studentId);
      forall s ensures RowFrom(cands, nStudents, initial, next, s) {
        MoveKeepsRow(cands, nTopics, nStudents, initial, declared, studentId, k, s);
      }
    }
  }

  lemma {:induction false} RoundKeepsRows(step: StepFn, cands: seq<Declaration>, nTopics: nat, nStudents: nat,
                                          initial: Table, declared: Table, s: nat)
    requires SameTopics(cands, nTopics) && StepsMove(step, cands, nStudents)
    requires RowsFrom(cands, nStudents, initial, declared)
    ensures RowsFrom(cands, nStudents, initial, RoundFrom(step, nStudents, declared, s).declared)
    decreases nStudents - s
  {
    if s < nStudents {
      var t := step(declared, s);
      assert Moves(cands, declared, s, t.declared);
      MovesKeepRows(cands, nTopics, nStudents, initial, declared, s, t.declared);
      if t.outcome.Pass? {
        RoundKeepsRows(step, cands, nTopics, nStudents, initial, t.declared, s + 1);
        assert RoundFrom(step, nStudents, declared, s) == RoundFrom(step, nStudents, t.declared, s + 1);
      }
    }
  }

  lemma {:induction false} PlayKeepsRowsWith(step: StepFn, cands: seq<Declaration>, nTopics: nat, nStudents: nat,
                                             initial: Table, declared: Table, rounds: nat)
    requires SameTopics(cands, nTopics) && StepsMove(step, cands, nStudents)
    requires RowsFrom(cands, nStudents, initial, declared)
    ensures RowsFrom(cands, nStudents, initial, Play(step, nStudents, declared, rounds).declared)
    decreases rounds
  {
    if rounds > 0 {
      var t := RoundFrom(step, nStudents, declared, 0);
      RoundKeepsRows(step, cands, nTopics, nStudents, initial, declared, 0);
      if t.outcome.Pass? {
        PlayKeepsRowsWith(step, cands, nTopics, nStudents, initial, t.declared, rounds - 1);
      }
    }
  }

  /** Across all rounds of a game, and also when a step raises, each row is the initial one or a
      candidate laid over it. */
  lemma PlayKeepsRows(g: Game, initial: Table, declared: Table, rounds: nat)
    requires RowsFrom(Candidates(g.nTopics), g.nStudents, initial, declared)
    ensures RowsFrom(Candidates(g.nTopics), g.nStudents, initial, Play(StepOf(g), g.nStudents, declared, rounds).declared)
  {
    StepOfMoves(g);
    CandidatesSameTopics(g.nTopics);
    PlayKeepsRowsWith(StepOf(g), Candidates(g.nTopics), g.nTopics, g.nStudents, initial, declared, rounds);
  }

  lemma MovesKeepKeys(cands: seq<Declaration>, nTopics: nat, nStudents: nat, declared: Table, studentId: nat, next: Table)
    requires SameTopics(cands, nTopics)
    requires Complete(declared, nStudents, nTopics) && studentId < nStudents
    requires Moves(cands, declared, studentId, next)
    ensures next.Keys == declared.Keys
  {
    if next != declared {
      var k :| 0 <= k < |cands| && next == UpdatedPreferences(declared, cands[k], studentId);
      UpdateKeepsKeys(declared, cands[k], studentId, nStudents, nTopics);
    }
  }

  lemma {:induction false} RoundKeepsKeys(step: StepFn, cands: seq<Declaration>, nTopics: nat, nStudents: nat,
                                          declared: Table, s: nat)
    requires SameTopics(cands, nTopics) && StepsMove(step, cands, nStudents)
    requires Complete(declared, nStudents, nTopics)
    ensures RoundFrom(step, nStudents, declared, s).declared.Keys == declared.Keys
    decreases nStudents - s
  {
    if s < nStudents {
      var mid := step(declared, s).declared;
      assert Moves(cands, declared, s, mid);
      MovesKeepKeys(cands, nTopics, nStudents, declared, s, mid);
      assert Complete(mid, nStudents, nTopics);
      RoundKeepsKeys(step, cands, nTopics, nStudents, mid, s + 1);
    }
  }

  lemma {:induction false} PlayKeepsKeysWith(step: StepFn, cands: seq<Declaration>, nTopics: nat, nStudents: nat,
                                             declared: Table, rounds: nat)
    requires SameTopics(cands, nTopics) && StepsMove(step, cands, nStudents)
    requires Complete(declared, nStudents, nTopics)
    ensures Play(step, nStudents, declared, rounds).declared.Keys == declared.Keys
    decreases rounds
  {
    if rounds > 0 {
      var next := RoundFrom(step, nStudents, declared, 0).declared;
      RoundKeepsKeys(step, cands, nTopics, nStudents, declared, 0);
      assert Complete(next, nStudents, nTopics);
      PlayKeepsKeysWith(step, cands, nTopics, nStudents, next, rounds - 1);
    }
  }

  /** Starting from a table with an entry for every (student, topic) pair, the key set of the declared
      table never changes, also when a step raises. */
  lemma PlayKeepsKeys(g: Game, declared: Table, rounds: nat)
    requires Complete(declared, g.nStudents, g.nTopics)
    ensures Play(StepOf(g), g.nStudents, declared, rounds).declared.Keys == declared.Keys
  {
    StepOfMoves(g);
    CandidatesSameTopics(g.nTopics);
    PlayKeepsKeysWith(StepOf(g), Candidates(g.nTopics), g.nTopics, g.nStudents, declared, rounds);
  }

  // ---------------------------------------------------------------------------
  // The imperative code

  /** `bpreference` is the candidate at position `bestIndex`, one already scanned, or None. */
  predicate Chosen(cands: seq<Declaration>, k: nat, bestIndex: Option<nat>, bpreference: Option<Declaration>)
  {
    match bestIndex
    case None => bpreference.None?
    case Some(b) => b < k && b < |cands| && bpreference == Some(cands[b])
  }

  /** `Manipulator.manipulate(gs, student_id)`, with the lookups of its trace and without the writes
      of that trace. */
  method Manipulate(gs: GameState, studentId: nat) returns (outcome: Outcome<Error>)
    modifies gs
    ensures Step(gs.AsGame(), old(gs.declared), studentId) == Turn(gs.declared, outcome)
  {
    var g := gs.AsGame();
    var declared := gs.declared;
    var possiblePreferences := Candidates(gs.nTopics);
    var currentAssignment := gs.solver(gs.nStudents, gs.nTopics, declared);
    if currentAssignment.None? {
      return Fail(InfeasibleInstance);
    }
    var baseline := StudentDissatisfaction(gs.truth, currentAssignment.value, studentId);
    if baseline.None? {
      return Fail(MissingPreference);
    }
    var bsd := baseline.value;
    ghost var vals := Deviations(g, declared, studentId, possiblePreferences);
    assert Realised(g, declared, studentId) == Success(bsd);
    var bpreference: Option<Declaration> := None;
    ghost var bestIndex: Option<nat> := None;
    for k := 0 to |possiblePreferences|
      invariant Chosen(possiblePreferences, k, bestIndex, bpreference)
      invariant bestIndex.Some? ==> vals[bestIndex.value] == Success(bsd)
      invariant Scan(vals, k, bsd, bestIndex) == BestResponse(g, declared, studentId)
    {
      var sd := Realised(g, UpdatedPreferences(declared, possiblePreferences[k], studentId), studentId);
      assert vals[k] == sd;
      if sd.Failure? {
        assert BestResponse(g, declared, studentId) == Failure(sd.error);
        return Fail(sd.error);
      }
      if sd.value < bsd {
        bsd := sd.value;
        bpreference := Some(possiblePreferences[k]);
        bestIndex := Some(k);
      }
    }
    assert BestResponse(g, declared, studentId) == Success(bestIndex);
    if bpreference.Some? {
      // the trace before the commit
      currentAssignment := gs.solver(gs.nStudents, gs.nTopics, gs.declared);
      var dissatisfaction := TotalDissatisfaction(gs.truth, currentAssignment.value, gs.nStudents);
      if dissatisfaction.None? {
        return Fail(MissingPreference);
      }
      TotalDefined(gs.truth, currentAssignment.value, gs.nStudents);
      var sds := seq(gs.nStudents, sid requires 0 <= sid < gs.nStudents =>
                       StudentDissatisfaction(gs.truth, currentAssignment.value, sid).value);
      gs.declared := UpdatedPreferences(declared, bpreference.value, studentId);
      // the trace after the commit
      assert vals[bestIndex.value].Success?;
      currentAssignment := gs.solver(gs.nStudents, gs.nTopics, gs.declared);
      dissatisfaction := TotalDissatisfaction(gs.truth, currentAssignment.value, gs.nStudents);
      if dissatisfaction.None? {
        return Fail(MissingPreference);
      }
      TotalDefined(gs.truth, currentAssignment.value, gs.nStudents);
      sds := seq(gs.nStudents, sid requires 0 <= sid < gs.nStudents =>
                   StudentDissatisfaction(gs.truth, currentAssignment.value, sid).value);
    }
    return Pass;
  }

  /** `simulate_game(preferences, n_rounds)` with the solver and the dimensions as parameters: the
      true and the declared tables both start as `preferences`, and students `0 .. nStudents-1`
      manipulate in order, `nRounds` times; a raising call ends the game with the table it left. */
  method SimulateGame(solver: Solver, preferences: Table, nStudents: nat, nTopics: nat, nRounds: nat)
    returns (gs: GameState, outcome: Outcome<Error>)
    ensures fresh(gs) && gs.AsGame() == Game(solver, preferences, nTopics, nStudents)
    ensures Play(StepOf(Game(solver, preferences, nTopics, nStudents)), nStudents, preferences, nRounds)
         == Turn(gs.declared, outcome)
  {
    gs := new GameState(solver, preferences, preferences, nTopics, nStudents);
    ghost var g := gs.AsGame();
    for r := 0 to nRounds
      invariant gs.AsGame() == g
      invariant Play(StepOf(g), nStudents, preferences, nRounds) == Play(StepOf(g), nStudents, gs.declared, nRounds - r)
    {
      ghost var start := gs.declared;
      for sId := 0 to nStudents
        invariant gs.AsGame() == g
        invariant RoundFrom(StepOf(g), nStudents, start, 0) == RoundFrom(StepOf(g), nStudents, gs.declared, sId)
      {
        var o := Manipulate(gs, sId);
        if o.Fail? {
          return gs, o;
        }
      }
    }
    return gs, Pass;
  }
}
