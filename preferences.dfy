/**
 The preference store of manipulate.py: a table from (student, topic) to an
 integer dissatisfaction rank, the per-student and total dissatisfaction of an
 assignment under it, and the pure replacement of one student's row.
 */
module Preferences {
  import opened Wrappers

  /** `dict[tuple[int, int], int]`: the rank of each (student, topic) pair; lower is better. */
  type Table = map<(int, int), int>

  /** One student's row, `dict[int, int]` from topic to rank. */
  type Declaration = map<int, int>

  /** Position `i` holds the topic given to student `i`. */
  type Assignment = seq<int>

  /** The exceptions the modelled Python code can raise, as values. */
  datatype Error =
    | InfeasibleInstance    // the assignment solver gives up on the instance
    | MissingPreference     // a (student, topic) lookup fails (KeyError or IndexError)
    | NoFeasibleAssignment  // `list(None)` after a brute-force search found nothing
    | EmptyMaximum          // `max` over an empty sequence
    | EmptyPreferences      // `max(preferences.values())` of an empty table

  /** `Preferences.student_dissatisfaction`: the rank `prefs` gives to the topic `studentId` is assigned
      (None when the assignment has no position `studentId` or the table has no such pair). */
  function StudentDissatisfaction(prefs: Table, assignment: Assignment, studentId: nat): Option<int>
  {
    if studentId < |assignment| && (studentId, assignment[studentId]) in prefs
    then Some(prefs[(studentId, assignment[studentId])])
    else None
  }

  /** `Preferences.total_dissatisfaction`: the sum of the dissatisfactions of students `0 .. nStudents-1`
      (None as soon as one of those lookups fails). */
  function TotalDissatisfaction(prefs: Table, assignment: Assignment, nStudents: nat): Option<int>
  {
    if nStudents == 0 then Some(0)
    else
      match (TotalDissatisfaction(prefs, assignment, nStudents - 1),
             StudentDissatisfaction(prefs, assignment, nStudents - 1))
      case (Some(rest), Some(last)) => Some(rest + last)
      case _ => None
  }

  /** The total is defined exactly when every one of the `nStudents` lookups succeeds. */
  lemma {:induction false} TotalDefined(prefs: Table, assignment: Assignment, nStudents: nat)
    ensures TotalDissatisfaction(prefs, assignment, nStudents).Some?
        <==> forall i :: 0 <= i < nStudents ==> StudentDissatisfaction(prefs, assignment, i).Some?
  {
    if nStudents > 0 {
      TotalDefined(prefs, assignment, nStudents - 1);
    }
  }

  /** `Preferences.updated_preferences`: the table with `studentId`'s entries for the topics of
      `change` overwritten by `change`; the receiver itself is a value and stays as it was. */
  function UpdatedPreferences(prefs: Table, change: Declaration, studentId: int): Table
  {
    prefs + map t | t in change :: (studentId, t) := change[t]
  }

  /** The updated table has the old pairs plus `studentId`'s pairs for the topics of `change`; those
      carry the new ranks and every other pair keeps its old rank. */
  lemma UpdatedPreferencesSpec(prefs: Table, change: Declaration, studentId: int)
    ensures var r := UpdatedPreferences(prefs, change, studentId);
      && r.Keys == prefs.Keys + (set t | t in change :: (studentId, t))
      && (forall t :: t in change ==> r[(studentId, t)] == change[t])
      && (forall k :: k in prefs && !(k.0 == studentId && k.1 in change) ==> r[k] == prefs[k])
  {
  }

  /** The row of student `s`: topic to rank, for every pair of the table whose student is `s`. */
  function RowOf(prefs: Table, s: int): Declaration
  {
    map k | k in prefs && k.0 == s :: k.1 := prefs[k]
  }

  /** Every pair (s, t) with s < nStudents and t < nTopics has an entry. */
  predicate Complete(prefs: Table, nStudents: nat, nTopics: nat)
  {
    forall s, t :: 0 <= s < nStudents && 0 <= t < nTopics ==> (s, t) in prefs
  }

  /** Row replacement is atomic: the updated student's row is its old row overwritten by the change,
      and every other student's row is exactly what it was. */
  lemma UpdatedRows(prefs: Table, change: Declaration, studentId: int, s: int)
    ensures RowOf(UpdatedPreferences(prefs, change, studentId), s)
         == if s == studentId then RowOf(prefs, s) + change else RowOf(prefs, s)
  {
    UpdatedRowKeys(prefs, change, studentId, s);
    UpdatedRowValues(prefs, change, studentId, s);
  }

  lemma UpdatedRowKeys(prefs: Table, change: Declaration, studentId: int, s: int)
    ensures RowOf(UpdatedPreferences(prefs, change, studentId), s).Keys
         == (if s == studentId then RowOf(prefs, s) + change else RowOf(prefs, s)).Keys
  {
    var u := UpdatedPreferences(prefs, change, studentId);
    var want := if s == studentId then RowOf(prefs, s) + change else RowOf(prefs, s);
    forall t ensures t in RowOf(u, s) <==> t in want {
      assert t in RowOf(u, s) <==> (s, t) in u;
      assert t in RowOf(prefs, s) <==> (s, t) in prefs;
    }
  }

  lemma UpdatedRowValues(prefs: Table, change: Declaration, studentId: int, s: int)
    requires RowOf(UpdatedPreferences(prefs, change, studentId), s).Keys
          == (if s == studentId then RowOf(prefs, s) + change else RowOf(prefs, s)).Keys
    ensures var want := if s == studentId then RowOf(prefs, s) + change else RowOf(prefs, s);
      forall t :: t in want ==> RowOf(UpdatedPreferences(prefs, change, studentId), s)[t] == want[t]
  {
    var u := UpdatedPreferences(prefs, change, studentId);
    var want := if s == studentId then RowOf(prefs, s) + change else RowOf(prefs, s);
    forall t | t in want ensures RowOf(u, s)[t] == want[t] {
      assert (s, t) in u;
      assert t in RowOf(prefs, s) ==> RowOf(prefs, s)[t] == prefs[(s, t)];
    }
  }

  /** Overlaying a row with `c` hides an earlier overlay `b` over the same topics. */
  lemma OverlayAbsorbs(a: Declaration, b: Declaration, c: Declaration)
    requires b.Keys == c.Keys
    ensures (a + b) + c == a + c
  {
  }

  /** A later update of the same student over at least the same topics hides an earlier one. */
  lemma UpdateOverride(prefs: Table, first: Declaration, second: Declaration, studentId: int)
    requires first.Keys <= second.Keys
    ensures UpdatedPreferences(UpdatedPreferences(prefs, first, studentId), second, studentId)
         == UpdatedPreferences(prefs, second, studentId)
  {
  }

  /** Updating a complete table over the topics `0 .. nTopics-1` of a listed student leaves its
      key set alone, and the table stays complete. */
  lemma UpdateKeepsKeys(prefs: Table, change: Declaration, studentId: nat, nStudents: nat, nTopics: nat)
    requires Complete(prefs, nStudents, nTopics) && studentId < nStudents
    requires forall t :: t in change <==> 0 <= t < nTopics
    ensures UpdatedPreferences(prefs, change, studentId).Keys == prefs.Keys
  {
  }
}
