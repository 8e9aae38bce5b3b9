/**
 The three tables as an immutable value, with the constraints the schema of
 `server/models.py` declares: unique exercise names, one association row per
 (workout, exercise) pair, and association rows that reference existing parents.
 */
module Store {
  import opened Models
  import opened Schemas

  /** The database. Exercises and workouts are keyed by id; association rows
      keep their insertion order, which the nested reads follow. Each table
      hands out ids from its own counter, so a new id is never one in use. */
  datatype Db = Db(
    exercises: map<Id, Exercise>,
    workouts: map<Id, Workout>,
    links: seq<WorkoutExercise>,
    nextExerciseId: Id,
    nextWorkoutId: Id,
    nextLinkId: Id)

  const EmptyDb := Db(map[], map[], [], 1, 1, 1)

  /** The parent row an association row hangs off. */
  datatype Parent = OfWorkout(workoutId: Id) | OfExercise(exerciseId: Id)

  predicate RefersTo(l: WorkoutExercise, p: Parent) {
    match p
    case OfWorkout(w) => l.workoutId == w
    case OfExercise(e) => l.exerciseId == e
  }

  /** The rows that reference `p`, in table order (the `workout_exercises`
      relationship of that parent). */
  function RowsOf(links: seq<WorkoutExercise>, p: Parent): (r: seq<WorkoutExercise>)
    ensures forall l :: l in r <==> l in links && RefersTo(l, p)
    ensures |r| <= |links|
  {
    if |links| == 0 then []
    else
      var rest := RowsOf(links[1..], p);
      assert forall l :: l in links <==> l == links[0] || l in links[1..];
      if RefersTo(links[0], p) then [links[0]] + rest else rest
  }

  /** The rows that survive deleting `p`, in table order. */
  function RowsNotOf(links: seq<WorkoutExercise>, p: Parent): (r: seq<WorkoutExercise>)
    ensures forall l :: l in r <==> l in links && !RefersTo(l, p)
    ensures |r| <= |links|
  {
    if |links| == 0 then []
    else
      var rest := RowsNotOf(links[1..], p);
      assert forall l :: l in links <==> l == links[0] || l in links[1..];
      if RefersTo(links[0], p) then rest else [links[0]] + rest
  }

  /** A parent has no rows exactly when no row of the table refers to it. */
  lemma {:induction false} RowsOfEmpty(links: seq<WorkoutExercise>, p: Parent)
    ensures RowsOf(links, p) == [] <==> forall l :: l in links ==> !RefersTo(l, p)
  {
    if |links| > 0 {
      RowsOfEmpty(links[1..], p);
      assert forall l :: l in links <==> l == links[0] || l in links[1..];
    }
  }

  /** Deleting a parent splits the table: every row either goes with the
      parent or stays, none is lost and none is duplicated. */
  lemma {:induction false} RowsPartition(links: seq<WorkoutExercise>, p: Parent)
    ensures |RowsOf(links, p)| + |RowsNotOf(links, p)| == |links|
  {
    if |links| > 0 {
      RowsPartition(links[1..], p);
    }
  }

  /** Taking one parent's rows and dropping another's can be done in either
      order: both keep the table order of what survives. */
  lemma {:induction false} RowsOfRowsNotOf(links: seq<WorkoutExercise>, p: Parent, q: Parent)
    ensures RowsOf(RowsNotOf(links, p), q) == RowsNotOf(RowsOf(links, q), p)
  {
    if |links| > 0 {
      var rest := links[1..];
      RowsOfRowsNotOf(rest, p, q);
      var l := links[0];
      if !RefersTo(l, p) {
        assert ([l] + RowsNotOf(rest, p))[1..] == RowsNotOf(rest, p);
      }
      if RefersTo(l, q) {
        assert ([l] + RowsOf(rest, q))[1..] == RowsOf(rest, q);
      }
    }
  }

  /** Dropping a parent's rows from rows that never refer to it changes nothing. */
  lemma {:induction false} RowsNotOfNone(links: seq<WorkoutExercise>, p: Parent)
    requires forall l :: l in links ==> !RefersTo(l, p)
    ensures RowsNotOf(links, p) == links
  {
    if |links| > 0 {
      assert links[0] in links;
      assert forall l :: l in links[1..] ==> l in links;
      RowsNotOfNone(links[1..], p);
      assert links == [links[0]] + links[1..];
    }
  }

  /** Dropping the rows of `p` leaves the rows of a parent `q` that shares
      none of them as they were, in the same order. */
  lemma RowsOfOtherParent(links: seq<WorkoutExercise>, p: Parent, q: Parent)
    requires forall l :: l in links && RefersTo(l, q) ==> !RefersTo(l, p)
    ensures RowsOf(RowsNotOf(links, p), q) == RowsOf(links, q)
  {
    RowsOfRowsNotOf(links, p, q);
    RowsNotOfNone(RowsOf(links, q), p);
  }

  predicate SamePair(a: WorkoutExercise, b: WorkoutExercise) {
    a.workoutId == b.workoutId && a.exerciseId == b.exerciseId
  }

  /** `UniqueConstraint('workout_id', 'exercise_id')`. */
  predicate PairsUnique(links: seq<WorkoutExercise>) {
    forall i, j :: 0 <= i < j < |links| ==> !SamePair(links[i], links[j])
  }

  /** The primary key of the association table. */
  predicate LinkIdsUnique(links: seq<WorkoutExercise>) {
    forall i, j :: 0 <= i < j < |links| ==> links[i].id != links[j].id
  }

  /** Whether a row for the pair (w, e) exists. */
  predicate HasPair(links: seq<WorkoutExercise>, w: Id, e: Id) {
    exists i :: 0 <= i < |links| && links[i].workoutId == w && links[i].exerciseId == e
  }

  /** The number of rows for the pair (w, e). */
  function PairCount(links: seq<WorkoutExercise>, w: Id, e: Id): nat {
    if |links| == 0 then 0
    else (if links[0].workoutId == w && links[0].exerciseId == e then 1 else 0)
         + PairCount(links[1..], w, e)
  }

  /** Under the unique constraint a pair has one row if it has any, and none otherwise. */
  lemma {:induction false} PairCountUnique(links: seq<WorkoutExercise>, w: Id, e: Id)
    requires PairsUnique(links)
    ensures PairCount(links, w, e) == if HasPair(links, w, e) then 1 else 0
  {
    if |links| > 0 {
      var rest := links[1..];
      assert PairsUnique(rest) by {
        forall i, j | 0 <= i < j < |rest| ensures !SamePair(rest[i], rest[j]) {
          assert rest[i] == links[i + 1] && rest[j] == links[j + 1];
        }
      }
      PairCountUnique(rest, w, e);
      if links[0].workoutId == w && links[0].exerciseId == e {
        forall j | 0 <= j < |rest| ensures !(rest[j].workoutId == w && rest[j].exerciseId == e) {
          assert rest[j] == links[j + 1] && !SamePair(links[0], links[j + 1]);
        }
      } else {
        assert HasPair(links, w, e) ==> HasPair(rest, w, e) by {
          if HasPair(links, w, e) {
            var i :| 0 <= i < |links| && links[i].workoutId == w && links[i].exerciseId == e;
            assert rest[i - 1] == links[i];
          }
        }
        assert HasPair(rest, w, e) ==> HasPair(links, w, e) by {
          if HasPair(rest, w, e) {
            var i :| 0 <= i < |rest| && rest[i].workoutId == w && rest[i].exerciseId == e;
            assert links[i + 1] == rest[i];
          }
        }
      }
    }
  }

  /** Prepending a row keeps pairs unique exactly when its pair is new. */
  lemma ConsPairsUnique(x: WorkoutExercise, t: seq<WorkoutExercise>)
    ensures PairsUnique([x] + t) <==> PairsUnique(t) && forall y :: y in t ==> !SamePair(x, y)
  {
    var s := [x] + t;
    assert forall i :: 0 <= i < |t| ==> s[i + 1] == t[i];
    if PairsUnique(t) && forall y :: y in t ==> !SamePair(x, y) {
      forall i, j | 0 <= i < j < |s| ensures !SamePair(s[i], s[j]) {
        if i > 0 { assert s[i] == t[i - 1] && s[j] == t[j - 1]; }
        else { assert s[j] in t; }
      }
    }
    if PairsUnique(s) {
      forall y | y in t ensures !SamePair(x, y) {
        var j :| 0 <= j < |t| && t[j] == y;
        assert s[0] == x && s[j + 1] == y;
      }
    }
  }

  /** Prepending a row keeps ids unique exactly when its id is new. */
  lemma ConsIdsUnique(x: WorkoutExercise, t: seq<WorkoutExercise>)
    ensures LinkIdsUnique([x] + t) <==> LinkIdsUnique(t) && forall y :: y in t ==> x.id != y.id
  {
    var s := [x] + t;
    assert forall i :: 0 <= i < |t| ==> s[i + 1] == t[i];
    if LinkIdsUnique(t) && forall y :: y in t ==> x.id != y.id {
      forall i, j | 0 <= i < j < |s| ensures s[i].id != s[j].id {
        if i > 0 { assert s[i] == t[i - 1] && s[j] == t[j - 1]; }
        else { assert s[j] in t; }
      }
    }
    if LinkIdsUnique(s) {
      forall y | y in t ensures x.id != y.id {
        var j :| 0 <= j < |t| && t[j] == y;
        assert s[0] == x && s[j + 1] == y;
      }
    }
  }

  /** Removing the rows of a parent keeps pair and id uniqueness. */
  lemma {:induction false} RowsNotOfKeepsUnique(links: seq<WorkoutExercise>, p: Parent)
    requires PairsUnique(links) && LinkIdsUnique(links)
    ensures PairsUnique(RowsNotOf(links, p)) && LinkIdsUnique(RowsNotOf(links, p))
  {
    if |links| > 0 {
      var rest := links[1..];
      assert links == [links[0]] + rest;
      ConsPairsUnique(links[0], rest);
      ConsIdsUnique(links[0], rest);
      RowsNotOfKeepsUnique(rest, p);
      if !RefersTo(links[0], p) {
        ConsPairsUnique(links[0], RowsNotOf(rest, p));
        ConsIdsUnique(links[0], RowsNotOf(rest, p));
      }
    }
  }

  /** The rows of one parent carry distinct ids. */
  lemma {:induction false} RowsOfKeepsUnique(links: seq<WorkoutExercise>, p: Parent)
    requires LinkIdsUnique(links) && PairsUnique(links)
    ensures LinkIdsUnique(RowsOf(links, p)) && PairsUnique(RowsOf(links, p))
  {
    if |links| > 0 {
      var rest := links[1..];
      assert links == [links[0]] + rest;
      ConsPairsUnique(links[0], rest);
      ConsIdsUnique(links[0], rest);
      RowsOfKeepsUnique(rest, p);
      if RefersTo(links[0], p) {
        ConsPairsUnique(links[0], RowsOf(rest, p));
        ConsIdsUnique(links[0], RowsOf(rest, p));
      }
    }
  }

  /** A row appended to the table is appended to its parents' rows and
      leaves every other parent's rows as they were. */
  lemma {:induction false} RowsOfAppend(links: seq<WorkoutExercise>, x: WorkoutExercise, p: Parent)
    ensures RowsOf(links + [x], p) == RowsOf(links, p) + (if RefersTo(x, p) then [x] else [])
  {
    if |links| == 0 {
      assert links + [x] == [x];
    } else {
      assert (links + [x])[1..] == links[1..] + [x];
      RowsOfAppend(links[1..], x, p);
    }
  }

  /** Appending a row whose pair and id are new keeps pairs and ids unique. */
  lemma AppendUnique(links: seq<WorkoutExercise>, x: WorkoutExercise)
    requires PairsUnique(links) && LinkIdsUnique(links)
    requires forall l :: l in links ==> !SamePair(l, x) && l.id != x.id
    ensures PairsUnique(links + [x]) && LinkIdsUnique(links + [x])
  {
    var s := links + [x];
    forall i, j | 0 <= i < j < |s| ensures !SamePair(s[i], s[j]) && s[i].id != s[j].id {
      if j == |links| { assert s[i] == links[i] && s[i] in links; }
      else { assert s[i] == links[i] && s[j] == links[j]; }
    }
  }

  /** Every association row references an existing workout and exercise. */
  ghost predicate Referential(db: Db) {
    forall l :: l in db.links ==> l.workoutId in db.workouts && l.exerciseId in db.exercises
  }

  /** `exercises.name` is `unique=True`. */
  ghost predicate NamesUnique(db: Db) {
    forall a, b :: a in db.exercises && b in db.exercises && a != b ==>
      db.exercises[a].name != db.exercises[b].name
  }

  /** Every id in use lies below its table's counter. */
  ghost predicate IdsBelowCounters(db: Db) {
    && (forall id :: id in db.exercises ==> id < db.nextExerciseId)
    && (forall id :: id in db.workouts ==> id < db.nextWorkoutId)
    && (forall l :: l in db.links ==> l.id < db.nextLinkId)
  }

  /** The per-pairing numbers a stored row carries lie in the request ranges. */
  predicate LinkWellFormed(l: WorkoutExercise) {
    RepsAccepted(l.reps) && SetsAccepted(l.sets) && DurationSecondsAccepted(l.durationSeconds)
  }

  /** Every stored row has passed the checks of its layer. */
  ghost predicate RowsWellFormed(db: Db) {
    && (forall id :: id in db.exercises ==> ExerciseWellFormed(db.exercises[id]))
    && (forall id :: id in db.workouts ==> WorkoutWellFormed(db.workouts[id]))
    && (forall l :: l in db.links ==> LinkWellFormed(l))
  }

  /** The invariant every reachable database keeps. */
  ghost predicate Valid(db: Db) {
    && PairsUnique(db.links)
    && LinkIdsUnique(db.links)
    && Referential(db)
    && NamesUnique(db)
    && IdsBelowCounters(db)
    && RowsWellFormed(db)
  }

  // ------------------------------------------------------------ transitions

  /** Inserting a well-formed exercise under the next id with a name no
      stored exercise has keeps the invariant. */
  lemma InsertExerciseKeepsValid(db: Db, x: Exercise)
    requires Valid(db)
    requires ExerciseWellFormed(x)
    requires forall id :: id in db.exercises ==> db.exercises[id].name != x.name
    ensures Valid(db.(exercises := db.exercises[db.nextExerciseId := x], nextExerciseId := db.nextExerciseId + 1))
  {
    var db1 := db.(exercises := db.exercises[db.nextExerciseId := x], nextExerciseId := db.nextExerciseId + 1);
    assert db.nextExerciseId !in db.exercises;
    assert Referential(db1) by {
      forall l | l in db1.links ensures l.workoutId in db1.workouts && l.exerciseId in db1.exercises {
        assert l in db.links;
      }
    }
    assert NamesUnique(db1) by {
      forall a, b | a in db1.exercises && b in db1.exercises && a != b
        ensures db1.exercises[a].name != db1.exercises[b].name
      {
        if a == db.nextExerciseId { assert b in db.exercises; }
        else if b == db.nextExerciseId { assert a in db.exercises; }
      }
    }
    assert RowsWellFormed(db1) by {
      forall id | id in db1.exercises ensures ExerciseWellFormed(db1.exercises[id]) {
        if id != db.nextExerciseId { assert id in db.exercises; }
      }
    }
  }

  /** Inserting a well-formed workout under the next id keeps the invariant. */
  lemma InsertWorkoutKeepsValid(db: Db, x: Workout)
    requires Valid(db)
    requires WorkoutWellFormed(x)
    ensures Valid(db.(workouts := db.workouts[db.nextWorkoutId := x], nextWorkoutId := db.nextWorkoutId + 1))
  {
    var db1 := db.(workouts := db.workouts[db.nextWorkoutId := x], nextWorkoutId := db.nextWorkoutId + 1);
    assert db.nextWorkoutId !in db.workouts;
    assert Referential(db1) by {
      forall l | l in db1.links ensures l.workoutId in db1.workouts && l.exerciseId in db1.exercises {
        assert l in db.links;
      }
    }
    assert RowsWellFormed(db1) by {
      forall id | id in db1.workouts ensures WorkoutWellFormed(db1.workouts[id]) {
        if id != db.nextWorkoutId { assert id in db.workouts; }
      }
    }
  }

  /** Appending a well-formed row for a new pair of existing parents, under
      the next id, keeps the invariant. */
  lemma AppendLinkKeepsValid(db: Db, x: WorkoutExercise)
    requires Valid(db)
    requires x.id == db.nextLinkId
    requires x.workoutId in db.workouts && x.exerciseId in db.exercises
    requires !HasPair(db.links, x.workoutId, x.exerciseId)
    requires LinkWellFormed(x)
    ensures Valid(db.(links := db.links + [x], nextLinkId := x.id + 1))
  {
    var db1 := db.(links := db.links + [x], nextLinkId := x.id + 1);
    forall l | l in db.links ensures !SamePair(l, x) && l.id != x.id {
      var i :| 0 <= i < |db.links| && db.links[i] == l;
    }
    AppendUnique(db.links, x);
    assert Referential(db1) by {
      forall l | l in db1.links ensures l.workoutId in db1.workouts && l.exerciseId in db1.exercises {
        if l != x { assert l in db.links; }
      }
    }
    assert IdsBelowCounters(db1) by {
      forall l | l in db1.links ensures l.id < db1.nextLinkId {
        if l != x { assert l in db.links; }
      }
    }
    assert RowsWellFormed(db1) by {
      forall l | l in db1.links ensures LinkWellFormed(l) {
        if l != x { assert l in db.links; }
      }
    }
  }

  /** Removing a workout together with its rows keeps the invariant. */
  lemma RemoveWorkoutKeepsValid(db: Db, w: Id)
    requires Valid(db)
    ensures Valid(db.(workouts := db.workouts - {w}, links := RowsNotOf(db.links, OfWorkout(w))))
  {
    var db1 := db.(workouts := db.workouts - {w}, links := RowsNotOf(db.links, OfWorkout(w)));
    RowsNotOfKeepsUnique(db.links, OfWorkout(w));
    assert Referential(db1) by {
      forall l | l in db1.links ensures l.workoutId in db1.workouts && l.exerciseId in db1.exercises {
        assert l in db.links;
      }
    }
    assert IdsBelowCounters(db1) by {
      forall l | l in db1.links ensures l.id < db1.nextLinkId { assert l in db.links; }
    }
    assert RowsWellFormed(db1) by {
      forall l | l in db1.links ensures LinkWellFormed(l) { assert l in db.links; }
    }
  }

  /** Removing an exercise together with its rows keeps the invariant. */
  lemma RemoveExerciseKeepsValid(db: Db, e: Id)
    requires Valid(db)
    ensures Valid(db.(exercises := db.exercises - {e}, links := RowsNotOf(db.links, OfExercise(e))))
  {
    var db1 := db.(exercises := db.exercises - {e}, links := RowsNotOf(db.links, OfExercise(e)));
    RowsNotOfKeepsUnique(db.links, OfExercise(e));
    assert Referential(db1) by {
      forall l | l in db1.links ensures l.workoutId in db1.workouts && l.exerciseId in db1.exercises {
        assert l in db.links;
      }
    }
    assert NamesUnique(db1) by {
      forall a, b | a in db1.exercises && b in db1.exercises && a != b
        ensures db1.exercises[a].name != db1.exercises[b].name
      {
        assert a in db.exercises && b in db.exercises;
      }
    }
    assert IdsBelowCounters(db1) by {
      forall l | l in db1.links ensures l.id < db1.nextLinkId { assert l in db.links; }
    }
    assert RowsWellFormed(db1) by {
      forall l | l in db1.links ensures LinkWellFormed(l) { assert l in db.links; }
    }
  }

  lemma EmptyDbValid()
    ensures Valid(EmptyDb)
  {
  }
}
