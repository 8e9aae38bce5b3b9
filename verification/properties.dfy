/**
 Properties that relate several endpoint calls: every write keeps the
 database invariant, the unique constraints decide repeated writes, deletes
 cascade, and the nested reads reflect the association table.
 */
module ApiProperties {
  import Wrappers
  import opened Text
  import opened Calendar
  import opened Models
  import opened Schemas
  import opened Store
  import opened Api

  /** A successful create inserts a well-formed exercise under the next id
      with a name not yet in use; every other outcome leaves the database. */
  lemma CreateExercisePreservesValid(db: Db, p: ExercisePayload)
    requires Valid(db)
    ensures Valid(CreateExercise(db, p).db)
  {
    var r := CreateExercise(db, p);
    if r.outcome.Ok? {
      var e := r.outcome.value;
      var x := Exercise(e.name, e.category, e.equipmentNeeded);
      assert r.db == db.(exercises := db.exercises[db.nextExerciseId := x], nextExerciseId := db.nextExerciseId + 1);
      InsertExerciseKeepsValid(db, x);
    }
  }

  lemma CreateWorkoutPreservesValid(db: Db, p: WorkoutPayload, today: Date)
    requires Valid(db)
    ensures Valid(CreateWorkout(db, p, today).db)
  {
    var r := CreateWorkout(db, p, today);
    if r.outcome.Ok? {
      var w := r.outcome.value;
      InsertWorkoutKeepsValid(db, Workout(w.date, w.durationMinutes, w.notes));
    }
  }

  lemma AttachPreservesValid(db: Db, w: Id, e: Id, body: LinkPayload)
    requires Valid(db)
    ensures Valid(AttachExercise(db, w, e, body).db)
  {
    var r := AttachExercise(db, w, e, body);
    if r.outcome.Ok? {
      AppendLinkKeepsValid(db, r.outcome.value);
    }
  }

  lemma DeleteWorkoutPreservesValid(db: Db, w: Id)
    requires Valid(db)
    ensures Valid(DeleteWorkout(db, w).db)
  {
    if w in db.workouts {
      RemoveWorkoutKeepsValid(db, w);
    }
  }

  lemma DeleteExercisePreservesValid(db: Db, e: Id)
    requires Valid(db)
    ensures Valid(DeleteExercise(db, e).db)
  {
    if e in db.exercises {
      RemoveExerciseKeepsValid(db, e);
    }
  }

  /** The writes a client can issue. */
  datatype Request =
    | PostExercise(exercise: ExercisePayload)
    | PostWorkout(workout: WorkoutPayload, today: Date)
    | PostLink(workoutId: Id, exerciseId: Id, body: LinkPayload)
    | RemoveWorkout(workoutId: Id)
    | RemoveExercise(exerciseId: Id)

  function Apply(db: Db, req: Request): Db {
    match req
    case PostExercise(p) => CreateExercise(db, p).db
    case PostWorkout(p, today) => CreateWorkout(db, p, today).db
    case PostLink(w, e, body) => AttachExercise(db, w, e, body).db
    case RemoveWorkout(w) => DeleteWorkout(db, w).db
    case RemoveExercise(e) => DeleteExercise(db, e).db
  }

  function Run(db: Db, reqs: seq<Request>): Db
    decreases |reqs|
  {
    if |reqs| == 0 then db else Run(Apply(db, reqs[0]), reqs[1..])
  }

  /** Whatever writes are issued, in whatever order, starting from the empty
      database: pairs stay unique, rows reference existing parents, exercise
      names stay distinct and every stored row is well formed. */
  lemma {:induction false} RunPreservesValid(db: Db, reqs: seq<Request>)
    requires Valid(db)
    ensures Valid(Run(db, reqs))
    decreases |reqs|
  {
    if |reqs| > 0 {
      match reqs[0] {
        case PostExercise(p) => CreateExercisePreservesValid(db, p);
        case PostWorkout(p, today) => CreateWorkoutPreservesValid(db, p, today);
        case PostLink(w, e, body) => AttachPreservesValid(db, w, e, body);
        case RemoveWorkout(w) => DeleteWorkoutPreservesValid(db, w);
        case RemoveExercise(e) => DeleteExercisePreservesValid(db, e);
      }
      RunPreservesValid(Apply(db, reqs[0]), reqs[1..]);
    }
  }

  lemma ReachableIsValid(reqs: seq<Request>)
    ensures Valid(Run(EmptyDb, reqs))
  {
    EmptyDbValid();
    RunPreservesValid(EmptyDb, reqs);
  }

  /** Attaching a pair a second time answers 409, changes nothing, and the
      pair keeps exactly one row. */
  lemma AttachTwiceConflicts(db: Db, w: Id, e: Id, first: LinkPayload, second: LinkPayload)
    requires Valid(db)
    requires AttachExercise(db, w, e, first).outcome.Ok?
    ensures var db1 := AttachExercise(db, w, e, first).db;
            && AttachExercise(db1, w, e, second).outcome == Conflict(AlreadyAdded)
            && AttachExercise(db1, w, e, second).db == db1
            && PairCount(db1.links, w, e) == 1
  {
    var db1 := AttachExercise(db, w, e, first).db;
    AttachPreservesValid(db, w, e, first);
    var n := |db.links|;
    assert db1.links[n].workoutId == w && db1.links[n].exerciseId == e;
    assert HasPair(db1.links, w, e);
    PairCountUnique(db1.links, w, e);
  }

  /** Deleting a workout removes exactly its rows: afterwards no row references
      it, the table shrinks by the number of rows it had, every exercise is
      still there, and reading it answers 404. */
  lemma DeleteWorkoutCascades(db: Db, w: Id)
    requires Valid(db) && w in db.workouts
    ensures var db1 := DeleteWorkout(db, w).db;
            && RowsOf(db1.links, OfWorkout(w)) == []
            && |db1.links| == |db.links| - |RowsOf(db.links, OfWorkout(w))|
            && db1.exercises == db.exercises
            && GetWorkout(db1, w) == NotFound(WorkoutNotFound)
  {
    var db1 := DeleteWorkout(db, w).db;
    DeleteWorkoutPreservesValid(db, w);
    RowsPartition(db.links, OfWorkout(w));
    RowsOfEmpty(db1.links, OfWorkout(w));
  }

  /** Deleting an exercise removes exactly its rows and keeps every workout;
      the exercise then appears in no workout's nested list. */
  lemma DeleteExerciseCascades(db: Db, e: Id)
    requires Valid(db) && e in db.exercises
    ensures var db1 := DeleteExercise(db, e).db;
            && RowsOf(db1.links, OfExercise(e)) == []
            && |db1.links| == |db.links| - |RowsOf(db.links, OfExercise(e))|
            && db1.workouts == db.workouts
            && GetExercise(db1, e) == NotFound(ExerciseNotFound)
            && forall w :: w in db1.workouts ==>
                 forall k :: 0 <= k < |GetWorkout(db1, w).value.entries| ==>
                   GetWorkout(db1, w).value.entries[k].exercise.id != e
  {
    var db1 := DeleteExercise(db, e).db;
    DeleteExercisePreservesValid(db, e);
    RowsPartition(db.links, OfExercise(e));
    RowsOfEmpty(db1.links, OfExercise(e));
    forall w | w in db1.workouts
      ensures forall k :: 0 <= k < |GetWorkout(db1, w).value.entries| ==>
                GetWorkout(db1, w).value.entries[k].exercise.id != e
    {
      var rows := RowsOf(db1.links, OfWorkout(w));
      forall k | 0 <= k < |rows| ensures rows[k].exerciseId != e {
        assert rows[k] in rows;
      }
    }
  }

  /** A nested list with the entries showing exercise `e` taken out, in order. */
  function EntriesWithout(xs: seq<EntryOut>, e: Id): seq<EntryOut> {
    if xs == [] then []
    else if xs[0].exercise.id == e then EntriesWithout(xs[1..], e)
    else [xs[0]] + EntriesWithout(xs[1..], e)
  }

  /** A list of exercises with exercise `e` taken out, in order. */
  function ExercisesWithout(xs: seq<ExerciseOut>, e: Id): seq<ExerciseOut> {
    if xs == [] then []
    else if xs[0].id == e then ExercisesWithout(xs[1..], e)
    else [xs[0]] + ExercisesWithout(xs[1..], e)
  }

  /** A list of workouts with workout `w` taken out, in order. */
  function WorkoutsWithout(xs: seq<WorkoutOut>, w: Id): seq<WorkoutOut> {
    if xs == [] then []
    else if xs[0].id == w then WorkoutsWithout(xs[1..], w)
    else [xs[0]] + WorkoutsWithout(xs[1..], w)
  }

  /** Dropping an exercise's rows and then showing the rest gives the old
      lists with that exercise taken out, in the same order. */
  lemma {:induction false} ShowRowsWithoutExercise(db: Db, db1: Db, rows: seq<WorkoutExercise>, e: Id)
    requires forall l :: l in rows ==> l.exerciseId in db.exercises
    requires db1.exercises == db.exercises - {e}
    ensures forall l :: l in RowsNotOf(rows, OfExercise(e)) ==> l.exerciseId in db1.exercises
    ensures EntriesOf(db1, RowsNotOf(rows, OfExercise(e))) == EntriesWithout(EntriesOf(db, rows), e)
    ensures ExercisesOf(db1, RowsNotOf(rows, OfExercise(e))) == ExercisesWithout(ExercisesOf(db, rows), e)
  {
    if rows != [] {
      var l := rows[0];
      var rest := rows[1..];
      assert l in rows;
      assert forall x :: x in rest ==> x in rows;
      ShowRowsWithoutExercise(db, db1, rest, e);
      assert EntriesOf(db, rows)[1..] == EntriesOf(db, rest);
      assert ExercisesOf(db, rows)[1..] == ExercisesOf(db, rest);
      if l.exerciseId != e {
        var kept := RowsNotOf(rest, OfExercise(e));
        assert DumpExercise(db1, l.exerciseId) == DumpExercise(db, l.exerciseId);
        assert ([l] + kept)[1..] == kept;
      }
    }
  }

  /** Dropping a workout's rows and then showing the rest gives the old list
      with that workout taken out, in the same order. */
  lemma {:induction false} ShowRowsWithoutWorkout(db: Db, db1: Db, rows: seq<WorkoutExercise>, w: Id)
    requires forall l :: l in rows ==> l.workoutId in db.workouts
    requires db1.workouts == db.workouts - {w}
    ensures forall l :: l in RowsNotOf(rows, OfWorkout(w)) ==> l.workoutId in db1.workouts
    ensures WorkoutsOf(db1, RowsNotOf(rows, OfWorkout(w))) == WorkoutsWithout(WorkoutsOf(db, rows), w)
  {
    if rows != [] {
      var l := rows[0];
      var rest := rows[1..];
      assert l in rows;
      assert forall x :: x in rest ==> x in rows;
      ShowRowsWithoutWorkout(db, db1, rest, w);
      assert WorkoutsOf(db, rows)[1..] == WorkoutsOf(db, rest);
      if l.workoutId != w {
        var kept := RowsNotOf(rest, OfWorkout(w));
        assert DumpWorkout(db1, l.workoutId) == DumpWorkout(db, l.workoutId);
        assert ([l] + kept)[1..] == kept;
      }
    }
  }

  /** The lists shown for some rows depend only on the table they look up. */
  lemma ShowRowsSameTable(db: Db, db1: Db, rows: seq<WorkoutExercise>)
    ensures db1.exercises == db.exercises && (forall l :: l in rows ==> l.exerciseId in db.exercises) ==>
              EntriesOf(db1, rows) == EntriesOf(db, rows) && ExercisesOf(db1, rows) == ExercisesOf(db, rows)
    ensures db1.workouts == db.workouts && (forall l :: l in rows ==> l.workoutId in db.workouts) ==>
              WorkoutsOf(db1, rows) == WorkoutsOf(db, rows)
  {
    if db1.exercises == db.exercises && (forall l :: l in rows ==> l.exerciseId in db.exercises) {
      assert EntriesOf(db1, rows) == EntriesOf(db, rows);
      assert ExercisesOf(db1, rows) == ExercisesOf(db, rows);
    }
    if db1.workouts == db.workouts && (forall l :: l in rows ==> l.workoutId in db.workouts) {
      assert WorkoutsOf(db1, rows) == WorkoutsOf(db, rows);
    }
  }

  /** Deleting a workout leaves what every other workout reads exactly as it
      was, the order of its nested lists included. */
  lemma DeleteWorkoutKeepsOtherWorkouts(db: Db, w: Id, w2: Id)
    requires Valid(db) && w in db.workouts
    requires w2 in db.workouts && w2 != w
    ensures GetWorkout(DeleteWorkout(db, w).db, w2) == GetWorkout(db, w2)
  {
    var db1 := DeleteWorkout(db, w).db;
    RowsOfOtherParent(db.links, OfWorkout(w), OfWorkout(w2));
    ShowRowsSameTable(db, db1, RowsOf(db.links, OfWorkout(w2)));
  }

  /** Deleting a workout takes it out of every exercise's list of workouts and
      keeps the order of the others. */
  lemma DeleteWorkoutFiltersExercises(db: Db, w: Id, e: Id)
    requires Valid(db) && w in db.workouts && e in db.exercises
    ensures var before := GetExercise(db, e).value;
            var after := GetExercise(DeleteWorkout(db, w).db, e).value;
            && after.exercise == before.exercise
            && after.workouts == WorkoutsWithout(before.workouts, w)
  {
    var db1 := DeleteWorkout(db, w).db;
    var rows := RowsOf(db.links, OfExercise(e));
    RowsOfRowsNotOf(db.links, OfWorkout(w), OfExercise(e));
    ShowRowsWithoutWorkout(db, db1, rows, w);
  }

  /** Deleting an exercise leaves what every other exercise reads exactly as
      it was, the order of its workouts included. */
  lemma DeleteExerciseKeepsOtherExercises(db: Db, e: Id, e2: Id)
    requires Valid(db) && e in db.exercises
    requires e2 in db.exercises && e2 != e
    ensures GetExercise(DeleteExercise(db, e).db, e2) == GetExercise(db, e2)
  {
    var db1 := DeleteExercise(db, e).db;
    RowsOfOtherParent(db.links, OfExercise(e), OfExercise(e2));
    ShowRowsSameTable(db, db1, RowsOf(db.links, OfExercise(e2)));
  }

  /** Deleting an exercise takes its entries out of every workout's nested
      lists and keeps the order of the others. */
  lemma DeleteExerciseFiltersWorkouts(db: Db, e: Id, w: Id)
    requires Valid(db) && e in db.exercises && w in db.workouts
    ensures var before := GetWorkout(db, w).value;
            var after := GetWorkout(DeleteExercise(db, e).db, w).value;
            && after.workout == before.workout
            && after.entries == EntriesWithout(before.entries, e)
            && after.exercises == ExercisesWithout(before.exercises, e)
  {
    var db1 := DeleteExercise(db, e).db;
    var rows := RowsOf(db.links, OfWorkout(w));
    RowsOfRowsNotOf(db.links, OfExercise(e), OfWorkout(w));
    ShowRowsWithoutExercise(db, db1, rows, e);
  }

  /** Every row of the workout shows up in its nested list. */
  lemma GetWorkoutListsEveryRow(db: Db, w: Id, l: WorkoutExercise)
    requires Valid(db) && w in db.workouts
    requires l in db.links && l.workoutId == w
    ensures var d := GetWorkout(db, w).value;
            exists k :: 0 <= k < |d.entries| && d.entries[k].id == l.id
  {
    var rows := RowsOf(db.links, OfWorkout(w));
    assert l in rows;
    var k :| 0 <= k < |rows| && rows[k] == l;
    assert GetWorkout(db, w).value.entries[k].id == l.id;
  }

  /** No row shows up twice: the entries carry distinct row ids. */
  lemma GetWorkoutEntriesDistinct(db: Db, w: Id)
    requires Valid(db) && w in db.workouts
    ensures var d := GetWorkout(db, w).value;
            forall k, j :: 0 <= k < j < |d.entries| ==> d.entries[k].id != d.entries[j].id
  {
    RowsOfKeepsUnique(db.links, OfWorkout(w));
  }

  /** Every entry is a row of the workout, shown with that row's exercise. */
  lemma GetWorkoutEntryIsRow(db: Db, w: Id, k: int)
    requires Valid(db) && w in db.workouts
    requires 0 <= k < |GetWorkout(db, w).value.entries|
    ensures var x := GetWorkout(db, w).value.entries[k];
            exists l :: l in db.links && l.workoutId == w && l.id == x.id && x.exercise.id == l.exerciseId
  {
    var rows := RowsOf(db.links, OfWorkout(w));
    assert rows[k] in rows;
  }

  /** Every workout holding the exercise is listed in its nested list. */
  lemma GetExerciseListsEveryWorkout(db: Db, e: Id, l: WorkoutExercise)
    requires Valid(db) && e in db.exercises
    requires l in db.links && l.exerciseId == e
    ensures var d := GetExercise(db, e).value;
            exists k :: 0 <= k < |d.workouts| && d.workouts[k].id == l.workoutId
  {
    var rows := RowsOf(db.links, OfExercise(e));
    assert l in rows;
    var k :| 0 <= k < |rows| && rows[k] == l;
    assert GetExercise(db, e).value.workouts[k].id == l.workoutId;
  }

  /** No workout is listed twice under one exercise: the pair constraint
      allows one row per workout and exercise. */
  lemma GetExerciseWorkoutsDistinct(db: Db, e: Id)
    requires Valid(db) && e in db.exercises
    ensures var d := GetExercise(db, e).value;
            forall k, j :: 0 <= k < j < |d.workouts| ==> d.workouts[k].id != d.workouts[j].id
  {
    var rows := RowsOf(db.links, OfExercise(e));
    RowsOfKeepsUnique(db.links, OfExercise(e));
    forall k, j | 0 <= k < j < |rows|
      ensures rows[k].workoutId != rows[j].workoutId
    {
      assert rows[k] in rows && rows[j] in rows;
      assert !SamePair(rows[k], rows[j]);
    }
  }

  /** Every listed workout holds the exercise. */
  lemma GetExerciseWorkoutIsRow(db: Db, e: Id, k: int)
    requires Valid(db) && e in db.exercises
    requires 0 <= k < |GetExercise(db, e).value.workouts|
    ensures var x := GetExercise(db, e).value.workouts[k];
            exists l :: l in db.links && l.exerciseId == e && l.workoutId == x.id
  {
    var rows := RowsOf(db.links, OfExercise(e));
    assert rows[k] in rows;
  }

  /** A successful attach shows up at the end of the workout's nested list,
      after the entries it had before, carrying the new row and its exercise. */
  lemma AttachThenGetWorkout(db: Db, w: Id, e: Id, body: LinkPayload)
    requires Valid(db)
    requires AttachExercise(db, w, e, body).outcome.Ok?
    ensures var r := AttachExercise(db, w, e, body);
            var before := GetWorkout(db, w).value.entries;
            var after := GetWorkout(r.db, w).value.entries;
            && |after| == |before| + 1
            && after[..|before|] == before
            && after[|before|] == EntryOut(r.outcome.value.id, DumpExercise(db, e),
                                           body.reps, body.sets, body.durationSeconds)
  {
    var r := AttachExercise(db, w, e, body);
    AttachPreservesValid(db, w, e, body);
    RowsOfAppend(db.links, r.outcome.value, OfWorkout(w));
  }

  /** A request whose name agrees with a stored name up to case and
      surrounding whitespace normalises to that very name, so once the body
      loads it fails the unique constraint with 400 and leaves the database
      as it was. */
  lemma DuplicateNameRejected(db: Db, p: ExercisePayload, id: Id)
    requires id in db.exercises && IsStoredName(db.exercises[id].name)
    requires p.name.Given? && Lower(Strip(p.name.value)) == Lower(db.exercises[id].name)
    ensures LoadExercise(p).Ok? ==>
              CreateExercise(db, p) == Response(BadRequest(Raised(DuplicateName)), db)
  {
    var stored := db.exercises[id].name;
    var stripped := Strip(p.name.value);
    assert |stripped| == |Lower(stripped)| == |Lower(stored)| == |stored|;
    var v := ValidateName(Wrappers.Some(p.name.value)).value;
    TitleIgnoresCase(v, stored);
    StoredNameIsNormal(v);
    StoredNameIsNormal(stored);
    assert NameInUse(db, v);
  }
}
