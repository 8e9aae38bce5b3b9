/**
 The endpoints of `server/app.py` as operations on the database value. A
 write returns its outcome together with the database after it; a read
 returns its outcome only. Routing, JSON encoding and the session are not
 modelled: a failed write hands back the database it was given, which is what
 the rollback restores.
 */
module Api {
  import Wrappers
  import opened Text
  import opened Calendar
  import opened Models
  import opened Schemas
  import opened Store

  /** What an endpoint answers, one constructor per HTTP status: `Ok` is the
      success body (200, or 201 for a create or an attach), `NotFound` is 404
      and `Conflict` is 409 with their messages, and `BadRequest` is 400 with
      the reason. */
  datatype Outcome<+T> =
    | Ok(value: T)
    | NotFound(message: String)
    | Conflict(message: String)
    | BadRequest(failure: Failure)

  datatype Response<+T> = Response(outcome: Outcome<T>, db: Db)

  const WorkoutNotFound := "Workout not found"
  const ExerciseNotFound := "Exercise not found"
  const AlreadyAdded := "Exercise already added to this workout"
  const WorkoutDeleted := "Workout deleted successfully"
  const ExerciseDeleted := "Exercise deleted successfully"

  /** The scalar fields each entity serialises to. */
  datatype ExerciseOut = ExerciseOut(id: Id, name: String, category: String, equipmentNeeded: bool)
  datatype WorkoutOut = WorkoutOut(id: Id, date: Date, durationMinutes: int, notes: String)

  /** One element of a workout's nested `workout_exercises` list. */
  datatype EntryOut = EntryOut(
    id: Id, exercise: ExerciseOut,
    reps: Wrappers.Option<int>, sets: Wrappers.Option<int>, durationSeconds: Wrappers.Option<int>)

  /** The body of `GET /workouts/<id>`: the workout, its exercises through the
      association table, and the association rows with their exercises. */
  datatype WorkoutDetail = WorkoutDetail(
    workout: WorkoutOut, exercises: seq<ExerciseOut>, entries: seq<EntryOut>)

  /** The body of `GET /exercises/<id>`: the exercise and the workouts it is in. */
  datatype ExerciseDetail = ExerciseDetail(exercise: ExerciseOut, workouts: seq<WorkoutOut>)

  function DumpExercise(db: Db, id: Id): ExerciseOut
    requires id in db.exercises
  {
    var e := db.exercises[id];
    ExerciseOut(id, e.name, e.category, e.equipmentNeeded)
  }

  function DumpWorkout(db: Db, id: Id): WorkoutOut
    requires id in db.workouts
  {
    var w := db.workouts[id];
    WorkoutOut(id, w.date, w.durationMinutes, w.notes)
  }

  /** One nested entry: the row's id and numbers with the row's exercise. */
  function EntryOf(db: Db, l: WorkoutExercise): EntryOut
    requires l.exerciseId in db.exercises
  {
    EntryOut(l.id, DumpExercise(db, l.exerciseId), l.reps, l.sets, l.durationSeconds)
  }

  /** The nested entries shown for some association rows, one per row in order. */
  function EntriesOf(db: Db, rows: seq<WorkoutExercise>): (r: seq<EntryOut>)
    requires forall l :: l in rows ==> l.exerciseId in db.exercises
    ensures |r| == |rows|
    ensures forall k :: 0 <= k < |rows| ==> r[k] == EntryOf(db, rows[k])
  {
    if rows == [] then [] else [EntryOf(db, rows[0])] + EntriesOf(db, rows[1..])
  }

  /** The exercises reached through some association rows, one per row in order. */
  function ExercisesOf(db: Db, rows: seq<WorkoutExercise>): (r: seq<ExerciseOut>)
    requires forall l :: l in rows ==> l.exerciseId in db.exercises
    ensures |r| == |rows|
    ensures forall k :: 0 <= k < |rows| ==> r[k] == DumpExercise(db, rows[k].exerciseId)
  {
    if rows == [] then [] else [DumpExercise(db, rows[0].exerciseId)] + ExercisesOf(db, rows[1..])
  }

  /** The workouts reached through some association rows, one per row in order. */
  function WorkoutsOf(db: Db, rows: seq<WorkoutExercise>): (r: seq<WorkoutOut>)
    requires forall l :: l in rows ==> l.workoutId in db.workouts
    ensures |r| == |rows|
    ensures forall k :: 0 <= k < |rows| ==> r[k] == DumpWorkout(db, rows[k].workoutId)
  {
    if rows == [] then [] else [DumpWorkout(db, rows[0].workoutId)] + WorkoutsOf(db, rows[1..])
  }

  /** Whether some stored exercise already has this name. */
  predicate NameInUse(db: Db, name: String) {
    exists id :: id in db.exercises && db.exercises[id].name == name
  }

  /** `POST /exercises`: load the body, run the entity hooks, insert, commit.
      The name is stored stripped and title-cased, the category as given
      (already lower case); a normalised name that is already stored fails
      the unique constraint at commit and is rolled back. */
  function CreateExercise(db: Db, p: ExercisePayload): (r: Response<ExerciseOut>)
    ensures !r.outcome.Ok? ==> r.outcome.BadRequest? && r.db == db
    ensures r.outcome.Ok? <==>
              && LoadExercise(p).Ok?
              && ValidateName(Wrappers.Some(p.name.value)).Ok?
              && !NameInUse(db, ValidateName(Wrappers.Some(p.name.value)).value)
    ensures r.outcome == BadRequest(Raised(DuplicateName)) <==>
              && LoadExercise(p).Ok?
              && ValidateName(Wrappers.Some(p.name.value)).Ok?
              && NameInUse(db, ValidateName(Wrappers.Some(p.name.value)).value)
    ensures r.outcome.Ok? ==>
              var e := r.outcome.value;
              && e.id == db.nextExerciseId
              && e.name == ValidateName(Wrappers.Some(p.name.value)).value
              && IsStoredName(e.name) && Lower(e.name) == Lower(Strip(p.name.value))
              && e.category == p.category.value && e.category in Categories
              && e.equipmentNeeded == (p.equipmentNeeded.Given? && p.equipmentNeeded.value)
              && r.db.exercises == db.exercises[e.id := Exercise(e.name, e.category, e.equipmentNeeded)]
              && r.db.nextExerciseId == e.id + 1
              && r.db.workouts == db.workouts && r.db.links == db.links
              && r.db.nextWorkoutId == db.nextWorkoutId && r.db.nextLinkId == db.nextLinkId
  {
    var loaded := LoadExercise(p);
    if loaded.Err? then Response(BadRequest(loaded.error), db)
    else
      var data := loaded.value;
      var name := ValidateName(Wrappers.Some(data.name));
      if name.Err? then Response(BadRequest(Raised(Rejected(name.error))), db)
      else
        SchemaCategoryPassesModel(p);
        var category := ValidateCategory(Wrappers.Some(data.category));
        if category.Err? then Response(BadRequest(Raised(Rejected(Category))), db)
        else if NameInUse(db, name.value) then Response(BadRequest(Raised(DuplicateName)), db)
        else
          var id := db.nextExerciseId;
          var row := Exercise(name.value, category.value, data.equipmentNeeded);
          Response(Ok(ExerciseOut(id, row.name, row.category, row.equipmentNeeded)),
                   db.(exercises := db.exercises[id := row], nextExerciseId := id + 1))
  }

  /** `POST /workouts`: load the body against `today`, run the entity hooks,
      insert, commit. Only the new workout is added. */
  function CreateWorkout(db: Db, p: WorkoutPayload, today: Date): (r: Response<WorkoutOut>)
    ensures !r.outcome.Ok? ==> r.outcome.BadRequest? && r.db == db
    ensures r.outcome.Ok? <==> LoadWorkout(p, today).Ok?
    ensures r.outcome.Ok? ==>
              var w := r.outcome.value;
              && w.id == db.nextWorkoutId
              && w.date == p.date.value
              && NotAfter(WindowStart(today), w.date) && NotAfter(w.date, today)
              && w.durationMinutes == p.durationMinutes.value && 1 <= w.durationMinutes <= 480
              && w.notes == NotesOrDefault(p.notes) && |w.notes| <= 500
              && r.db == db.(workouts := db.workouts[w.id := Workout(w.date, w.durationMinutes, w.notes)],
                             nextWorkoutId := w.id + 1)
  {
    match LoadWorkout(p, today)
    case Err(failure) => Response(BadRequest(failure), db)
    case Ok(data) =>
      match ValidateDuration(Wrappers.Some(data.durationMinutes))
      case Err(field) => Response(BadRequest(Raised(Rejected(field))), db)
      case Ok(minutes) =>
        match ValidateNotes(Wrappers.Some(data.notes))
        case Err(field) => Response(BadRequest(Raised(Rejected(field))), db)
        case Ok(_) =>
          var id := db.nextWorkoutId;
          Response(Ok(WorkoutOut(id, data.date, minutes, data.notes)),
                   db.(workouts := db.workouts[id := Workout(data.date, minutes, data.notes)],
                       nextWorkoutId := id + 1))
  }

  /** `POST /workouts/<w>/exercises/<e>/workout_exercises`. The checks run in
      a fixed order and the first failing one decides: the workout exists (404),
      the exercise exists (404), the pair is new (409), the body is valid (400).
      Success appends exactly one row carrying the ids and the given numbers. */
  function AttachExercise(db: Db, w: Id, e: Id, body: LinkPayload): (r: Response<WorkoutExercise>)
    ensures !r.outcome.Ok? ==> r.db == db
    ensures w !in db.workouts ==> r.outcome == NotFound(WorkoutNotFound)
    ensures w in db.workouts && e !in db.exercises ==> r.outcome == NotFound(ExerciseNotFound)
    ensures w in db.workouts && e in db.exercises && HasPair(db.links, w, e) ==>
              r.outcome == Conflict(AlreadyAdded)
    ensures w in db.workouts && e in db.exercises && !HasPair(db.links, w, e) && LoadLink(body).Err? ==>
              r.outcome == BadRequest(LoadLink(body).error)
    ensures r.outcome.Ok? <==>
              w in db.workouts && e in db.exercises && !HasPair(db.links, w, e) && LoadLink(body).Ok?
    ensures r.outcome.Ok? ==>
              var row := r.outcome.value;
              && row == WorkoutExercise(db.nextLinkId, w, e, body.reps, body.sets, body.durationSeconds)
              && r.db == db.(links := db.links + [row], nextLinkId := row.id + 1)
  {
    if w !in db.workouts then Response(NotFound(WorkoutNotFound), db)
    else if e !in db.exercises then Response(NotFound(ExerciseNotFound), db)
    else if HasPair(db.links, w, e) then Response(Conflict(AlreadyAdded), db)
    else
      match LoadLink(body)
      case Err(failure) => Response(BadRequest(failure), db)
      case Ok(data) =>
        var row := WorkoutExercise(db.nextLinkId, w, e, data.reps, data.sets, data.durationSeconds);
        Response(Ok(row), db.(links := db.links + [row], nextLinkId := row.id + 1))
  }

  /** `DELETE /workouts/<w>`: 404 when absent; otherwise the workout and every
      row referencing it go (the relationship's delete cascade), and nothing
      else changes. */
  function DeleteWorkout(db: Db, w: Id): (r: Response<String>)
    ensures r.outcome.NotFound? <==> w !in db.workouts
    ensures r.outcome.NotFound? ==> r.outcome.message == WorkoutNotFound && r.db == db
    ensures r.outcome.Ok? || r.outcome.NotFound?
    ensures r.outcome.Ok? ==>
              && r.outcome.value == WorkoutDeleted
              && r.db.workouts.Keys == db.workouts.Keys - {w}
              && (forall id :: id in r.db.workouts ==> r.db.workouts[id] == db.workouts[id])
              && r.db.exercises == db.exercises
              && (forall l :: l in r.db.links <==> l in db.links && l.workoutId != w)
              && r.db.nextExerciseId == db.nextExerciseId
              && r.db.nextWorkoutId == db.nextWorkoutId
              && r.db.nextLinkId == db.nextLinkId
  {
    if w !in db.workouts then Response(NotFound(WorkoutNotFound), db)
    else
      Response(Ok(WorkoutDeleted),
               db.(workouts := db.workouts - {w}, links := RowsNotOf(db.links, OfWorkout(w))))
  }

  /** `DELETE /exercises/<e>`: the mirror image of deleting a workout. */
  function DeleteExercise(db: Db, e: Id): (r: Response<String>)
    ensures r.outcome.NotFound? <==> e !in db.exercises
    ensures r.outcome.NotFound? ==> r.outcome.message == ExerciseNotFound && r.db == db
    ensures r.outcome.Ok? || r.outcome.NotFound?
    ensures r.outcome.Ok? ==>
              && r.outcome.value == ExerciseDeleted
              && r.db.exercises.Keys == db.exercises.Keys - {e}
              && (forall id :: id in r.db.exercises ==> r.db.exercises[id] == db.exercises[id])
              && r.db.workouts == db.workouts
              && (forall l :: l in r.db.links <==> l in db.links && l.exerciseId != e)
              && r.db.nextExerciseId == db.nextExerciseId
              && r.db.nextWorkoutId == db.nextWorkoutId
              && r.db.nextLinkId == db.nextLinkId
  {
    if e !in db.exercises then Response(NotFound(ExerciseNotFound), db)
    else
      Response(Ok(ExerciseDeleted),
               db.(exercises := db.exercises - {e}, links := RowsNotOf(db.links, OfExercise(e))))
  }

  /** `GET /workouts/<w>`: 404 when absent; otherwise one nested entry per
      row of the workout, in table order, each with that row's id, numbers
      and exercise, and the workout's exercises in the same order. */
  function GetWorkout(db: Db, w: Id): (r: Outcome<WorkoutDetail>)
    requires Referential(db)
    ensures r.Ok? || r.NotFound?
    ensures r.NotFound? <==> w !in db.workouts
    ensures r.NotFound? ==> r.message == WorkoutNotFound
    ensures r.Ok? ==>
              var rows := RowsOf(db.links, OfWorkout(w));
              && r.value.workout == DumpWorkout(db, w)
              && |r.value.entries| == |rows| && |r.value.exercises| == |rows|
              && forall k :: 0 <= k < |rows| ==>
                   && rows[k].exerciseId in db.exercises
                   && r.value.entries[k] == EntryOut(rows[k].id, DumpExercise(db, rows[k].exerciseId),
                                                     rows[k].reps, rows[k].sets, rows[k].durationSeconds)
                   && r.value.exercises[k] == DumpExercise(db, rows[k].exerciseId)
  {
    if w !in db.workouts then NotFound(WorkoutNotFound)
    else
      var rows := RowsOf(db.links, OfWorkout(w));
      Ok(WorkoutDetail(DumpWorkout(db, w), ExercisesOf(db, rows), EntriesOf(db, rows)))
  }

  /** `GET /exercises/<e>`: 404 when absent; otherwise the exercise and one
      workout summary per row of the exercise, in table order. */
  function GetExercise(db: Db, e: Id): (r: Outcome<ExerciseDetail>)
    requires Referential(db)
    ensures r.Ok? || r.NotFound?
    ensures r.NotFound? <==> e !in db.exercises
    ensures r.NotFound? ==> r.message == ExerciseNotFound
    ensures r.Ok? ==>
              var rows := RowsOf(db.links, OfExercise(e));
              && r.value.exercise == DumpExercise(db, e)
              && |r.value.workouts| == |rows|
              && forall k :: 0 <= k < |rows| ==>
                   rows[k].workoutId in db.workouts && r.value.workouts[k] == DumpWorkout(db, rows[k].workoutId)
  {
    if e !in db.exercises then NotFound(ExerciseNotFound)
    else
      var rows := RowsOf(db.links, OfExercise(e));
      Ok(ExerciseDetail(DumpExercise(db, e), WorkoutsOf(db, rows)))
  }
}
