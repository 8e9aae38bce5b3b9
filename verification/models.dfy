/**
 The three stored entities and the write-time checks the entity layer applies
 to them (the `@validates` hooks of `server/models.py`). A hook that raises
 `ValueError` is modelled as an `Err` naming the rejected field.
 */
module Models {
  import opened Wrappers
  import opened Text
  import opened Calendar

  /** Surrogate keys, allocated by the store. */
  type Id = nat

  /** The fields validation can reject, used to report which checks failed. */
  datatype Field =
    | Name | Category | EquipmentNeeded
    | WorkoutDate | DurationMinutes | Notes
    | Reps | Sets | DurationSeconds

  /** Why a write was refused with status 400. `Invalid` is a request-schema
      failure that lists every field that failed; `Raised` is an exception
      caught by the endpoint's generic handler, after which the session is
      rolled back. */
  datatype Failure = Invalid(fields: set<Field>) | Raised(fault: Fault)

  datatype Fault =
    | Rejected(field: Field)   // an entity-layer hook raised ValueError
    | DuplicateName            // the unique constraint on exercises.name failed at commit
    | NoWindowStart            // `date(today.year - 2, 1, 1)` could not be built

  const Categories: set<String> := {"strength", "cardio", "flexibility", "sports"}
  const MinNameLength := 2
  const MaxDurationMinutes := 480
  const MaxNotesLength := 500

  datatype Exercise = Exercise(name: String, category: String, equipmentNeeded: bool)

  datatype Workout = Workout(date: Date, durationMinutes: int, notes: String)

  /** A row of the association table: one exercise performed in one workout. */
  datatype WorkoutExercise = WorkoutExercise(
    id: Id, workoutId: Id, exerciseId: Id,
    reps: Option<int>, sets: Option<int>, durationSeconds: Option<int>)

  /** The shape every stored exercise name has: at least two characters, no
      surrounding whitespace, and every letter title-cased. */
  predicate IsStoredName(v: String) {
    && |v| >= MinNameLength
    && !IsSpace(v[0]) && !IsSpace(v[|v| - 1])
    && forall i :: 0 <= i < |v| ==> TitledAt(v, i)
  }

  /** A stored name is a fixed point of both stripping and title-casing. */
  lemma StoredNameIsNormal(v: String)
    requires IsStoredName(v)
    ensures Strip(v) == v && Title(v) == v
  {
    StripUnpadded(v);
    TitleFixedPoints(v);
  }

  /** Title-casing a stripped string of at least two characters gives a
      stored name of the same length that differs from it only in case. */
  lemma NormalFormIsStored(stripped: String)
    requires |stripped| >= MinNameLength
    requires !IsSpace(stripped[0]) && !IsSpace(stripped[|stripped| - 1])
    ensures IsStoredName(Title(stripped))
    ensures |Title(stripped)| == |stripped| && Lower(Title(stripped)) == Lower(stripped)
  {
    TitleAgreesUpToCase(stripped);
    TitleKeepsSpaceAt(stripped, 0);
    TitleKeepsSpaceAt(stripped, |stripped| - 1);
    TitleIsTitled(stripped);
  }

  /** `Exercise.validate_name`: rejects a missing or empty name and one shorter
      than two characters once stripped; otherwise stores the stripped name in
      title case, which differs from the stripped input only in letter case. */
  function ValidateName(name: Option<String>): (r: Result<String, Field>)
    ensures r.Ok? <==> name.Some? && |Strip(name.value)| >= MinNameLength
    ensures r.Ok? ==> IsStoredName(r.value)
                      && |r.value| == |Strip(name.value)|
                      && Lower(r.value) == Lower(Strip(name.value))
    ensures r.Err? ==> r.error == Name
  {
    if name.None? || name.value == [] || |Strip(name.value)| < MinNameLength then Err(Name)
    else
      NormalFormIsStored(Strip(name.value));
      Ok(Title(Strip(name.value)))
  }

  /** Normalising a stored name gives it back unchanged, so the name hook is
      idempotent. */
  lemma ValidateNameIdempotent(name: Option<String>)
    ensures ValidateName(name).Ok? ==>
              ValidateName(Some(ValidateName(name).value)) == Ok(ValidateName(name).value)
  {
    if ValidateName(name).Ok? {
      StoredNameIsNormal(ValidateName(name).value);
    }
  }

  /** `Exercise.validate_category`: accepted exactly when the lower-cased value
      is one of the four categories, and the lower-cased value is stored. A
      missing value makes `.lower()` raise, which also rejects it. */
  function ValidateCategory(category: Option<String>): (r: Result<String, Field>)
    ensures r.Ok? <==> category.Some? && Lower(category.value) in Categories
    ensures r.Ok? ==> r.value in Categories && r.value == Lower(category.value)
    ensures r.Err? ==> r.error == Category
  {
    if category.None? || Lower(category.value) !in Categories then Err(Category)
    else Ok(Lower(category.value))
  }

  /** The category hook is idempotent, and it accepts capitalised input that
      the request schema refuses. */
  lemma ValidateCategoryIdempotent(category: Option<String>)
    ensures ValidateCategory(category).Ok? ==>
              ValidateCategory(Some(ValidateCategory(category).value)) == ValidateCategory(category)
    ensures ValidateCategory(Some("Strength")) == Ok("strength")
  {
    if category.Some? {
      LowerIdempotent(category.value);
    }
    assert Lower("Strength") == "strength";
  }

  /** `Workout.validate_duration`: a missing, non-positive or over-480 value is
      rejected; any other value is stored unchanged. */
  function ValidateDuration(duration: Option<int>): (r: Result<int, Field>)
    ensures r.Ok? <==> duration.Some? && 0 < duration.value <= MaxDurationMinutes
    ensures r.Ok? ==> r.value == duration.value
    ensures r.Err? ==> r.error == DurationMinutes
  {
    if duration.None? || duration.value <= 0 then Err(DurationMinutes)
    else if duration.value > MaxDurationMinutes then Err(DurationMinutes)
    else Ok(duration.value)
  }

  /** `Workout.validate_notes`: only non-empty notes longer than 500
      characters are rejected; `None` and "" pass, and the value is kept. */
  function ValidateNotes(notes: Option<String>): (r: Result<Option<String>, Field>)
    ensures r.Ok? <==> notes.None? || |notes.value| <= MaxNotesLength
    ensures r.Ok? ==> r.value == notes
    ensures r.Err? ==> r.error == Notes
  {
    if notes.Some? && notes.value != [] && |notes.value| > MaxNotesLength then Err(Notes)
    else Ok(notes)
  }

  /** What the entity layer guarantees about every stored exercise. */
  predicate ExerciseWellFormed(e: Exercise) {
    IsStoredName(e.name) && e.category in Categories
  }

  /** What the entity layer guarantees about every stored workout. */
  predicate WorkoutWellFormed(w: Workout) {
    0 < w.durationMinutes <= MaxDurationMinutes && |w.notes| <= MaxNotesLength
  }
}
