/**
 The load side of the request schemas in `server/schemas.py`. Every field is
 checked and every failing field is reported, as marshmallow collects
 errors; a `@validates` hook only runs on a field whose declared rules passed,
 which changes which message is reported but not which field fails.
 */
module Schemas {
  import opened Wrappers
  import opened Text
  import opened Calendar
  import opened Models

  /** A field of a JSON request body: absent, explicitly `null`, or a value. */
  datatype Input<+T> = Missing | Null | Given(value: T)

  const MaxNameLength := 100
  const MaxReps := 1000
  const MaxSets := 50
  const MaxDurationSeconds := 7200

  /** The fields marshmallow reports for three independently checked fields:
      each failing one, and nothing else. */
  function Failing(okA: bool, a: Field, okB: bool, b: Field, okC: bool, c: Field): (r: set<Field>)
    requires a != b && b != c && a != c
    ensures r <= {a, b, c}
    ensures (a in r <==> !okA) && (b in r <==> !okB) && (c in r <==> !okC)
    ensures r == {} <==> okA && okB && okC
  {
    (if okA then {} else {a}) + (if okB then {} else {b}) + (if okC then {} else {c})
  }

  // ---------------------------------------------------------------- ExerciseSchema

  datatype ExercisePayload = ExercisePayload(
    name: Input<String>, category: Input<String>, equipmentNeeded: Input<bool>)

  datatype ExerciseData = ExerciseData(name: String, category: String, equipmentNeeded: bool)

  /** `Length(min=2, max=100)` on the raw value, then `validate_name`: not empty
      or whitespace only, and no digit anywhere. */
  predicate NameRule(v: String) {
    && MinNameLength <= |v| <= MaxNameLength
    && !(v == [] || Strip(v) == [])
    && !ContainsDigit(v)
  }

  /** A request name is accepted exactly when its unstripped length is 2..100,
      some character is not whitespace, and no character is a digit. */
  lemma NameRuleMeaning(v: String)
    ensures NameRule(v) <==>
              && 2 <= |v| <= 100
              && (exists i :: 0 <= i < |v| && !IsSpace(v[i]))
              && (forall i :: 0 <= i < |v| ==> !IsDigit(v[i]))
  {
  }

  /** `OneOf` the four categories, then `validate_category_format`: a non-empty
      value must satisfy `str.islower`. */
  predicate CategoryRule(v: String) {
    v in Categories && !(v != [] && !IsLowerString(v))
  }

  /** The lower-case check never refuses a value `OneOf` lets through, so a
      request category is accepted exactly when it is one of the four strings
      as written: there is no case folding at this layer. */
  lemma CategoryRuleMeaning(v: String)
    ensures CategoryRule(v) <==> v in Categories
    ensures !CategoryRule("Strength")
  {
    if v in Categories {
      CategoryIsLower(v);
    }
    assert "Strength"[0] == 'S';
  }

  /** The four categories are written in lower case. */
  lemma CategoryIsLower(v: String)
    requires v in Categories
    ensures IsLowerString(v) && Lower(v) == v
  {
    assert IsLetter(v[0]);
    assert forall i :: 0 <= i < |v| ==> !IsUpperChar(v[i]);
    LowerKeepsNoUpper(v);
  }

  predicate NameAccepted(i: Input<String>) { i.Given? && NameRule(i.value) }

  predicate CategoryAccepted(i: Input<String>) { i.Given? && CategoryRule(i.value) }

  lemma CategoryAcceptedMeaning(i: Input<String>)
    ensures CategoryAccepted(i) <==> i.Given? && i.value in Categories
  {
    if i.Given? { CategoryRuleMeaning(i.value); }
  }

  /** `fields.Bool(load_default=False)`: absent is fine, `null` is not. */
  predicate EquipmentAccepted(i: Input<bool>) { !i.Null? }

  function EquipmentOrDefault(i: Input<bool>): bool {
    if i.Given? then i.value else false
  }

  /** `exercise_schema.load`: the loaded record, or every field that failed. */
  function LoadExercise(p: ExercisePayload): (r: Result<ExerciseData, Failure>)
    ensures r.Ok? <==>
              && p.name.Given? && NameRule(p.name.value)
              && p.category.Given? && p.category.value in Categories
              && !p.equipmentNeeded.Null?
    ensures r.Ok? ==>
              && r.value.name == p.name.value
              && r.value.category == p.category.value
              && r.value.equipmentNeeded == (p.equipmentNeeded.Given? && p.equipmentNeeded.value)
    ensures r.Err? ==> r.error.Invalid? && r.error.fields != {}
    ensures r.Err? ==>
              && (Name in r.error.fields <==> !NameAccepted(p.name))
              && (Category in r.error.fields <==> !(p.category.Given? && p.category.value in Categories))
              && (EquipmentNeeded in r.error.fields <==> p.equipmentNeeded.Null?)
              && r.error.fields <= {Name, Category, EquipmentNeeded}
  {
    CategoryAcceptedMeaning(p.category);
    var errors := Failing(NameAccepted(p.name), Name, CategoryAccepted(p.category), Category,
                          EquipmentAccepted(p.equipmentNeeded), EquipmentNeeded);
    if errors == {} then
      Ok(ExerciseData(p.name.value, p.category.value, EquipmentOrDefault(p.equipmentNeeded)))
    else
      Err(Invalid(errors))
  }

  // ---------------------------------------------------------------- WorkoutSchema

  datatype WorkoutPayload = WorkoutPayload(
    date: Input<Date>, durationMinutes: Input<int>, notes: Input<String>)

  datatype WorkoutData = WorkoutData(date: Date, durationMinutes: int, notes: String)

  /** The outcome of `WorkoutSchema.validate_date` for a well-formed date. */
  datatype DateVerdict = InWindow | InFuture | TooOld | WindowStartRaises

  /** The lower bound the code uses: 1 January two calendar years back. */
  function WindowStart(today: Date): Date {
    Date(today.year - 2, 1, 1)
  }

  /** `validate_date`: a date after today is refused first; then the lower
      bound `date(today.year - 2, 1, 1)` is built, which raises (rather than
      refusing) when that year is below 1; a date before it is refused. */
  function CheckDate(d: Date, today: Date): (v: DateVerdict)
    ensures v == InFuture <==> Before(today, d)
    ensures v == WindowStartRaises <==> NotAfter(d, today) && today.year < MinYear + 2
    ensures v == TooOld <==> NotAfter(d, today) && today.year >= MinYear + 2 && Before(d, WindowStart(today))
    ensures v == InWindow <==>
              NotAfter(d, today) && today.year >= MinYear + 2 && NotAfter(WindowStart(today), d)
  {
    if Before(today, d) then InFuture
    else if today.year - 2 < MinYear then WindowStartRaises
    else if Before(d, WindowStart(today)) then TooOld
    else InWindow
  }

  /** The accepted dates are exactly those from 1 January of `today.year - 2`
      through today, both ends included. */
  lemma DateWindow(d: Date, today: Date)
    requires ValidDate(today) && today.year >= MinYear + 2
    ensures ValidDate(WindowStart(today))
    ensures CheckDate(d, today) == InWindow <==> NotAfter(WindowStart(today), d) && NotAfter(d, today)
    ensures CheckDate(d, today) != WindowStartRaises
    ensures CheckDate(today, today) == InWindow
    ensures CheckDate(WindowStart(today), today) == InWindow
  {
  }

  /** The window is not "at most two years before today": on 10 October 2026
      a workout dated 1 January 2024 is accepted and 31 December 2023 is not. */
  lemma WindowIsCalendarYears()
    ensures CheckDate(Date(2024, 1, 1), Date(2026, 10, 10)) == InWindow
    ensures CheckDate(Date(2023, 12, 31), Date(2026, 10, 10)) == TooOld
    ensures CheckDate(Date(2026, 10, 11), Date(2026, 10, 10)) == InFuture
  {
  }

  /** `fields.Date(required=True, format='%Y-%m-%d')` plus `validate_date`:
      present, a real calendar date, and inside the window. */
  predicate DateAccepted(i: Input<Date>, today: Date) {
    i.Given? && ValidDate(i.value) && CheckDate(i.value, today) == InWindow
  }

  /** The date hook raised instead of reporting a validation error. */
  predicate DateRaises(i: Input<Date>, today: Date) {
    i.Given? && ValidDate(i.value) && CheckDate(i.value, today) == WindowStartRaises
  }

  /** `fields.Int(required=True, validate=Range(min=1, max=480))`. */
  predicate DurationAccepted(i: Input<int>) {
    i.Given? && 1 <= i.value <= MaxDurationMinutes
  }

  /** `fields.Str(load_default="", validate=Length(max=500))` plus
      `validate_notes_content`: a non-empty value must equal its own strip. */
  predicate NotesAccepted(i: Input<String>) {
    || i.Missing?
    || (i.Given? && |i.value| <= MaxNotesLength && !(i.value != [] && Strip(i.value) != i.value))
  }

  function NotesOrDefault(i: Input<String>): String {
    if i.Given? then i.value else ""
  }

  /** `workout_schema.load`: the loaded record, the exception from the date
      hook, or every field that failed. Notes are refused, never trimmed. */
  function LoadWorkout(p: WorkoutPayload, today: Date): (r: Result<WorkoutData, Failure>)
    ensures r.Ok? <==>
              && p.date.Given? && ValidDate(p.date.value)
              && NotAfter(WindowStart(today), p.date.value) && NotAfter(p.date.value, today)
              && today.year >= MinYear + 2
              && p.durationMinutes.Given? && 1 <= p.durationMinutes.value <= 480
              && (p.notes.Missing? || (p.notes.Given? && |p.notes.value| <= 500
                                       && Strip(p.notes.value) == p.notes.value))
    ensures r.Ok? ==>
              && r.value.date == p.date.value
              && r.value.durationMinutes == p.durationMinutes.value
              && r.value.notes == (if p.notes.Given? then p.notes.value else "")
    ensures r.Err? && DateRaises(p.date, today) ==> r.error == Raised(NoWindowStart)
    ensures r.Err? && !DateRaises(p.date, today) ==>
              && r.error.Invalid? && r.error.fields != {}
              && (WorkoutDate in r.error.fields <==> !DateAccepted(p.date, today))
              && (DurationMinutes in r.error.fields <==> !DurationAccepted(p.durationMinutes))
              && (Notes in r.error.fields <==> !NotesAccepted(p.notes))
  {
    StripUnpadded([]);
    if DateRaises(p.date, today) then Err(Raised(NoWindowStart))
    else
      var errors := Failing(DateAccepted(p.date, today), WorkoutDate,
                            DurationAccepted(p.durationMinutes), DurationMinutes,
                            NotesAccepted(p.notes), Notes);
      if errors == {} then
        Ok(WorkoutData(p.date.value, p.durationMinutes.value, NotesOrDefault(p.notes)))
      else
        Err(Invalid(errors))
  }

  // ---------------------------------------------------------------- WorkoutExerciseSchema

  /** The optional per-pairing numbers; `None` stands for both an absent key
      and an explicit `null`, since the endpoint reads them with `dict.get`. */
  datatype LinkPayload = LinkPayload(reps: Option<int>, sets: Option<int>, durationSeconds: Option<int>)

  /** `fields.Int(allow_none=True, validate=Range(min=1, max=hi))`. The
      hooks on reps and sets, which refuse a present value `<= 0`, run only
      after the range has passed and so never refuse anything more. */
  predicate OptionalInRange(v: Option<int>, hi: int) {
    v.None? || 1 <= v.value <= hi
  }

  predicate RepsAccepted(v: Option<int>) { OptionalInRange(v, MaxReps) }
  predicate SetsAccepted(v: Option<int>) { OptionalInRange(v, MaxSets) }
  predicate DurationSecondsAccepted(v: Option<int>) { OptionalInRange(v, MaxDurationSeconds) }

  /** `workout_exercise_schema.load` on the body the endpoint builds: each
      number may be absent and otherwise lies in 1..1000, 1..50 and 1..7200. */
  function LoadLink(p: LinkPayload): (r: Result<LinkPayload, Failure>)
    ensures r.Ok? <==>
              && (p.reps.None? || 1 <= p.reps.value <= 1000)
              && (p.sets.None? || 1 <= p.sets.value <= 50)
              && (p.durationSeconds.None? || 1 <= p.durationSeconds.value <= 7200)
    ensures r.Ok? ==> r.value == p
    ensures r.Err? ==>
              && r.error.Invalid? && r.error.fields != {}
              && (Reps in r.error.fields <==> !RepsAccepted(p.reps))
              && (Sets in r.error.fields <==> !SetsAccepted(p.sets))
              && (DurationSeconds in r.error.fields <==> !DurationSecondsAccepted(p.durationSeconds))
  {
    var errors := Failing(RepsAccepted(p.reps), Reps, SetsAccepted(p.sets), Sets,
                          DurationSecondsAccepted(p.durationSeconds), DurationSeconds);
    if errors == {} then Ok(p) else Err(Invalid(errors))
  }

  // ---------------------------------------------------------------- both layers

  /** A category the request schema accepts passes the entity hook unchanged. */
  lemma SchemaCategoryPassesModel(p: ExercisePayload)
    requires LoadExercise(p).Ok?
    ensures ValidateCategory(Some(LoadExercise(p).value.category)) == Ok(LoadExercise(p).value.category)
  {
    CategoryIsLower(LoadExercise(p).value.category);
  }

  /** A workout the request schema accepts passes both entity hooks unchanged. */
  lemma SchemaWorkoutPassesModel(p: WorkoutPayload, today: Date)
    requires LoadWorkout(p, today).Ok?
    ensures ValidateDuration(Some(LoadWorkout(p, today).value.durationMinutes)).Ok?
    ensures ValidateNotes(Some(LoadWorkout(p, today).value.notes)).Ok?
  {
  }

  /** The entity layer is not redundant for names: " a" has raw length 2 and
      passes the request schema, but stripped it is one character, so the
      name hook refuses it. */
  lemma SchemaNameCanFailModel(v: String)
    requires v == " a"
    ensures NameRule(v)
    ensures ValidateName(Some(v)).Err?
  {
    assert IsSpace(v[0]) && !IsSpace(v[1]);
    assert |Strip(v)| == 1;
  }
}
