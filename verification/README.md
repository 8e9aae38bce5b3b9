# Workout tracker: validators, store and endpoints in Dafny

This project models the core of a small Flask/SQLAlchemy workout tracker. The tracker has three tables:

- **exercises**: each has a unique name, a category and an equipment flag;
- **workouts**: each has a date, a duration in minutes and notes;
- **workout_exercises**: each row links one exercise to one workout, with optional reps, sets and duration in seconds.

Requests pass through two validation layers before anything is stored:

- the marshmallow request schemas of `server/schemas.py`;
- the SQLAlchemy `@validates` hooks of `server/models.py`, which also normalise names and categories.

The endpoints of `server/app.py` create, attach, delete and read rows.

The model is functional:

- Python's `str.strip`, `str.lower`, `str.title`, `str.isdigit` and `str.islower` are explicit functions over ASCII strings (module `Text`).
- Dates are `(year, month, day)` triples with the lexicographic order Python's `date` uses (module `Calendar`).
- Each validator is a function that returns either the stored value or the tag of the failing field (modules `Models` and `Schemas`).
- The database is an immutable value (module `Store`):
  - exercises and workouts are maps from id to row;
  - association rows are a sequence in insertion order;
  - each table has an id counter.
- Each write returns an outcome (`Ok`, `NotFound`, `Conflict`, `BadRequest`) together with the database after the call; each read returns the outcome only (module `Api`).
- A failed write returns the database it was given. This is the state the session rollback restores.
- "Today" is a parameter instead of a clock read.
- Module `ApiProperties` holds the lemmas that relate several calls. For example:
  - every write keeps the database invariant;
  - attaching the same pair twice conflicts;
  - deletes cascade;
  - the nested reads list exactly the association rows.

Where the comments and the code differ, the model follows the code:

- The request date window is not "two years before today". Its lower bound is 1 January of `today.year - 2`. For example, on 10 October 2026, 1 January 2024 is accepted and 31 December 2023 is refused (`Schemas.WindowIsCalendarYears`).
- For a `today` in year 1 or 2, that bound cannot be built as a date. The hook then raises a plain exception instead of a validation error, and the endpoint still answers 400 (`Raised(NoWindowStart)`).
- The request schema checks the category exactly as written, with no case folding. The entity hook does lower-case the category, but after the schema has run that step never changes anything (`Schemas.SchemaCategoryPassesModel`).
- The request schema measures the raw, unstripped name length. A name like `" a"` passes the schema and is then refused by the entity hook (`Schemas.SchemaNameCanFailModel`).

## Model

| member | source | states |
|---|---|---|
| Text.ContainsDigit | server/schemas.py:15 | the scan answers true exactly when some character is a digit |
| Text.IsLowerString | server/schemas.py:20 | `islower` holds exactly when some character is a letter and none is upper case |
| Text.Strip | server/models.py:29 | the result is no longer than the input, neither starts nor ends with whitespace, occurs in the input at some offset with only whitespace before and after it, and is empty exactly when the input is all whitespace |
| Text.TrimBothEnds | server/models.py:29 | trimming the left end, then the right end, leaves an infix with only whitespace before and after it |
| Text.StripUnpadded | server/schemas.py:43 | a string that neither starts nor ends with whitespace is its own strip, which is what the notes hook compares against |
| Text.StripIdempotent | server/models.py:29 | stripping twice is stripping once |
| Text.Title | server/models.py:31 | title case keeps the length; a character that is first or follows a non-letter is upper-cased, any other is lower-cased |
| Text.TitleFrom | server/models.py:31 | title case keeps the length, and each character is upper-cased when it starts a word and lower-cased otherwise |
| Text.TitleRule | server/models.py:31 | every non-letter is kept, and a letter that is first or follows a non-letter becomes the upper-case form of the same letter |
| Text.TitleIdempotent | server/models.py:31 | title-casing a title-cased string changes nothing |
| Text.TitleFixedPoints | server/models.py:31 | a string is its own title form exactly when every position is titled |
| Text.TitleAgreesUpToCase | server/models.py:31 | the title form differs from the input only in letter case |
| Text.TitleIgnoresCase | server/models.py:31 | inputs that agree up to case have the same title form |
| Text.TitleOfPushUps | server/seed.py:94 | "push-ups" title-cases to "Push-Ups" |
| Text.Lower | server/models.py:36-38 | lower-casing keeps the length, turns each capital into its small letter, keeps every other character, and leaves no capital |
| Text.LowerIdempotent | server/models.py:36-38 | lower-casing twice is lower-casing once, and the result has no capitals |
| Calendar.DaysInMonth | server/schemas.py:26 | months have 28 to 31 days, and 29 exactly for February of a leap year |
| Calendar.BeforeIsStrictTotalOrder | server/schemas.py:35-38 | the date comparison is irreflexive, transitive, total on distinct dates and antisymmetric |
| Models.StoredNameIsNormal | server/models.py:31 | a name in stored form is fixed by both strip and title case |
| Models.NormalFormIsStored | server/models.py:29-31 | the title form of a stripped name of two or more characters is in stored form, has the same length and differs only in case |
| Models.ValidateName | server/models.py:27-31 | a name is accepted exactly when present with a stripped length of at least 2; the stored value is in stored form and agrees up to case with the stripped input; a refusal names the name field |
| Models.ValidateNameIdempotent | server/models.py:31 | validating a stored name gives the same name back |
| Models.ValidateCategory | server/models.py:33-38 | a category is accepted exactly when its lower-case form is one of the four; the stored value is that lower-case form |
| Models.ValidateCategoryIdempotent | server/models.py:36-38 | validating a stored category gives it back, and "Strength" is stored as "strength" |
| Models.ValidateDuration | server/models.py:62-68 | a duration is accepted exactly when present and in 1..480, and then kept unchanged |
| Models.ValidateNotes | server/models.py:70-74 | notes are refused only when longer than 500 characters; absent and empty notes pass, and the value is kept |
| Schemas.NameRuleMeaning | server/schemas.py:6-16 | a request name passes exactly when its raw length is 2..100, some character is not whitespace, and no character is a digit |
| Schemas.CategoryRuleMeaning | server/schemas.py:7-21 | a request category passes exactly when it is one of the four strings as written, so "Strength" is refused |
| Schemas.CategoryIsLower | server/schemas.py:20 | each of the four categories satisfies `islower` and is its own lower-case form |
| Schemas.CategoryAcceptedMeaning | server/schemas.py:7 | the category field passes exactly when given and one of the four |
| Schemas.LoadExercise | server/schemas.py:4-21 | the load succeeds exactly when name and category pass and `equipment_needed` is not null; the loaded record keeps the values and defaults equipment to false; a failure lists exactly the failing fields |
| Schemas.CheckDate | server/schemas.py:33-39 | a future date is refused first; otherwise the hook raises when 1 January of `today.year - 2` is not a date; otherwise a date before that bound is too old and any other is in the window |
| Schemas.DateWindow | server/schemas.py:33-39 | once the bound exists, a date is accepted exactly when it lies from 1 January of `today.year - 2` through today, both ends included |
| Schemas.WindowIsCalendarYears | server/schemas.py:38 | on 2026-10-10, 2024-01-01 is accepted, 2023-12-31 is too old and 2026-10-11 is in the future |
| Schemas.LoadWorkout | server/schemas.py:24-44 | the load succeeds exactly when the date is a real date in the window, the duration is 1..480, and notes are absent or at most 500 characters and unpadded; notes default to ""; a raising date bound is reported as such; otherwise a failure lists exactly the failing fields |
| Schemas.LoadLink | server/schemas.py:51-67 | reps, sets and duration_seconds may each be absent and otherwise lie in 1..1000, 1..50 and 1..7200; the loaded record is the input; a failure lists exactly the failing fields |
| Schemas.SchemaCategoryPassesModel | server/models.py:33-38 | a category the schema accepts passes the entity hook unchanged |
| Schemas.SchemaWorkoutPassesModel | server/models.py:62-74 | a workout the schema accepts passes the duration and notes hooks |
| Schemas.SchemaNameCanFailModel | server/models.py:29 | " a" passes the request schema and is refused by the name hook |
| Store.RowsOf | server/models.py:23 | the rows of a parent are exactly the table rows that reference it |
| Store.RowsNotOf | server/models.py:58 | the rows that survive a cascade are exactly those that do not reference the deleted parent |
| Store.RowsOfRowsNotOf | server/models.py:23 | taking one parent's rows and dropping another's commute, so a cascade keeps the table order of what survives |
| Store.RowsOfOtherParent | server/models.py:58 | a cascade leaves the rows of a parent that shares none of them as they were, in the same order |
| Store.RowsOfEmpty | server/models.py:23 | a parent has no rows exactly when no table row references it |
| Store.RowsPartition | server/models.py:58 | a cascade splits the table: deleted plus surviving rows make up the whole table |
| Store.PairCountUnique | server/models.py:94-97 | under the unique constraint a pair has one row if any, and none otherwise |
| Store.ConsPairsUnique | server/models.py:96 | prepending a row keeps pairs unique exactly when its pair is new |
| Store.ConsIdsUnique | server/models.py:83 | prepending a row keeps ids unique exactly when its id is new |
| Store.RowsNotOfKeepsUnique | server/models.py:94-97 | a cascade keeps pair and id uniqueness |
| Store.RowsOfKeepsUnique | server/models.py:94-97 | the rows of one parent have distinct ids and pairs |
| Store.RowsOfAppend | server/app.py:51 | appending a row adds it at the end of its parent's rows and leaves other parents' rows alone |
| Store.AppendUnique | server/models.py:94-97 | appending a row with a new pair and a new id keeps both uniqueness constraints |
| Store.InsertExerciseKeepsValid | server/models.py:18 | inserting a well-formed exercise with an unused name under the next id keeps the invariant |
| Store.InsertWorkoutKeepsValid | server/models.py:52-55 | inserting a well-formed workout under the next id keeps the invariant |
| Store.AppendLinkKeepsValid | server/models.py:94-97 | appending a well-formed row for a new pair of existing parents keeps the invariant |
| Store.RemoveWorkoutKeepsValid | server/models.py:58 | removing a workout with its rows keeps the invariant |
| Store.RemoveExerciseKeepsValid | server/models.py:23 | removing an exercise with its rows keeps the invariant |
| Store.EmptyDbValid | server/models.py:8-97 | the empty database satisfies the invariant |
| Api.CreateExercise | server/app.py:114-127 | succeeds exactly when the body loads, the name hook accepts it and no stored exercise has the normalised name; a name collision answers 400 and changes nothing; success stores the normalised name, the category and the equipment flag under the next id and changes nothing else |
| Api.CreateWorkout | server/app.py:56-69 | succeeds exactly when the body loads; the stored date lies in the window, the duration in 1..480 and the notes within 500 characters; only the new workout is added; a failure changes nothing |
| Api.AttachExercise | server/app.py:146-189 | checks run in order: workout 404, exercise 404, existing pair 409, body 400; success appends exactly one row with the next id, both ids and the given numbers; a failure changes nothing |
| Api.DeleteWorkout | server/app.py:71-85 | 404 exactly when absent; otherwise the workout and exactly its rows are removed, every other row survives, and exercises, other workouts and counters stay as they were (the surviving rows' order is stated by the delete lemmas below) |
| Api.DeleteExercise | server/app.py:129-143 | the same as deleting a workout, with the roles swapped |
| Api.GetWorkout | server/app.py:34-54 | 404 exactly when absent; otherwise one entry per row of the workout in table order, with that row's id, numbers and exercise |
| Api.GetExercise | server/app.py:94-112 | 404 exactly when absent; otherwise one workout summary per row of the exercise in table order |
| ApiProperties.CreateExercisePreservesValid | server/app.py:114-127 | creating an exercise keeps the invariant, whatever the outcome |
| ApiProperties.CreateWorkoutPreservesValid | server/app.py:56-69 | creating a workout keeps the invariant |
| ApiProperties.AttachPreservesValid | server/app.py:146-189 | attaching keeps the invariant, including one row per pair |
| ApiProperties.DeleteWorkoutPreservesValid | server/app.py:71-85 | deleting a workout keeps the invariant, including that rows reference existing parents |
| ApiProperties.DeleteExercisePreservesValid | server/app.py:129-143 | deleting an exercise keeps the invariant |
| ApiProperties.RunPreservesValid | server/app.py:56-189 | any sequence of writes from a valid database ends in a valid database |
| ApiProperties.ReachableIsValid | server/models.py:18-97 | every database reachable from the empty one has unique pairs, unique names, existing parents and well-formed rows |
| ApiProperties.AttachTwiceConflicts | server/app.py:158-164 | after a successful attach, attaching the same pair again answers 409, changes nothing, and the pair has exactly one row |
| ApiProperties.DeleteWorkoutCascades | server/app.py:71-82 | after deleting a workout, no row references it, the table shrinks by its row count, exercises are untouched and reading it answers 404 |
| ApiProperties.DeleteWorkoutKeepsOtherWorkouts | server/app.py:71-82 | after deleting a workout, every other workout reads exactly as before, nested lists and their order included |
| ApiProperties.DeleteWorkoutFiltersExercises | server/app.py:71-82 | after deleting a workout, each exercise's list of workouts is the old list with that workout taken out, in the same order |
| ApiProperties.DeleteExerciseKeepsOtherExercises | server/app.py:129-140 | after deleting an exercise, every other exercise reads exactly as before, its list of workouts and their order included |
| ApiProperties.DeleteExerciseFiltersWorkouts | server/app.py:129-140 | after deleting an exercise, each workout's nested entries and exercises are the old lists with that exercise taken out, in the same order |
| ApiProperties.DeleteExerciseCascades | server/app.py:129-140 | after deleting an exercise, no row references it, workouts are untouched, reading it answers 404, and no workout lists it |
| ApiProperties.GetWorkoutListsEveryRow | server/app.py:43-52 | every row of a workout appears in its nested list |
| ApiProperties.GetWorkoutEntriesDistinct | server/app.py:43-52 | no row appears twice in a workout's nested list |
| ApiProperties.GetWorkoutEntryIsRow | server/app.py:43-52 | every nested entry is a row of the workout, shown with that row's exercise |
| ApiProperties.GetExerciseListsEveryWorkout | server/app.py:102-110 | every workout linked to the exercise appears in its `workouts` list |
| ApiProperties.GetExerciseWorkoutsDistinct | server/app.py:102-110 | no workout appears twice in an exercise's `workouts` list |
| ApiProperties.GetExerciseWorkoutIsRow | server/app.py:102-110 | every workout in the list is linked to the exercise |
| ApiProperties.AttachThenGetWorkout | server/app.py:43-52 | after an attach, the workout's nested list is the old list with the new entry at the end |
| ApiProperties.DuplicateNameRejected | server/app.py:114-127 | a request whose name agrees with a stored name up to case and surrounding whitespace normalises to that name, so once its body loads it answers 400 for the duplicate and changes nothing |

## Left out

- `GET /workouts` and `GET /exercises`: these list whole tables with no logic beyond serialisation.
- Routing, `make_response`/`jsonify`, and the generic 404 and 500 handlers: this is HTTP plumbing. Outcomes carry the messages the endpoints use, and each constructor of `Api.Outcome` stands for one status (200/201, 404, 409, 400).
- Error bodies built from `str(e.messages)` or `str(e)`: a failure carries the set of failing field tags, or the cause of the exception, instead of marshmallow's text.
- JSON decoding and type coercion:
  - values of the wrong JSON type (a string where an integer is expected, a malformed date string) are not modelled;
  - a date is a `(year, month, day)` triple, and an impossible triple stands for an unparsable date;
  - a non-object body for the attach endpoint, where `.get` raises, is not modelled.
- Unknown request fields: marshmallow's default refusal of unknown keys is not modelled.
- Non-ASCII text: Python's Unicode case mapping, whitespace and digit classes are replaced by their ASCII subsets. Other characters count as caseless, non-space non-digits.
- Session, commit and migration: the constraints live in the invariant `Store.Valid`. The SQL `CheckConstraint`s are implied by the validators and are not modelled separately.
- Commit failures: a commit is taken to succeed unless the model names its cause (the unique exercise name). The `except Exception` branches that roll back and answer 400 for any other failure are not modelled, so the creates and the attach never answer 400 for a failure the model has no cause for.
- Api.DeleteWorkout: never answers 400, because the rollback branch for a failed commit (`server/app.py:83-85`) is not modelled.
- Api.DeleteExercise: never answers 400, because the rollback branch for a failed commit (`server/app.py:141-143`) is not modelled.
- Id allocation: each table hands out the next value of its own counter. SQLite's reuse of the largest freed id is not modelled.
- Row order: nested reads follow the association table's insertion order. The relationships declare no `order_by`, so this order is an assumption about the database.
- Response bodies of the writes: the created exercise or workout is returned as its flat record. The nested `exercises`/`workout_exercises` parts of the dump are always empty right after creation. The attach endpoint returns the new row without its nested dumps.
- `server/seed.py`: it is a population script with console output.
- `Workout.date` default and `datetime.utcnow()`: the request schema requires the date, so the default never applies; "today" is a parameter.
