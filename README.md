# Task manager API: admission, storage and retrieval of tasks

This project models the core of a task-management REST backend in Dafny. The
core is what it takes for a task to be accepted, stored and returned. It has
three layers:

- **Request validator.** It runs before every create and every update.
  Required keys: title, description, start date and due date. Raw-length
  bounds: 50, 200 and 2000. Both dates must be ISO 8601 and fall on today or
  a later calendar day. An optional status must be "Sin iniciar", "En curso"
  or "Completado". Every failure is collected and answered with 400. An
  accepted body goes on with its text trimmed and HTML-escaped.
- **Storage schema.** Text is trimmed and bounded. The long description
  defaults to "", `createdAt` to now and the status to "en curso". The status
  must be "en curso" or "completado". The due date must not be before the
  current instant. A user id is required.
- **Owner-scoped handlers.** List, get by id, get by title, create, update
  and delete each filter on the caller's user id. Responses carry dates
  formatted as DD/MM/YYYY.

Modules, one per file:

- `Wrappers`: Option and Result.
- `Text`: JavaScript trimming, ASCII case folding, splitting, decimal output and parsing.
- `Dates`: instants as local civil time, the calendar-day rule and the instant order.
- `Request`: the request body and the library behaviour the code calls but does not show.
- `DateFormat`: `formatDateToDDMMYYYY` and a reader for its output.
- `ValidateTask`: the validator middleware.
- `TaskSchema`: the Mongoose schema.
- `TaskController`: the `TaskStore` class. It holds the collection as a `seq` and a fresh-id counter.
- `TaskRoutes`: the validator placed in front of create and update.

Behaviours of the code the model keeps, where its layers disagree:

- **Status values.** The validator admits a three-state capitalised set. The
  schema admits a two-state lower-case set, defaulting to "en curso". The
  two sets share no value, so any body that carries a status is refused by
  the schema (`TaskRoutes.StatusNeverAdmitted`). Through the routes, every
  stored task therefore keeps the status "en curso".
- **Start date.** The schema has no start-date path. It is never stored, and
  every response shows it as null (`TaskController.View`).
- **Update body.** The body is applied as it is. Its `userId` key can hand a
  task to another user, and its `createdAt` key overwrites the creation
  time. Create, by contrast, always replaces `userId` with the caller's id.
- **Empty creation date.** `createdAt` is optional and has a default, but
  the default only applies when the key is absent. A body whose `createdAt`
  is the empty string passes the validator, which does not look at that key.
  The schema casts it to null, so the task is stored with no creation date
  and every response shows it as null. An empty due date also casts to null,
  and `required` refuses it.
- **Date order.** Only the update handler checks that the start date is not
  after the due date, and it compares instants. The validator checks each
  date on its own and compares calendar days.
- **Two date rules.** The schema's due-date rule compares instants, so a due
  date at midnight today passes the validator and then fails the schema
  (`TaskRoutes.MidnightDueDateRefusedByStore`).
- **PUT needs every required field.** The validator runs before update too,
  so a PUT must carry all four required keys (`TaskRoutes.AcceptedBodyIsComplete`).
- **Bounds are checked at different times.** The validator checks raw
  lengths before trimming and escaping. The schema checks the stored value
  after escaping. A title of spaces passes the first check and fails the
  second (`TaskRoutes.BlankTitleRefusedByStore`).

## Model

| member | source | states |
|---|---|---|
| `DateFormat.FormatDate` | controllers/taskController.js:6-13 | null exactly when the date is missing or invalid; otherwise a string with "/" at positions 2 and 5 |
| `DateFormat.FormatRoundTrip` | controllers/taskController.js:8-12 | splitting the formatted date on "/" gives back the day, the one-based month and the year |
| `Text.TwoDigitsRoundTrip` | controllers/taskController.js:9-10 | a day or month padded to two digits is two digit characters that read back as the number |
| `Text.IntToStringRoundTrip` | controllers/taskController.js:11-12 | the year, written in decimal with a sign when negative, reads back as the same integer |
| `Text.EqualsIgnoreCaseIffLower` | controllers/taskController.js:76-79 | a title matches ignoring case exactly when both lower-case to the same string, so only titles of the same length match |
| `Text.EqualsIgnoreCaseEquivalence` | controllers/taskController.js:76-79 | matching ignoring case is reflexive, symmetric and transitive |
| `Text.FoldIdentifiesCases` | controllers/taskController.js:77 | a Latin letter and its upper-case form fold alike; a character that is not a Latin letter folds alike only with itself |
| `Text.Lower` | controllers/taskController.js:77 | lower-casing keeps the length, keeps every character or replaces an upper-case Latin letter by its lower-case form, and leaves no upper-case Latin letter |
| `TaskController.View` | controllers/taskController.js:19-24 | a response carries the stored id, owner, title, description, long description and status; its start date is always null because no start date is stored; for a valid document the due date is present and the creation date is present exactly when one is stored |
| `TaskController.ViewDatesReadBack` | controllers/taskController.js:56-61 | the formatted due date, and the formatted creation date when one is stored, read back as the stored day, month and year |
| `TaskController.Find` | controllers/taskController.js:17 | a query returns exactly the matching documents, each with its stored multiplicity, never more than stored |
| `TaskController.FindOne` | controllers/taskController.js:43-46 | a single-document query yields the first matching position, or nothing exactly when no document matches |
| `TaskController.FindAppended` | controllers/taskController.js:119-124 | a task saved under a fresh id is then found by that id and its owner (create then get by id) |
| `TaskController.ForeignTaskNotFound` | controllers/taskController.js:43-54 | with unique ids, another user asking for a task's id finds nothing |
| `TaskController.RemoveExactlyOne` | controllers/taskController.js:201-204 | removing the matched position leaves no document with that id and keeps every other one |
| `TaskController.TaskStore.GetAll` | controllers/taskController.js:15-28 | the reply lists one formatted view per stored task of the caller, and only the caller's tasks |
| `TaskController.TaskStore.GetById` | controllers/taskController.js:41-72 | 404 exactly when no stored task has both the id and the caller as owner; otherwise that task's view; an id that cannot be cast gives 500 |
| `TaskController.TaskStore.GetByTitle` | controllers/taskController.js:74-98 | 404 exactly when none of the caller's tasks has the title ignoring case; otherwise the first such task, whose title has the parameter's length |
| `TaskController.TaskStore.Create` | controllers/taskController.js:111-144 | no caller id gives 400 with nothing stored; otherwise the body with the caller's id as owner is appended under a fresh id (201), or 400 when the schema refuses it |
| `TaskController.TaskStore.Save` | controllers/taskController.js:122-124 | the new document is stored last under the next fresh id, the counter advances, the store invariant is kept, and a lookup by that id and owner finds it there |
| `TaskController.TaskStore.Update` | controllers/taskController.js:146-197 | start after due gives 400 with no change; a bad id or a failing set path gives 400; no owned match gives 404; otherwise only the matched document changes, to the body merged in |
| `TaskController.TaskStore.Replace` | controllers/taskController.js:163-167 | the matched position receives the merged document under its own id; every other document and the id counter stay as they were, and the store invariant is kept |
| `TaskController.TaskStore.Delete` | controllers/taskController.js:199-225 | removes exactly the document matching id and caller and acknowledges with no payload, or 404 with no change; all other documents remain |
| `ValidateTask.Validate` | middleware/validateTask.js:60-65 | a rejection carries a non-empty error list; an accepted body has its text trimmed and escaped and every other key unchanged |
| `ValidateTask.ErrorsExact` | middleware/validateTask.js:3-59 | an error is reported exactly when the rule it names is broken for its key |
| `ValidateTask.RejectedIffViolation` | middleware/validateTask.js:3-66 | the request is rejected exactly when some rule is broken |
| `ValidateTask.FieldErrorsExact` | middleware/validateTask.js:3-59 | one key's chain reports an error exactly when the rule it names is broken for that key |
| `ValidateTask.DateErrorsExact` | middleware/validateTask.js:26-55 | a date key's errors are: missing or empty, not ISO 8601, or parsing to a calendar day before today |
| `ValidateTask.TitleLengthIsRaw` | middleware/validateTask.js:4-10 | the title bound applies before trimming: fifty letters and a space are rejected |
| `ValidateTask.DayRuleBoundary` | middleware/validateTask.js:26-40 | a start date on today's date passes at any time of day; one on an earlier day fails |
| `ValidateTask.DueDateIndependentOfStart` | middleware/validateTask.js:41-55 | the due-date errors do not depend on the start date |
| `Dates.TodayOrLaterIsByDay` | middleware/validateTask.js:31-39 | the midnight-to-midnight comparison passes exactly when the candidate's calendar day is not before today's |
| `Dates.TicksFollowCalendar` | models/Task.js:31-34 | the instant order is by calendar day first and time of day second |
| `Dates.DayRuleAdmitsPastInstant` | models/Task.js:29-38 | after midnight, today's midnight passes the day rule but lies before the current instant |
| `Text.Trim` | middleware/validateTask.js:9 | the result is a contiguous piece of the input with no whitespace at either end, and everything cut off on either side is whitespace |
| `Text.TrimIdempotent` | models/Task.js:7 | the schema's trim of a value the validator already trimmed changes nothing |
| `Text.TrimAllSpace` | models/Task.js:5-7 | a value of only whitespace trims to the empty string |
| `TaskSchema.NewRecord` | models/Task.js:3-49 | a saved document is valid and due no earlier than now, has trimmed text, the given owner, the cast due date and creation date (null for an empty creation date), and the defaults for absent keys; a refusal lists its errors |
| `TaskSchema.NewRecordIffAdmissible` | models/Task.js:3-49 | a new document is stored exactly when every path satisfies its rule |
| `TaskSchema.ApplyUpdate` | controllers/taskController.js:163-167 | an update runs only the validators of the keys it sets; if they pass, exactly those keys change, to the trimmed text or the cast date (null for an empty creation date), owner and creation time included, and validity is kept |
| `TaskRoutes.AcceptedBodyIsComplete` | routes/task.js:20-27 | a body that passes the validator sets all four required keys, on an update too |
| `TaskRoutes.StatusEnumsDisjoint` | models/Task.js:39-43 | no status value admitted by the validator is admitted by the schema |
| `TaskRoutes.StatusNeverAdmitted` | middleware/validateTask.js:56-59 | a validated body carrying a status is refused by the schema on create and on update |
| `TaskRoutes.BlankTitleRefusedByStore` | models/Task.js:4-9 | a title of spaces passes the validator but is refused by the schema's `required` once trimmed |
| `TaskRoutes.MidnightDueDateRefusedByStore` | models/Task.js:29-38 | a due date at midnight today passes the validator but is refused by the schema once the day has begun |
| `TaskRoutes.PostTask` | routes/task.js:12-19 | a validator rejection gives 400 and nothing stored; an accepted body reaches createTask sanitised, with its outcome (400 without a caller, 400 on a schema refusal, or 201 and an append under a fresh id); a body with a status is never created; tasks keep the default status |
| `TaskRoutes.PutTask` | routes/task.js:20-27 | a validator rejection gives 400 with no change; an accepted body reaches updateTask sanitised, with its outcome (400 for start after due, a bad id or a failing path, 404 with no owned match, or the merged document); a success needed all four required keys and may hand the task to the body's user id; a status in the body is always refused |

## Left out

- Logging, Express wiring, CORS, the anti-forgery cookie, rate limiting, Swagger and the database connection are not modelled. The identity-service call is not modelled either: the caller's id is a parameter.
- The current time is a parameter. One `now` serves both the validator's "today" and the schema's instant within a request.
- JavaScript date parsing is the abstract `Host.parseDate`, and the ISO 8601 syntax check is the abstract `Host.isIso8601`. Only two facts are fixed: the empty string is not a date, and it is not ISO 8601.
- The schema's Date cast is taken to agree with `new Date(text)`: one `Host.parseDate` serves the validator, the update handler's date check and the schema. Mongoose's cast reads an all-digit string of 275761 or more as milliseconds, which `new Date` does not, so a due date such as "20271231" is read as the same instant by both layers here, though the schema would refuse it.
- Instants are local civil times. Time zones, daylight-saving shifts and the UTC reading of date-only ISO strings are not modelled.
- HTML escaping is the abstract `Host.escape`. Its entity table belongs to the validation library. The model therefore does not show that escaping can push a title over the schema's 50-character bound.
- Body values are strings, and a body `userId` is an id the database can cast. Numbers, arrays, `null` and uncastable user ids in a body are not modelled.
- ObjectId generation is a counter. Mongoose document metadata (`_id` in a body, `__v`) is not modelled.
- Database failures are not modelled. The 500 replies that come only from them (list, get by title) never occur in the model. The 500 replies for a get or delete with an id that cannot be cast are modelled.
- Lengths count Unicode code points. The validator's `isLength` also counts a surrogate pair as one character, but it does not count the variation selectors U+FE0E and U+FE0F, which the model does count. The schema's `maxlength` counts UTF-16 code units, so a character outside the Basic Multilingual Plane counts twice there and once in the model.
- Requests run one at a time. Concurrency and last-write-wins between requests are not modelled.
- `TaskController.TaskStore.GetByTitle`: reads the title parameter as literal text. The handler builds an unescaped regular expression from it, so a title containing metacharacters matches differently, and an invalid pattern gives 500. Case folding covers ASCII letters only.
- `TaskSchema.ApplyUpdate`: assumes the schema's trim setter applies to update queries and that `required` fails on a path set to an empty string. This is Mongoose behaviour, which is not part of this model.
