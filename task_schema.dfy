/**
 * The storage schema of a task: which keys are required, the bounds and the
 * trimming of the text keys, the defaults, the status enumeration and the
 * due-date rule, applied when a document is created and, path by path, when
 * an update sets some of its keys.
 *
 * The schema declares no start date: a `startDate` key in a body is dropped
 * and never stored.
 */
module TaskSchema {
  import opened Wrappers
  import opened Text
  import opened Dates
  import opened Request

  const TitleMax: nat := 50
  const DescriptionMax: nat := 200
  const LongDescriptionMax: nat := 2000

  /** The status values the schema admits (lower case, two of them). */
  const StatusValues: seq<string> := ["en curso", "completado"]
  const DefaultStatus: string := "en curso"

  datatype Path = TitlePath | DescriptionPath | LongDescriptionPath | CreatedAtPath
                | DueDatePath | StatusPath | UserIdPath | IdPath

  /** A failed `required`, `maxlength`, cast, due-date validator or `enum`. */
  datatype Kind = Required | MaxLength(limit: nat) | Cast | NotFuture | NotInEnum

  datatype SchemaError = SchemaError(path: Path, kind: Kind)

  /**
   * A stored task document, without its id. `createdAt` is not required: a
   * body that sets it to the empty string stores null there.
   */
  datatype TaskRecord = TaskRecord(
    title: string,
    description: string,
    longDescription: string,
    createdAt: Option<Instant>,
    dueDate: Instant,
    status: string,
    userId: UserId)

  /** What every stored document satisfies, whatever the time. */
  predicate Valid(r: TaskRecord) {
    && IsTrimmed(r.title) && 0 < |r.title| <= TitleMax
    && IsTrimmed(r.description) && 0 < |r.description| <= DescriptionMax
    && IsTrimmed(r.longDescription) && |r.longDescription| <= LongDescriptionMax
    && (r.createdAt.Some? ==> Dates.Valid(r.createdAt.value)) && Dates.Valid(r.dueDate)
    && r.status in StatusValues
  }

  /** Valid, and due no earlier than the instant `now` (not merely today). */
  predicate ValidAt(r: TaskRecord, now: Instant) {
    Valid(r) && !Before(r.dueDate, now)
  }

  /** A text path that is set: trimmed, then `required` (for required paths) and `maxlength`. */
  function TextErrors(p: Path, v: Option<string>, required: bool, max: nat): seq<SchemaError> {
    if v.None? then []
    else
      (if required && Trim(v.value) == "" then [SchemaError(p, Required)] else []) +
      (if |Trim(v.value)| > max then [SchemaError(p, MaxLength(max))] else [])
  }

  /**
   * A due date that is set: the empty string casts to null, which `required`
   * refuses; anything else must cast to a date, and that instant must not be
   * before `now`.
   */
  function DueDateErrors(v: Option<string>, now: Instant, host: Host): seq<SchemaError> {
    if v.None? then []
    else if v.value == "" then [SchemaError(DueDatePath, Required)]
    else match CastDate(host, v.value)
      case None => [SchemaError(DueDatePath, Cast)]
      case Some(d) => if Before(d, now) then [SchemaError(DueDatePath, NotFuture)] else []
  }

  /** A creation date that is set: the empty string casts to null, which the optional path accepts; anything else must cast. */
  function CreatedAtErrors(v: Option<string>, host: Host): seq<SchemaError> {
    if v.Some? && v.value != "" && CastDate(host, v.value).None? then [SchemaError(CreatedAtPath, Cast)] else []
  }

  function StatusErrors(v: Option<string>): seq<SchemaError> {
    if v.Some? && v.value !in StatusValues then [SchemaError(StatusPath, NotInEnum)] else []
  }

  /** The validators of every path the body sets; what an update with `runValidators` checks. */
  function SetPathErrors(b: Body, now: Instant, host: Host): seq<SchemaError> {
    TextErrors(TitlePath, b.title, true, TitleMax) +
    TextErrors(DescriptionPath, b.description, true, DescriptionMax) +
    TextErrors(LongDescriptionPath, b.longDescription, false, LongDescriptionMax) +
    CreatedAtErrors(b.createdAt, host) +
    DueDateErrors(b.dueDate, now, host) +
    StatusErrors(b.status)
  }

  /** The required paths a new document lacks. */
  function MissingErrors(b: Body): seq<SchemaError> {
    (if b.title.None? then [SchemaError(TitlePath, Required)] else []) +
    (if b.description.None? then [SchemaError(DescriptionPath, Required)] else []) +
    (if b.dueDate.None? then [SchemaError(DueDatePath, Required)] else []) +
    (if b.userId.None? then [SchemaError(UserIdPath, Required)] else [])
  }

  /** A set date path's value, or `fallback` when the body leaves it out. */
  function DateOr(host: Host, v: Option<string>, fallback: Instant): Instant {
    if v.Some? && CastDate(host, v.value).Some? then CastDate(host, v.value).value else fallback
  }

  /** The creation date a set `createdAt` key stores (null for the empty string), or `fallback` when the body leaves it out. */
  function CreatedAtOr(host: Host, v: Option<string>, fallback: Option<Instant>): Option<Instant> {
    if v.Some? then CastDate(host, v.value) else fallback
  }

  /** A set text path's trimmed value, or `fallback`. */
  function TextOr(v: Option<string>, fallback: string): string {
    if v.Some? then Trim(v.value) else fallback
  }

  /** When a new document is accepted, stated path by path. */
  predicate Admissible(b: Body, now: Instant, host: Host) {
    && b.title.Some? && 0 < |Trim(b.title.value)| <= TitleMax
    && b.description.Some? && 0 < |Trim(b.description.value)| <= DescriptionMax
    && (b.longDescription.Some? ==> |Trim(b.longDescription.value)| <= LongDescriptionMax)
    && (b.createdAt.Some? && b.createdAt.value != "" ==> CastDate(host, b.createdAt.value).Some?)
    && b.dueDate.Some? && CastDate(host, b.dueDate.value).Some?
    && !Before(CastDate(host, b.dueDate.value).value, now)
    && (b.status.Some? ==> b.status.value in StatusValues)
    && b.userId.Some?
  }

  /**
   * `new Task(body).save()`: the defaults filled in (an empty long
   * description, `createdAt` = now, the default status), the text trimmed,
   * and every validator run.
   */
  function NewRecord(b: Body, now: Instant, host: Host): (r: Result<TaskRecord, seq<SchemaError>>)
    requires Dates.Valid(now)
    ensures r.Failure? ==> r.error != []
    ensures r.Success? ==> ValidAt(r.value, now) && b.userId == Some(r.value.userId)
    ensures r.Success? ==> b.title.Some? && r.value.title == Trim(b.title.value)
    ensures r.Success? ==> b.description.Some? && r.value.description == Trim(b.description.value)
    ensures r.Success? ==> r.value.longDescription == if b.longDescription.None? then "" else Trim(b.longDescription.value)
    ensures r.Success? && b.createdAt.None? ==> r.value.createdAt == Some(now)
    ensures r.Success? && b.createdAt == Some("") ==> r.value.createdAt.None?
    ensures r.Success? && b.createdAt.Some? && b.createdAt.value != "" ==>
      r.value.createdAt.Some? && CastDate(host, b.createdAt.value) == r.value.createdAt
    ensures r.Success? ==> b.dueDate.Some? && CastDate(host, b.dueDate.value) == Some(r.value.dueDate)
    ensures r.Success? ==> r.value.status == if b.status.None? then DefaultStatus else b.status.value
  {
    var es := MissingErrors(b) + SetPathErrors(b, now, host);
    if es != [] then Failure(es)
    else
      ErrorFreeIffAdmissible(b, now, host);
      Success(TaskRecord(
        Trim(b.title.value),
        Trim(b.description.value),
        TextOr(b.longDescription, ""),
        CreatedAtOr(host, b.createdAt, Some(now)),
        CastDate(host, b.dueDate.value).value,
        if b.status.Some? then b.status.value else DefaultStatus,
        b.userId.value))
  }

  /** No validator fails and no required path is missing exactly when the body is admissible. */
  lemma ErrorFreeIffAdmissible(b: Body, now: Instant, host: Host)
    ensures MissingErrors(b) + SetPathErrors(b, now, host) == [] <==> Admissible(b, now, host)
  {
    var t := TextErrors(TitlePath, b.title, true, TitleMax);
    var d := TextErrors(DescriptionPath, b.description, true, DescriptionMax);
    var l := TextErrors(LongDescriptionPath, b.longDescription, false, LongDescriptionMax);
    var c := CreatedAtErrors(b.createdAt, host);
    var u := DueDateErrors(b.dueDate, now, host);
    var st := StatusErrors(b.status);
    assert SetPathErrors(b, now, host) == t + d + l + c + u + st;
    assert MissingErrors(b) + SetPathErrors(b, now, host) == [] <==>
      MissingErrors(b) == [] && t == [] && d == [] && l == [] && c == [] && u == [] && st == [];
  }

  /** A new document is stored exactly when the body is admissible. */
  lemma NewRecordIffAdmissible(b: Body, now: Instant, host: Host)
    requires Dates.Valid(now)
    ensures NewRecord(b, now, host).Success? <==> Admissible(b, now, host)
  {
    ErrorFreeIffAdmissible(b, now, host);
  }

  /** The document after an update: each key the body sets replaces the stored one, the rest stay. */
  function Merge(prior: TaskRecord, b: Body, host: Host): TaskRecord {
    TaskRecord(
      TextOr(b.title, prior.title),
      TextOr(b.description, prior.description),
      TextOr(b.longDescription, prior.longDescription),
      CreatedAtOr(host, b.createdAt, prior.createdAt),
      DateOr(host, b.dueDate, prior.dueDate),
      if b.status.Some? then b.status.value else prior.status,
      if b.userId.Some? then b.userId.value else prior.userId)
  }

  /**
   * `findOneAndUpdate(filter, body, {runValidators: true})` on one document:
   * only the validators of the paths the body sets run; if they pass, the
   * body is merged in. The `userId` and `createdAt` keys are applied too.
   */
  function ApplyUpdate(prior: TaskRecord, b: Body, now: Instant, host: Host): (r: Result<TaskRecord, seq<SchemaError>>)
    ensures r.Failure? ==> r.error != [] && r.error == SetPathErrors(b, now, host)
    ensures r.Success? && Valid(prior) ==> Valid(r.value)
    ensures r.Success? && b.dueDate.Some? ==> !Before(r.value.dueDate, now)
    ensures r.Success? ==> r.value.title == (if b.title.Some? then Trim(b.title.value) else prior.title)
    ensures r.Success? ==> r.value.description == (if b.description.Some? then Trim(b.description.value) else prior.description)
    ensures r.Success? ==> r.value.longDescription == (if b.longDescription.Some? then Trim(b.longDescription.value) else prior.longDescription)
    ensures r.Success? ==> r.value.status == (if b.status.Some? then b.status.value else prior.status)
    ensures r.Success? ==> r.value.userId == (if b.userId.Some? then b.userId.value else prior.userId)
    ensures r.Success? && b.dueDate.None? ==> r.value.dueDate == prior.dueDate
    ensures r.Success? && b.dueDate.Some? ==> CastDate(host, b.dueDate.value) == Some(r.value.dueDate)
    ensures r.Success? && b.createdAt.None? ==> r.value.createdAt == prior.createdAt
    ensures r.Success? && b.createdAt == Some("") ==> r.value.createdAt.None?
    ensures r.Success? && b.createdAt.Some? && b.createdAt.value != "" ==>
      r.value.createdAt.Some? && CastDate(host, b.createdAt.value) == r.value.createdAt
  {
    var es := SetPathErrors(b, now, host);
    if es != [] then Failure(es)
    else
      assert TextErrors(TitlePath, b.title, true, TitleMax) == [];
      assert TextErrors(DescriptionPath, b.description, true, DescriptionMax) == [];
      assert TextErrors(LongDescriptionPath, b.longDescription, false, LongDescriptionMax) == [];
      assert CreatedAtErrors(b.createdAt, host) == [];
      assert DueDateErrors(b.dueDate, now, host) == [];
      assert StatusErrors(b.status) == [];
      Success(Merge(prior, b, host))
  }
}
