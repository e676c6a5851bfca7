/**
 * The create and update routes: the request validator runs first and its
 * rejection answers 400 before the handler is reached; an accepted body is
 * handed on sanitised. Reads and deletes are not validated and go straight
 * to the store. The lemmas here follow a body across both layers and show
 * where the validator and the schema disagree.
 */
module TaskRoutes {
  import opened Wrappers
  import opened Text
  import opened Dates
  import opened Request
  import opened TaskSchema
  import opened TaskController
  import ValidateTask

  /** A body the validator accepts sets all four required keys, on an update as much as on a create. */
  lemma AcceptedBodyIsComplete(b: Body, now: Instant, host: Host)
    requires ValidateTask.Validate(b, now, host).Success?
    ensures Truthy(b.title) && Truthy(b.description) && Truthy(b.startDate) && Truthy(b.dueDate)
    ensures IsIso8601(host, b.startDate.value) && IsIso8601(host, b.dueDate.value)
  {
    assert ValidateTask.Errors(b, now, host) == [];
    assert ValidateTask.ErrorsOf(b, now, host, ValidateTask.Title) == [];
    assert ValidateTask.ErrorsOf(b, now, host, ValidateTask.Description) == [];
    assert ValidateTask.ErrorsOf(b, now, host, ValidateTask.StartDate) == [];
    assert ValidateTask.ErrorsOf(b, now, host, ValidateTask.DueDate) == [];
  }

  /** No status value is admitted by both the validator and the schema. */
  lemma StatusEnumsDisjoint(s: string)
    requires s in ValidateTask.Statuses
    ensures s !in StatusValues
  {
    assert StatusValues[0][0] == 'e' && StatusValues[1][0] == 'c';
    assert ValidateTask.Statuses[0][0] == 'S';
    assert ValidateTask.Statuses[1][0] == 'E';
    assert ValidateTask.Statuses[2][0] == 'C';
  }

  /**
   * A body that carries a status and passes the validator is refused by the
   * schema, on a create and on an update alike.
   */
  lemma StatusNeverAdmitted(b: Body, now: Instant, host: Host, owner: Option<UserId>)
    requires Dates.Valid(now)
    requires ValidateTask.Validate(b, now, host).Success? && b.status.Some?
    ensures SetPathErrors(ValidateTask.Validate(b, now, host).value, now, host) != []
    ensures NewRecord(ValidateTask.Validate(b, now, host).value.(userId := owner), now, host).Failure?
  {
    var p := ValidateTask.Validate(b, now, host).value;
    assert ValidateTask.ErrorsOf(b, now, host, ValidateTask.Status) == [];
    StatusEnumsDisjoint(b.status.value);
    assert TaskSchema.StatusErrors(p.status) != [];
    var q := p.(userId := owner);
    assert TaskSchema.StatusErrors(q.status) != [];
  }

  /**
   * A title of spaces passes the validator, which only asks for a non-empty
   * raw value; trimmed, it is empty, and the schema's `required` refuses it.
   */
  lemma BlankTitleRefusedByStore(b: Body, now: Instant, host: Host, owner: Option<UserId>)
    requires Dates.Valid(now)
    requires b.title.Some? && 0 < |b.title.value| <= ValidateTask.TitleMax
    requires forall i :: 0 <= i < |b.title.value| ==> IsSpace(b.title.value[i])
    requires host.escape("") == ""
    ensures ValidateTask.ErrorsOf(b, now, host, ValidateTask.Title) == []
    ensures ValidateTask.Validate(b, now, host).Success? ==>
      NewRecord(ValidateTask.Validate(b, now, host).value.(userId := owner), now, host).Failure?
  {
    TrimAllSpace(b.title.value);
    if ValidateTask.Validate(b, now, host).Success? {
      var q := ValidateTask.Validate(b, now, host).value.(userId := owner);
      assert q.title == Some("");
      assert TextErrors(TitlePath, q.title, true, TaskSchema.TitleMax) != [];
    }
  }

  /**
   * A due date at midnight today passes the validator's day rule, yet once
   * the day has begun the schema, comparing instants, refuses it.
   */
  lemma MidnightDueDateRefusedByStore(b: Body, now: Instant, host: Host, owner: Option<UserId>)
    requires Dates.Valid(now) && now.millis > 0
    requires b.dueDate.Some? && CastDate(host, b.dueDate.value) == Some(StartOfDay(now))
    ensures ValidateTask.FieldError(ValidateTask.DueDate, ValidateTask.TodayOrLater) !in ValidateTask.Errors(b, now, host)
    ensures ValidateTask.Validate(b, now, host).Success? ==>
      NewRecord(ValidateTask.Validate(b, now, host).value.(userId := owner), now, host).Failure?
  {
    DayRuleAdmitsPastInstant(now);
    var e := ValidateTask.FieldError(ValidateTask.DueDate, ValidateTask.TodayOrLater);
    ValidateTask.ErrorsByField(b, now, host, e);
    assert e !in ValidateTask.DateErrors(ValidateTask.DueDate, b.dueDate, now, host);
    if ValidateTask.Validate(b, now, host).Success? {
      var q := ValidateTask.Validate(b, now, host).value.(userId := owner);
      assert q.dueDate == b.dueDate;
      assert DueDateErrors(q.dueDate, now, host) != [];
      assert SetPathErrors(q, now, host) != [];
    }
  }

  predicate AllDefaultStatus(ts: seq<StoredTask>) {
    forall i :: 0 <= i < |ts| ==> ts[i].rec.status == DefaultStatus
  }

  lemma DefaultStatusAppend(ts: seq<StoredTask>, t: StoredTask)
    requires t.rec.status == DefaultStatus
    ensures AllDefaultStatus(ts) ==> AllDefaultStatus(ts + [t])
  {
  }

  /** `POST /`: the validator, then `createTask` with the sanitised body. */
  method PostTask(store: TaskStore, caller: Option<UserId>, body: Body, now: Instant, host: Host) returns (r: Response)
    requires store.Valid() && Dates.Valid(now)
    modifies store
    ensures store.Valid()
    ensures ValidateTask.Validate(body, now, host).Failure? ==>
      && r == BadRequest(Rejected(ValidateTask.Validate(body, now, host).error))
      && store.tasks == old(store.tasks) && store.nextId == old(store.nextId)
    ensures ValidateTask.Validate(body, now, host).Success? ==>
      var p := ValidateTask.Validate(body, now, host).value;
      if caller.None? then
        r == BadRequest(MissingUser) && store.tasks == old(store.tasks) && store.nextId == old(store.nextId)
      else
        match NewRecord(p.(userId := caller), now, host)
        case Failure(es) => r == BadRequest(Invalid(es)) && store.tasks == old(store.tasks) && store.nextId == old(store.nextId)
        case Success(rec) =>
          && store.tasks == old(store.tasks) + [StoredTask(old(store.nextId), rec)]
          && store.nextId == old(store.nextId) + 1
          && r == Created(View(StoredTask(old(store.nextId), rec)))
    ensures !r.Created? ==> store.tasks == old(store.tasks)
    ensures r.Created? ==>
      && caller.Some? && ValidateTask.Validate(body, now, host).Success?
      && |store.tasks| == |old(store.tasks)| + 1 && store.tasks[..|old(store.tasks)|] == old(store.tasks)
      && NewRecord(ValidateTask.Validate(body, now, host).value.(userId := caller), now, host)
           == Success(store.tasks[|old(store.tasks)|].rec)
    ensures body.status.Some? ==> !r.Created?
    ensures AllDefaultStatus(old(store.tasks)) ==> AllDefaultStatus(store.tasks)
  {
    var v := ValidateTask.Validate(body, now, host);
    if v.Failure? {
      return BadRequest(Rejected(v.error));
    }
    var p := v.value;
    if body.status.Some? {
      StatusNeverAdmitted(body, now, host, caller);
    }
    ghost var before := store.tasks;
    r := store.Create(caller, p, now, host);
    if r.Created? {
      assert body.status.None? && p.status.None?;
      var rec := store.tasks[|before|].rec;
      assert NewRecord(p.(userId := caller), now, host) == Success(rec);
      assert rec.status == DefaultStatus;
      DefaultStatusAppend(before, store.tasks[|before|]);
      assert store.tasks == before + [store.tasks[|before|]];
    }
  }

  /** `PUT /:id`: the validator, then `updateTask` with the sanitised body. */
  method PutTask(store: TaskStore, caller: UserId, id: IdParam, body: Body, now: Instant, host: Host) returns (r: Response)
    requires store.Valid() && Dates.Valid(now)
    modifies store
    ensures store.Valid() && store.nextId == old(store.nextId)
    ensures ValidateTask.Validate(body, now, host).Failure? ==>
      r == BadRequest(Rejected(ValidateTask.Validate(body, now, host).error)) && store.tasks == old(store.tasks)
    ensures ValidateTask.Validate(body, now, host).Success? ==>
      var p := ValidateTask.Validate(body, now, host).value;
      if StartsAfterDue(p, host) then r == BadRequest(StartAfterDue)
      else if id.Malformed? then r == BadRequest(Invalid([SchemaError(IdPath, Cast)]))
      else if SetPathErrors(p, now, host) != [] then r == BadRequest(Invalid(SetPathErrors(p, now, host)))
      else
        match FindOne(old(store.tasks), IdOf(id.value, caller))
        case None => r == NotFound
        case Some(i) =>
          && store.tasks == old(store.tasks)[i := StoredTask(id.value, Merge(old(store.tasks)[i].rec, p, host))]
          && r == Ok(One(View(store.tasks[i])))
    ensures !r.Ok? ==> store.tasks == old(store.tasks)
    ensures r.Ok? ==> Truthy(body.title) && Truthy(body.description) && Truthy(body.startDate) && Truthy(body.dueDate)
    ensures body.status.Some? ==> r.BadRequest? && store.tasks == old(store.tasks)
    ensures r.Ok? ==> id.ObjectId? && |store.tasks| == |old(store.tasks)|
    ensures r.Ok? ==>
      exists i :: 0 <= i < |store.tasks| && old(store.tasks)[i].id == id.value && old(store.tasks)[i].rec.userId == caller &&
        store.tasks[i].rec.userId == (if body.userId.Some? then body.userId.value else caller)
    ensures AllDefaultStatus(old(store.tasks)) ==> AllDefaultStatus(store.tasks)
  {
    var v := ValidateTask.Validate(body, now, host);
    if v.Failure? {
      return BadRequest(Rejected(v.error));
    }
    var p := v.value;
    AcceptedBodyIsComplete(body, now, host);
    if body.status.Some? {
      StatusNeverAdmitted(body, now, host, None);
    }
    ghost var before := store.tasks;
    r := store.Update(caller, id, p, now, host);
    if r.Ok? {
      ghost var i :| 0 <= i < |store.tasks| && before[i].id == id.value && before[i].rec.userId == caller &&
        store.tasks[i] == StoredTask(id.value, Merge(before[i].rec, p, host)) &&
        (forall j :: 0 <= j < |store.tasks| && j != i ==> store.tasks[j] == before[j]);
      assert body.status.None? && p.status.None? && p.userId == body.userId;
      assert store.tasks[i].rec.status == before[i].rec.status;
      assert store.tasks[i].rec.userId == (if body.userId.Some? then body.userId.value else caller);
      if AllDefaultStatus(before) {
        forall k | 0 <= k < |store.tasks| ensures store.tasks[k].rec.status == DefaultStatus {
          if k != i { assert store.tasks[k] == before[k]; }
        }
      }
    }
  }
}
