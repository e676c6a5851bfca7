/**
 * The task handlers over an in-memory collection standing for the database:
 * every query is scoped to the caller's user id, responses carry their dates
 * formatted as DD/MM/YYYY, and the outcomes are the handlers' status codes.
 */
module TaskController {
  import opened Wrappers
  import opened Text
  import opened Dates
  import opened Request
  import opened DateFormat
  import opened TaskSchema
  import ValidateTask

  type TaskId = nat

  datatype StoredTask = StoredTask(id: TaskId, rec: TaskRecord)

  /** The `:id` route parameter: an id the database can cast, or text it cannot. */
  datatype IdParam = ObjectId(value: TaskId) | Malformed

  /** A task as a response shows it: the stored keys, with the three date keys formatted. */
  datatype TaskView = TaskView(
    id: TaskId,
    title: string,
    description: string,
    longDescription: string,
    status: string,
    userId: UserId,
    startDate: Option<string>,
    dueDate: Option<string>,
    createdAt: Option<string>)

  datatype Payload = Tasks(views: seq<TaskView>) | One(view: TaskView) | Deleted

  /** Why a request was answered with 400. */
  datatype Reason =
    | MissingUser
    | StartAfterDue
    | Rejected(fieldErrors: seq<ValidateTask.FieldError>)
    | Invalid(errors: seq<SchemaError>)

  datatype Response = Ok(payload: Payload) | Created(view: TaskView) | NotFound | BadRequest(reason: Reason) | ServerError

  /**
   * The response shape of a stored task. The schema has no start date, so
   * `startDate` is always formatted from a missing value, which gives null;
   * a null creation date is shown as null too.
   */
  function View(t: StoredTask): (v: TaskView)
    ensures v.id == t.id && v.userId == t.rec.userId && v.title == t.rec.title
    ensures v.description == t.rec.description && v.longDescription == t.rec.longDescription && v.status == t.rec.status
    ensures v.startDate.None?
    ensures TaskSchema.Valid(t.rec) ==> v.dueDate.Some? && (v.createdAt.Some? <==> t.rec.createdAt.Some?)
  {
    TaskView(t.id, t.rec.title, t.rec.description, t.rec.longDescription, t.rec.status, t.rec.userId,
             FormatDate(None), FormatDate(Some(t.rec.dueDate)), FormatDate(t.rec.createdAt))
  }

  /** The formatted due date and creation date of a stored task read back as that task's day, month and year. */
  lemma ViewDatesReadBack(t: StoredTask)
    requires TaskSchema.Valid(t.rec)
    ensures ParseDisplay(View(t).dueDate.value) == Some(DayMonthYear(t.rec.dueDate.day, t.rec.dueDate.month + 1, t.rec.dueDate.year))
    ensures t.rec.createdAt.Some? ==>
      var c := t.rec.createdAt.value;
      ParseDisplay(View(t).createdAt.value) == Some(DayMonthYear(c.day, c.month + 1, c.year))
  {
    FormatRoundTrip(t.rec.dueDate);
    if t.rec.createdAt.Some? {
      FormatRoundTrip(t.rec.createdAt.value);
    }
  }

  /** The query filters the handlers use; each one carries the caller's id. */
  datatype Filter = OwnedBy(owner: UserId) | IdOf(id: TaskId, owner: UserId) | TitleOf(title: string, owner: UserId)

  /** A document matches only if it belongs to the filter's owner. */
  predicate Matches(t: StoredTask, f: Filter) {
    t.rec.userId == f.owner &&
    match f
    case OwnedBy(_) => true
    case IdOf(id, _) => t.id == id
    case TitleOf(title, _) => EqualsIgnoreCase(t.rec.title, title)
  }

  /** `Task.find(filter)`: the matching documents in stored order, each as often as it is stored. */
  function Find(ts: seq<StoredTask>, f: Filter): (r: seq<StoredTask>)
    ensures |r| <= |ts|
    ensures forall t :: t in r <==> t in ts && Matches(t, f)
    ensures forall t :: multiset(r)[t] == if Matches(t, f) then multiset(ts)[t] else 0
  {
    if ts == [] then []
    else
      assert ts == [ts[0]] + ts[1..];
      if Matches(ts[0], f) then [ts[0]] + Find(ts[1..], f) else Find(ts[1..], f)
  }

  /** `Task.findOne(filter)`: the position of the first matching document. */
  function FindOne(ts: seq<StoredTask>, f: Filter): (r: Option<nat>)
    ensures r.Some? ==> r.value < |ts| && Matches(ts[r.value], f)
    ensures r.Some? ==> forall j :: 0 <= j < r.value ==> !Matches(ts[j], f)
    ensures r.None? <==> forall j :: 0 <= j < |ts| ==> !Matches(ts[j], f)
  {
    if ts == [] then None
    else if Matches(ts[0], f) then Some(0)
    else match FindOne(ts[1..], f)
      case Some(k) => Some(k + 1)
      case None => None
  }

  predicate UniqueIds(ts: seq<StoredTask>) {
    forall i, j :: 0 <= i < j < |ts| ==> ts[i].id != ts[j].id
  }

  /** A task stored under a fresh id is found by its id and its owner: create followed by get by id returns it. */
  lemma {:induction false} FindAppended(ts: seq<StoredTask>, t: StoredTask)
    requires forall j :: 0 <= j < |ts| ==> ts[j].id != t.id
    ensures FindOne(ts + [t], IdOf(t.id, t.rec.userId)) == Some(|ts|)
  {
    if ts != [] {
      assert (ts + [t])[1..] == ts[1..] + [t];
      FindAppended(ts[1..], t);
    }
  }

  /** With unique ids, a task owned by one user is not found by another user asking for its id. */
  lemma ForeignTaskNotFound(ts: seq<StoredTask>, k: nat, other: UserId)
    requires UniqueIds(ts) && k < |ts| && ts[k].rec.userId != other
    ensures FindOne(ts, IdOf(ts[k].id, other)).None?
  {
    forall j | 0 <= j < |ts|
      ensures !Matches(ts[j], IdOf(ts[k].id, other))
    {
      if j < k { assert ts[j].id != ts[k].id; }
      else if k < j { assert ts[k].id != ts[j].id; }
    }
  }

  /** Ids are distinct and below the next fresh id; every document satisfies the schema. */
  predicate StoreInvariant(ts: seq<StoredTask>, nextId: TaskId) {
    && UniqueIds(ts)
    && (forall i :: 0 <= i < |ts| ==> ts[i].id < nextId)
    && (forall i :: 0 <= i < |ts| ==> TaskSchema.Valid(ts[i].rec))
  }

  lemma InvariantAppend(ts: seq<StoredTask>, nextId: TaskId, rec: TaskRecord)
    requires StoreInvariant(ts, nextId) && TaskSchema.Valid(rec)
    ensures StoreInvariant(ts + [StoredTask(nextId, rec)], nextId + 1)
  {
  }

  lemma InvariantReplace(ts: seq<StoredTask>, nextId: TaskId, i: nat, rec: TaskRecord)
    requires StoreInvariant(ts, nextId) && i < |ts| && TaskSchema.Valid(rec)
    ensures StoreInvariant(ts[i := StoredTask(ts[i].id, rec)], nextId)
  {
  }

  lemma InvariantRemove(ts: seq<StoredTask>, nextId: TaskId, i: nat)
    requires StoreInvariant(ts, nextId) && i < |ts|
    ensures StoreInvariant(ts[..i] + ts[i + 1..], nextId)
  {
    var r := ts[..i] + ts[i + 1..];
    assert forall k :: 0 <= k < |r| ==> r[k] == if k < i then ts[k] else ts[k + 1];
  }

  /**
   * Removing position `i` of a store with unique ids leaves no document with
   * that id and keeps every other document.
   */
  lemma RemoveExactlyOne(ts: seq<StoredTask>, i: nat)
    requires UniqueIds(ts) && i < |ts|
    ensures forall t :: t in ts[..i] + ts[i + 1..] ==> t.id != ts[i].id
    ensures forall t :: t in ts && t.id != ts[i].id ==> t in ts[..i] + ts[i + 1..]
  {
    var r := ts[..i] + ts[i + 1..];
    assert forall k :: 0 <= k < |r| ==> r[k] == if k < i then ts[k] else ts[k + 1];
    forall t | t in r ensures t.id != ts[i].id {
      var k :| 0 <= k < |r| && r[k] == t;
      if k < i { assert ts[k].id != ts[i].id; }
      else { assert ts[i].id != ts[k + 1].id; }
    }
    forall t | t in ts && t.id != ts[i].id ensures t in r {
      var k :| 0 <= k < |ts| && ts[k] == t;
      if k < i { assert r[k] == t; }
      else { assert k != i; assert r[k - 1] == t; }
    }
  }

  /** The start date is after the due date: both keys truthy and both parse, as in the update handler's own check. */
  predicate StartsAfterDue(b: Body, host: Host) {
    Truthy(b.startDate) && Truthy(b.dueDate) &&
    match (CastDate(host, b.startDate.value), CastDate(host, b.dueDate.value))
    case (Some(s), Some(d)) => Before(d, s)
    case _ => false
  }

  class TaskStore {
    var tasks: seq<StoredTask>
    var nextId: TaskId

    /** Ids are distinct and below the next fresh id; every document satisfies the schema. */
    ghost predicate Valid()
      reads this
    {
      StoreInvariant(tasks, nextId)
    }

    constructor ()
      ensures Valid() && tasks == [] && nextId == 0
    {
      tasks := [];
      nextId := 0;
    }

    /** `getAllTasks`: the caller's tasks, and only theirs, in stored order, each formatted. */
    method GetAll(caller: UserId) returns (r: Response)
      ensures r.Ok? && r.payload.Tasks?
      ensures |r.payload.views| == |Find(tasks, OwnedBy(caller))|
      ensures forall i :: 0 <= i < |r.payload.views| ==> r.payload.views[i] == View(Find(tasks, OwnedBy(caller))[i])
      ensures forall v :: v in r.payload.views ==> exists t :: t in tasks && t.rec.userId == caller && v == View(t)
    {
      var owned := Find(tasks, OwnedBy(caller));
      r := Ok(Tasks(seq(|owned|, i requires 0 <= i < |owned| => View(owned[i]))));
      forall v | v in r.payload.views
        ensures exists t :: t in tasks && t.rec.userId == caller && v == View(t)
      {
        var i :| 0 <= i < |owned| && r.payload.views[i] == v;
        assert owned[i] in owned;
      }
    }

    /** `getTaskById`: found only when both the id and the owner match; a task of another user is as missing as no task. */
    method GetById(caller: UserId, id: IdParam) returns (r: Response)
      ensures id.Malformed? ==> r == ServerError
      ensures id.ObjectId? ==> (r.NotFound? <==> forall t :: t in tasks ==> !(t.id == id.value && t.rec.userId == caller))
      ensures id.ObjectId? && !r.NotFound? ==>
        r.Ok? && r.payload.One? && exists t :: t in tasks && t.id == id.value && t.rec.userId == caller && r.payload.view == View(t)
    {
      if id.Malformed? {
        return ServerError;
      }
      match FindOne(tasks, IdOf(id.value, caller)) {
        case None => r := NotFound;
        case Some(i) => r := Ok(One(View(tasks[i])));
      }
    }

    /**
     * `getTaskByTitle`, for a title read literally: the caller's first task
     * whose title equals it ignoring case, so never a longer or shorter title.
     */
    method GetByTitle(caller: UserId, title: string) returns (r: Response)
      ensures r.NotFound? <==> forall t :: t in tasks ==> !(t.rec.userId == caller && EqualsIgnoreCase(t.rec.title, title))
      ensures !r.NotFound? ==> r.Ok? && r.payload.One? && |r.payload.view.title| == |title|
      ensures !r.NotFound? ==>
        exists i :: 0 <= i < |tasks| && r.payload.view == View(tasks[i]) &&
          tasks[i].rec.userId == caller && EqualsIgnoreCase(tasks[i].rec.title, title) &&
          (forall j :: 0 <= j < i ==> !Matches(tasks[j], TitleOf(title, caller)))
    {
      match FindOne(tasks, TitleOf(title, caller)) {
        case None => r := NotFound;
        case Some(i) => r := Ok(One(View(tasks[i])));
      }
    }

    /**
     * `createTask`: without a caller id, 400 and nothing stored; otherwise the
     * body, with `userId` replaced by the caller's id, becomes a new document
     * under a fresh id, or 400 when the schema rejects it.
     */
    method Create(caller: Option<UserId>, body: Body, now: Instant, host: Host) returns (r: Response)
      requires Valid() && Dates.Valid(now)
      modifies this
      ensures Valid()
      ensures caller.None? ==> r == BadRequest(MissingUser) && tasks == old(tasks) && nextId == old(nextId)
      ensures caller.Some? ==>
        match NewRecord(body.(userId := caller), now, host)
        case Failure(es) => r == BadRequest(Invalid(es)) && tasks == old(tasks) && nextId == old(nextId)
        case Success(rec) =>
          && tasks == old(tasks) + [StoredTask(old(nextId), rec)]
          && nextId == old(nextId) + 1
          && r == Created(View(StoredTask(old(nextId), rec)))
      ensures r.Created? ==> caller.Some? && tasks[|tasks| - 1].rec.userId == caller.value && r.view.userId == caller.value
      ensures r.Created? ==> FindOne(tasks, IdOf(r.view.id, caller.value)) == Some(|tasks| - 1)
    {
      if caller.None? {
        return BadRequest(MissingUser);
      }
      var built := NewRecord(body.(userId := caller), now, host);
      if built.Failure? {
        return BadRequest(Invalid(built.error));
      }
      var t := Save(built.value);
      r := Created(View(t));
    }

    /** `save()` of a new document: it is stored last under the next fresh id, and get by id finds it there. */
    method Save(rec: TaskRecord) returns (t: StoredTask)
      requires Valid() && TaskSchema.Valid(rec)
      modifies this
      ensures Valid()
      ensures t == StoredTask(old(nextId), rec)
      ensures tasks == old(tasks) + [t] && nextId == old(nextId) + 1
      ensures FindOne(tasks, IdOf(t.id, rec.userId)) == Some(|tasks| - 1)
    {
      t := StoredTask(nextId, rec);
      FindAppended(tasks, t);
      InvariantAppend(tasks, nextId, rec);
      tasks := tasks + [t];
      nextId := nextId + 1;
    }

    /**
     * `updateTask`: 400 when the body's start date is after its due date; 400
     * when the id cannot be cast or a set path fails its validator; 404 when
     * the caller owns no task with that id; otherwise the body is merged into
     * that one document and nothing else changes. The body's `userId` and
     * `createdAt` keys are applied like any other.
     */
    method Update(caller: UserId, id: IdParam, body: Body, now: Instant, host: Host) returns (r: Response)
      requires Valid()
      modifies this
      ensures Valid() && nextId == old(nextId)
      ensures StartsAfterDue(body, host) ==> r == BadRequest(StartAfterDue) && tasks == old(tasks)
      ensures !StartsAfterDue(body, host) && id.Malformed? ==>
        r == BadRequest(Invalid([SchemaError(IdPath, Cast)])) && tasks == old(tasks)
      ensures !StartsAfterDue(body, host) && id.ObjectId? && SetPathErrors(body, now, host) != [] ==>
        r == BadRequest(Invalid(SetPathErrors(body, now, host))) && tasks == old(tasks)
      ensures !StartsAfterDue(body, host) && id.ObjectId? && SetPathErrors(body, now, host) == [] ==>
        match FindOne(old(tasks), IdOf(id.value, caller))
        case None => r == NotFound && tasks == old(tasks)
        case Some(i) =>
          && tasks == old(tasks)[i := StoredTask(id.value, Merge(old(tasks)[i].rec, body, host))]
          && r == Ok(One(View(tasks[i])))
      ensures r.Ok? ==> id.ObjectId?
      ensures r.Ok? ==>
        && |tasks| == |old(tasks)|
        && exists i :: 0 <= i < |tasks| && old(tasks)[i].id == id.value && old(tasks)[i].rec.userId == caller &&
             tasks[i] == StoredTask(id.value, Merge(old(tasks)[i].rec, body, host)) &&
             (forall j :: 0 <= j < |tasks| && j != i ==> tasks[j] == old(tasks)[j])
    {
      if StartsAfterDue(body, host) {
        return BadRequest(StartAfterDue);
      }
      if id.Malformed? {
        return BadRequest(Invalid([SchemaError(IdPath, Cast)]));
      }
      match FindOne(tasks, IdOf(id.value, caller)) {
        case None =>
          if SetPathErrors(body, now, host) != [] {
            r := BadRequest(Invalid(SetPathErrors(body, now, host)));
          } else {
            r := NotFound;
          }
        case Some(i) =>
          match ApplyUpdate(tasks[i].rec, body, now, host) {
            case Failure(es) =>
              r := BadRequest(Invalid(es));
            case Success(rec) =>
              Replace(i, rec);
              r := Ok(One(View(tasks[i])));
          }
      }
    }

    /** The write of `findOneAndUpdate`: position `i` gets the merged document under its own id; no other document changes. */
    method Replace(i: nat, rec: TaskRecord)
      requires Valid() && i < |tasks| && TaskSchema.Valid(rec)
      modifies this
      ensures Valid() && nextId == old(nextId)
      ensures tasks == old(tasks)[i := StoredTask(old(tasks)[i].id, rec)]
      ensures |tasks| == |old(tasks)| && forall j :: 0 <= j < |tasks| && j != i ==> tasks[j] == old(tasks)[j]
    {
      InvariantReplace(tasks, nextId, i, rec);
      tasks := tasks[i := StoredTask(tasks[i].id, rec)];
    }

    /** `deleteTask`: removes the one document matching the id and the caller, or answers 404 and removes nothing. */
    method Delete(caller: UserId, id: IdParam) returns (r: Response)
      requires Valid()
      modifies this
      ensures Valid() && nextId == old(nextId)
      ensures id.Malformed? ==> r == ServerError && tasks == old(tasks)
      ensures id.ObjectId? ==>
        match FindOne(old(tasks), IdOf(id.value, caller))
        case None => r == NotFound && tasks == old(tasks)
        case Some(i) => r == Ok(Deleted) && tasks == old(tasks)[..i] + old(tasks)[i + 1..]
      ensures r.Ok? ==> r.payload == Deleted && |tasks| == |old(tasks)| - 1
      ensures r.Ok? ==> forall t :: t in tasks ==> !(t.id == id.value && t.rec.userId == caller)
      ensures forall t :: t in old(tasks) && !(id.ObjectId? && t.id == id.value && t.rec.userId == caller) ==> t in tasks
    {
      if id.Malformed? {
        return ServerError;
      }
      match FindOne(tasks, IdOf(id.value, caller)) {
        case None =>
          r := NotFound;
        case Some(i) =>
          InvariantRemove(tasks, nextId, i);
          RemoveExactlyOne(tasks, i);
          tasks := tasks[..i] + tasks[i + 1..];
          r := Ok(Deleted);
      }
    }
  }
}
