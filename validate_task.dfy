/**
 * The request validator that runs before a task is created or updated: a
 * chain of per-key checks whose failures are all collected, then either a
 * 400 with the whole list or the body, sanitised, handed on to the handler.
 */
module ValidateTask {
  import opened Wrappers
  import opened Text
  import opened Dates
  import opened Request

  const TitleMax: nat := 50
  const DescriptionMax: nat := 200
  const LongDescriptionMax: nat := 2000

  /** The status values the validator admits. */
  const Statuses: seq<string> := ["Sin iniciar", "En curso", "Completado"]

  datatype Field = Title | Description | LongDescription | StartDate | DueDate | Status

  /** Which link of a key's chain failed: `notEmpty`, `isLength`, `isISO8601`, the custom day rule, `isIn`. */
  datatype Rule = Required | MaxLength(limit: nat) | Iso8601 | TodayOrLater | OneOf

  datatype FieldError = FieldError(field: Field, rule: Rule)

  /** A required text key: `notEmpty` and then `isLength` on the raw value, before any trimming. */
  function RequiredTextErrors(f: Field, v: Option<string>, max: nat): (r: seq<FieldError>)
    ensures forall e :: e in r ==> e.field == f
  {
    (if !Truthy(v) then [FieldError(f, Required)] else []) +
    (if v.Some? && |v.value| > max then [FieldError(f, MaxLength(max))] else [])
  }

  /** An `optional()` text key: skipped when absent, otherwise `isLength` on the raw value. */
  function OptionalTextErrors(f: Field, v: Option<string>, max: nat): (r: seq<FieldError>)
    ensures forall e :: e in r ==> e.field == f
  {
    if v.Some? && |v.value| > max then [FieldError(f, MaxLength(max))] else []
  }

  /**
   * A required date key: `notEmpty`, `isISO8601`, then the custom rule, which
   * throws only when the value parses to a real date on a day before today
   * (an unparsable value makes its comparison false, so it passes).
   */
  function DateErrors(f: Field, v: Option<string>, now: Instant, host: Host): (r: seq<FieldError>)
    ensures forall e :: e in r ==> e.field == f
  {
    (if !Truthy(v) then [FieldError(f, Required)] else []) +
    (if !(v.Some? && IsIso8601(host, v.value)) then [FieldError(f, Iso8601)] else []) +
    (if v.Some? && CastDate(host, v.value).Some? && !IsTodayOrLater(CastDate(host, v.value).value, now)
     then [FieldError(f, TodayOrLater)] else [])
  }

  function StatusErrors(v: Option<string>): (r: seq<FieldError>)
    ensures forall e :: e in r ==> e.field == Status
  {
    if v.Some? && v.value !in Statuses then [FieldError(Status, OneOf)] else []
  }

  /** The failures of one key's chain. */
  function ErrorsOf(b: Body, now: Instant, host: Host, f: Field): (r: seq<FieldError>)
    ensures forall e :: e in r ==> e.field == f
  {
    match f
    case Title => RequiredTextErrors(Title, b.title, TitleMax)
    case Description => RequiredTextErrors(Description, b.description, DescriptionMax)
    case LongDescription => OptionalTextErrors(LongDescription, b.longDescription, LongDescriptionMax)
    case StartDate => DateErrors(StartDate, b.startDate, now, host)
    case DueDate => DateErrors(DueDate, b.dueDate, now, host)
    case Status => StatusErrors(b.status)
  }

  /** Every failure of the chain, key by key in declaration order. */
  function Errors(b: Body, now: Instant, host: Host): seq<FieldError> {
    ErrorsOf(b, now, host, Title) + ErrorsOf(b, now, host, Description) +
    ErrorsOf(b, now, host, LongDescription) + ErrorsOf(b, now, host, StartDate) +
    ErrorsOf(b, now, host, DueDate) + ErrorsOf(b, now, host, Status)
  }

  lemma ErrorsByField(b: Body, now: Instant, host: Host, e: FieldError)
    ensures e in Errors(b, now, host) <==> e in ErrorsOf(b, now, host, e.field)
  {
    var t, d, l := ErrorsOf(b, now, host, Title), ErrorsOf(b, now, host, Description), ErrorsOf(b, now, host, LongDescription);
    var s, u, st := ErrorsOf(b, now, host, StartDate), ErrorsOf(b, now, host, DueDate), ErrorsOf(b, now, host, Status);
    assert Errors(b, now, host) == t + d + l + s + u + st;
  }

  /** `trim()` then `escape()`. */
  function Clean(host: Host, v: Option<string>): Option<string> {
    if v.Some? then Some(host.escape(Trim(v.value))) else None
  }

  /** The three text keys trimmed and escaped; every other key as it came. */
  function Sanitize(b: Body, host: Host): Body {
    b.(title := Clean(host, b.title),
       description := Clean(host, b.description),
       longDescription := Clean(host, b.longDescription))
  }

  /** The whole middleware: 400 with every error, or the sanitised body passed on to the handler. */
  function Validate(b: Body, now: Instant, host: Host): (r: Result<Body, seq<FieldError>>)
    ensures r.Failure? ==> r.error != []
    ensures r.Success? ==> r.value.startDate == b.startDate && r.value.dueDate == b.dueDate
    ensures r.Success? ==> r.value.status == b.status && r.value.createdAt == b.createdAt && r.value.userId == b.userId
    ensures r.Success? ==> b.title.Some? && r.value.title == Some(host.escape(Trim(b.title.value)))
    ensures r.Success? ==> b.description.Some? && r.value.description == Some(host.escape(Trim(b.description.value)))
    ensures r.Success? ==> r.value.longDescription == Clean(host, b.longDescription)
  {
    var es := Errors(b, now, host);
    if es == [] then Success(Sanitize(b, host)) else Failure(es)
  }

  /** The rule each error reports, stated key by key and independently of the chain's order. */
  predicate Violates(b: Body, now: Instant, host: Host, e: FieldError) {
    match e
    case FieldError(Title, Required) => b.title.None? || b.title.value == ""
    case FieldError(Title, MaxLength(n)) => n == TitleMax && b.title.Some? && |b.title.value| > TitleMax
    case FieldError(Description, Required) => b.description.None? || b.description.value == ""
    case FieldError(Description, MaxLength(n)) =>
      n == DescriptionMax && b.description.Some? && |b.description.value| > DescriptionMax
    case FieldError(LongDescription, MaxLength(n)) =>
      n == LongDescriptionMax && b.longDescription.Some? && |b.longDescription.value| > LongDescriptionMax
    case FieldError(StartDate, r) => DateViolates(b.startDate, now, host, r)
    case FieldError(DueDate, r) => DateViolates(b.dueDate, now, host, r)
    case FieldError(Status, OneOf) => b.status.Some? && b.status.value !in Statuses
    case _ => false
  }

  predicate DateViolates(v: Option<string>, now: Instant, host: Host, r: Rule) {
    match r
    case Required => v.None? || v.value == ""
    case Iso8601 => v.None? || !IsIso8601(host, v.value)
    case TodayOrLater =>
      v.Some? && (match CastDate(host, v.value)
        case Some(d) => DayBefore(d, now)
        case None => false)
    case _ => false
  }

  lemma DateErrorsExact(f: Field, v: Option<string>, now: Instant, host: Host, r: Rule)
    requires Valid(now)
    ensures FieldError(f, r) in DateErrors(f, v, now, host) <==> DateViolates(v, now, host, r)
  {
    if v.Some? && CastDate(host, v.value).Some? {
      var d := CastDate(host, v.value).value;
      TodayOrLaterIsByDay(d, now);
    }
  }

  /** An error is reported exactly when the rule it names is broken: nothing is missed, nothing is invented. */
  lemma ErrorsExact(b: Body, now: Instant, host: Host, e: FieldError)
    requires Valid(now)
    ensures e in Errors(b, now, host) <==> Violates(b, now, host, e)
  {
    ErrorsByField(b, now, host, e);
    FieldErrorsExact(b, now, host, e);
  }

  /** One key's chain reports an error exactly when the rule it names is broken. */
  lemma FieldErrorsExact(b: Body, now: Instant, host: Host, e: FieldError)
    requires Valid(now)
    ensures e in ErrorsOf(b, now, host, e.field) <==> Violates(b, now, host, e)
  {
    match e.field
    case StartDate => DateErrorsExact(StartDate, b.startDate, now, host, e.rule);
    case DueDate => DateErrorsExact(DueDate, b.dueDate, now, host, e.rule);
    case _ =>
  }

  /** The request is rejected exactly when some rule is broken. */
  lemma RejectedIffViolation(b: Body, now: Instant, host: Host)
    requires Valid(now)
    ensures Validate(b, now, host).Failure? <==> exists e :: Violates(b, now, host, e)
  {
    if Validate(b, now, host).Failure? {
      var e := Errors(b, now, host)[0];
      ErrorsExact(b, now, host, e);
    } else {
      forall e ensures !Violates(b, now, host, e) {
        ErrorsExact(b, now, host, e);
      }
    }
  }

  /**
   * The length bound is checked on the raw title: fifty letters followed by
   * one space trim to fifty characters and are still rejected.
   */
  lemma TitleLengthIsRaw(b: Body, now: Instant, host: Host)
    requires b.title == Some(seq(50, _ => 'a') + " ")
    ensures |Trim(b.title.value)| <= TitleMax
    ensures FieldError(Title, MaxLength(TitleMax)) in Errors(b, now, host)
    ensures Validate(b, now, host).Failure?
  {
    var t := b.title.value;
    assert TrimStart(t) == t;
    assert t[..|t| - 1] == seq(50, _ => 'a');
    assert TrimEnd(t) == TrimEnd(seq(50, _ => 'a'));
  }

  /**
   * A date on today's calendar day passes the day rule whatever its time of
   * day, and a date on an earlier day fails it.
   */
  lemma DayRuleBoundary(b: Body, now: Instant, host: Host, d: Instant)
    requires Valid(now) && b.startDate.Some? && CastDate(host, b.startDate.value) == Some(d)
    ensures SameDay(d, now) ==> FieldError(StartDate, TodayOrLater) !in Errors(b, now, host)
    ensures DayBefore(d, now) ==> FieldError(StartDate, TodayOrLater) in Errors(b, now, host)
  {
    ErrorsExact(b, now, host, FieldError(StartDate, TodayOrLater));
    if SameDay(d, now) {
      assert !DayBefore(d, now);
    }
  }

  /** The due-date checks look at the due date only: the validator never compares it with the start date. */
  lemma DueDateIndependentOfStart(b: Body, now: Instant, host: Host, start: Option<string>)
    ensures (forall r :: FieldError(DueDate, r) in Errors(b, now, host) <==>
                         FieldError(DueDate, r) in Errors(b.(startDate := start), now, host))
  {
    var b' := b.(startDate := start);
    forall r ensures FieldError(DueDate, r) in Errors(b, now, host) <==> FieldError(DueDate, r) in Errors(b', now, host) {
      ErrorsByField(b, now, host, FieldError(DueDate, r));
      ErrorsByField(b', now, host, FieldError(DueDate, r));
    }
  }
}
