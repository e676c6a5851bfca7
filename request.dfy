/**
 * The request body of a task operation, and the library behaviour the task
 * code calls into but the model does not see: JavaScript's date parsing,
 * the ISO 8601 syntax check and HTML escaping.
 */
module Request {
  import opened Wrappers
  import opened Dates

  /** The authenticated caller's id, as the identity service resolved it. */
  type UserId = nat

  /**
   * The JSON keys of a task body that the validator, the schema or the
   * controller look at; `None` is an absent key. Every present value is a
   * string, except `userId`, which stands for an id the database can cast.
   */
  datatype Body = Body(
    title: Option<string>,
    description: Option<string>,
    longDescription: Option<string>,
    startDate: Option<string>,
    dueDate: Option<string>,
    status: Option<string>,
    createdAt: Option<string>,
    userId: Option<UserId>)

  /**
   * `parseDate` is `new Date(text)` read as a local civil instant (an invalid
   * result stands for "Invalid Date"), `isIso8601` the validator library's
   * syntax check, `escape` its HTML-escaping sanitiser.
   */
  datatype Host = Host(
    parseDate: string -> Option<Instant>,
    isIso8601: string -> bool,
    escape: string -> string)

  /** `new Date(text)` when it yields a real date; the empty string never does. */
  function CastDate(host: Host, text: string): (r: Option<Instant>)
    ensures r.Some? ==> Valid(r.value)
    ensures text == "" ==> r.None?
  {
    if text == "" then None
    else match host.parseDate(text)
      case Some(i) => if Valid(i) then Some(i) else None
      case None => None
  }

  /** The ISO 8601 syntax check; no date is written as the empty string. */
  predicate IsIso8601(host: Host, text: string) {
    text != "" && host.isIso8601(text)
  }

  /** JavaScript truthiness of a key whose value is a string. */
  predicate Truthy(v: Option<string>) {
    v.Some? && v.value != ""
  }
}
