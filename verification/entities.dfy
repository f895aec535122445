/**
 * The records the intake works on: nested entries as they travel in a
 * request, the stored candidate aggregate, the candidate store, HTTP
 * responses, and the JSON codec both sides use for the nested lists.
 */
module Entities {
  import opened Common

  /** An education entry as sent in a request (`EducationInput` on the
      server, `Education` on the client). */
  datatype EducationEntry = EducationEntry(
    institution: string,
    degree: string,
    fieldOfStudy: Option<string>,
    startDate: Option<string>,
    endDate: Option<string>)

  /** A work-experience entry as sent in a request. */
  datatype WorkEntry = WorkEntry(
    company: string,
    position: string,
    description: Option<string>,
    startDate: Option<string>,
    endDate: Option<string>)

  /** The date `new Date(text)` builds; date parsing itself is not modelled. */
  datatype CalendarDate = DateFrom(text: string)

  /** A stored education row. */
  datatype Education = Education(
    institution: string,
    degree: string,
    fieldOfStudy: Option<string>,
    startDate: Option<CalendarDate>,
    endDate: Option<CalendarDate>)

  /** A stored work-experience row. */
  datatype WorkExperience = WorkExperience(
    company: string,
    position: string,
    description: Option<string>,
    startDate: Option<CalendarDate>,
    endDate: Option<CalendarDate>)

  /** A stored candidate together with its nested rows (the aggregate the
      endpoints return). `createdAt` is the creation rank. */
  datatype Candidate = Candidate(
    id: nat,
    firstName: string,
    lastName: string,
    email: string,
    phone: Option<string>,
    address: Option<string>,
    cvPath: Option<string>,
    createdAt: nat,
    educations: seq<Education>,
    workExperiences: seq<WorkExperience>)

  /** The candidate table in insertion order and the last value handed out by
      the creation counter. */
  datatype Store = Store(candidates: seq<Candidate>, lastId: nat)

  const EmptyStore := Store([], 0)

  /** The unique constraint on `email`. */
  ghost predicate EmailsDistinct(cs: seq<Candidate>) {
    forall i, j :: 0 <= i < j < |cs| ==> cs[i].email != cs[j].email
  }

  /** Rows are kept in creation order: identities and creation times increase. */
  ghost predicate CreationOrdered(cs: seq<Candidate>) {
    forall i, j :: 0 <= i < j < |cs| ==> cs[i].id < cs[j].id && cs[i].createdAt < cs[j].createdAt
  }

  /** No row carries a counter value that has not been handed out yet. */
  ghost predicate BelowCounter(cs: seq<Candidate>, lastId: nat) {
    forall i :: 0 <= i < |cs| ==> cs[i].id <= lastId && cs[i].createdAt <= lastId
  }

  /** The store invariant. */
  ghost predicate Valid(db: Store) {
    EmailsDistinct(db.candidates) && CreationOrdered(db.candidates) && BelowCounter(db.candidates, db.lastId)
  }

  /** A value produced by `JSON.parse`, as far as the controller tells values
      apart: an array, a falsy value (`null`, `false`, `0`, `""`), or any other
      value, on which `.map` is not a function. */
  datatype JsonValue<T> = JsonArray(items: seq<T>) | JsonFalsy | JsonOther

  /** `JSON.stringify` and `JSON.parse` at the two nested-list types, as
      opaque functions; `None` from a decoder is a `SyntaxError`. */
  datatype Json = Json(
    encodeEducations: seq<EducationEntry> -> string,
    decodeEducations: string -> Option<JsonValue<EducationEntry>>,
    encodeWork: seq<WorkEntry> -> string,
    decodeWork: string -> Option<JsonValue<WorkEntry>>)

  /** Parsing what was stringified gives the same list back. */
  ghost predicate RoundTrips(json: Json) {
    && (forall xs :: json.decodeEducations(json.encodeEducations(xs)) == Some(JsonArray(xs)))
    && (forall xs :: json.decodeWork(json.encodeWork(xs)) == Some(JsonArray(xs)))
  }

  /** A JSON response body. */
  datatype Payload =
    | ErrorPayload(error: string)
    | CreatedPayload(message: string, candidate: Candidate)
    | ListPayload(candidates: seq<Candidate>)
    | CandidatePayload(candidate: Candidate)

  datatype Response = Response(status: nat, payload: Payload)
}
