/**
 * The candidate controller: `createCandidate` as a transition on the store,
 * `getCandidates` and `getCandidateById` as queries.
 */
module Controller {
  import opened Common
  import opened Email
  import opened Entities

  const MissingFieldsMessage := "Missing required fields: firstName, lastName, and email are required"
  const InvalidEmailMessage := "Invalid email format"
  const DuplicateEmailMessage := "A candidate with this email already exists"
  const CreateFailedMessage := "An error occurred while adding the candidate. Please try again later."
  const CreatedMessage := "Candidate successfully added to the system"
  const NotFoundMessage := "Candidate not found"

  /** A nested list field of the body: text from a multipart form, or a value
      a JSON body already carried. */
  datatype Nested<T> = RawText(text: string) | Structured(value: JsonValue<T>)

  /** `req.body` of a create request; `None` is an absent field. */
  datatype CreateBody = CreateBody(
    firstName: Option<string>,
    lastName: Option<string>,
    email: Option<string>,
    phone: Option<string>,
    address: Option<string>,
    educations: Option<Nested<EducationEntry>>,
    workExperiences: Option<Nested<WorkEntry>>)

  /** How the storage layer answers the insert: written; refused by the unique
      constraint on email (code P2002, a concurrent insert of the same email
      won the race); or failed in some other way. */
  datatype WriteOutcome = Written | UniqueViolation | WriteFailed

  datatype Transition = Transition(db: Store, response: Response)

  function Failure(status: nat, message: string): Response {
    Response(status, ErrorPayload(message))
  }

  /** A nested field after the `typeof ... === 'string'` step. */
  datatype Resolved<T> = Unparsable | Absent | Present(value: JsonValue<T>)

  /** Strings are parsed; structured values and absent fields pass through. */
  function Resolve<T>(field: Option<Nested<T>>, decode: string -> Option<JsonValue<T>>): Resolved<T> {
    match field
    case None => Absent
    case Some(Structured(v)) => Present(v)
    case Some(RawText(t)) =>
      match decode(t)
      case None => Unparsable
      case Some(v) => Present(v)
  }

  /** The entries `x ? { create: x.map(...) } : undefined` creates, or `None`
      when `.map` is not a function of the value. */
  function NestedItems<T>(r: Resolved<T>): Option<seq<T>> {
    match r
    case Unparsable => None
    case Absent => Some([])
    case Present(JsonArray(xs)) => Some(xs)
    case Present(JsonFalsy) => Some([])
    case Present(JsonOther) => None
  }

  /** `s ? new Date(s) : undefined`. */
  function DateOf(s: Option<string>): (d: Option<CalendarDate>)
    ensures d.Some? <==> Truthy(s)
    ensures d.Some? ==> d.value == DateFrom(s.value)
  {
    if Truthy(s) then Some(DateFrom(s.value)) else None
  }

  function ToEducation(e: EducationEntry): Education {
    Education(e.institution, e.degree, e.fieldOfStudy, DateOf(e.startDate), DateOf(e.endDate))
  }

  function ToWorkExperience(w: WorkEntry): WorkExperience {
    WorkExperience(w.company, w.position, w.description, DateOf(w.startDate), DateOf(w.endDate))
  }

  function EducationRows(xs: seq<EducationEntry>): (ys: seq<Education>)
    ensures |ys| == |xs| && forall i :: 0 <= i < |xs| ==> ys[i] == ToEducation(xs[i])
  {
    seq(|xs|, i requires 0 <= i < |xs| => ToEducation(xs[i]))
  }

  function WorkRows(xs: seq<WorkEntry>): (ys: seq<WorkExperience>)
    ensures |ys| == |xs| && forall i :: 0 <= i < |xs| ==> ys[i] == ToWorkExperience(xs[i])
  {
    seq(|xs|, i requires 0 <= i < |xs| => ToWorkExperience(xs[i]))
  }

  /** `findUnique({ where: { email } })` found a row. */
  predicate EmailTaken(db: Store, email: string) {
    exists i | 0 <= i < |db.candidates| :: db.candidates[i].email == email
  }

  predicate RequiredPresent(body: CreateBody) {
    Truthy(body.firstName) && Truthy(body.lastName) && Truthy(body.email)
  }

  /** Both nested fields survive `JSON.parse`. */
  predicate NestedParse(body: CreateBody, json: Json) {
    && !Resolve(body.educations, json.decodeEducations).Unparsable?
    && !Resolve(body.workExperiences, json.decodeWork).Unparsable?
  }

  /** The required-field, format and duplicate checks all pass. */
  predicate PassesChecks(db: Store, body: CreateBody) {
    RequiredPresent(body) && ValidateEmail(body.email.value) && !EmailTaken(db, body.email.value)
  }

  /** Both nested fields give rows to create. */
  predicate NestedBuild(body: CreateBody, json: Json) {
    && NestedItems(Resolve(body.educations, json.decodeEducations)).Some?
    && NestedItems(Resolve(body.workExperiences, json.decodeWork)).Some?
  }

  function EducationsOf(body: CreateBody, json: Json): seq<EducationEntry> {
    NestedItems(Resolve(body.educations, json.decodeEducations)).GetOr([])
  }

  function WorkOf(body: CreateBody, json: Json): seq<WorkEntry> {
    NestedItems(Resolve(body.workExperiences, json.decodeWork)).GetOr([])
  }

  /** The new record `prisma.candidate.create` writes. */
  function NewCandidate(db: Store, body: CreateBody, uploadedPath: Option<string>, json: Json): Candidate
    requires RequiredPresent(body)
  {
    Candidate(db.lastId + 1, body.firstName.value, body.lastName.value, body.email.value,
              body.phone, body.address, uploadedPath, db.lastId + 1,
              EducationRows(EducationsOf(body, json)), WorkRows(WorkOf(body, json)))
  }

  /** `createCandidate`: decode the nested lists, check the required fields,
      then the e-mail shape, then uniqueness, then insert one aggregate.
      `uploadedPath` is `req.file.path` when a file was stored. */
  function CreateCandidate(db: Store, body: CreateBody, uploadedPath: Option<string>, json: Json, write: WriteOutcome): (r: Transition)
    ensures r.response.status in {201, 400, 409, 500}
    ensures r.response.status != 201 ==> r.db == db
    ensures !NestedParse(body, json) ==> r.response == Failure(500, CreateFailedMessage)
    ensures NestedParse(body, json) && !RequiredPresent(body)
            ==> r.response == Failure(400, MissingFieldsMessage)
    ensures NestedParse(body, json) && RequiredPresent(body) && !ValidateEmail(body.email.value)
            ==> r.response == Failure(400, InvalidEmailMessage)
    ensures NestedParse(body, json) && RequiredPresent(body) && ValidateEmail(body.email.value)
            && EmailTaken(db, body.email.value)
            ==> r.response == Failure(409, DuplicateEmailMessage)
    ensures NestedParse(body, json) && PassesChecks(db, body) && !NestedBuild(body, json)
            ==> r.response == Failure(500, CreateFailedMessage)
    ensures NestedParse(body, json) && PassesChecks(db, body) && NestedBuild(body, json)
            && write == UniqueViolation
            ==> r.response == Failure(409, DuplicateEmailMessage)
    ensures r.response.status == 201
            <==> NestedParse(body, json) && PassesChecks(db, body) && NestedBuild(body, json) && write == Written
    ensures r.response.status == 201 ==>
              && |r.db.candidates| == |db.candidates| + 1
              && r.db.candidates[..|db.candidates|] == db.candidates
              && var c := r.db.candidates[|db.candidates|];
                 && r.response.payload == CreatedPayload(CreatedMessage, c)
                 && body.firstName == Some(c.firstName)
                 && body.lastName == Some(c.lastName)
                 && body.email == Some(c.email)
                 && c.phone == body.phone && c.address == body.address
                 && c.cvPath == uploadedPath
                 && c.id == c.createdAt == r.db.lastId == db.lastId + 1
                 && |c.educations| == |EducationsOf(body, json)|
                 && (forall i :: 0 <= i < |c.educations| ==> c.educations[i] == ToEducation(EducationsOf(body, json)[i]))
                 && |c.workExperiences| == |WorkOf(body, json)|
                 && (forall i :: 0 <= i < |c.workExperiences| ==> c.workExperiences[i] == ToWorkExperience(WorkOf(body, json)[i]))
  {
    if !NestedParse(body, json) then Transition(db, Failure(500, CreateFailedMessage))
    else if !RequiredPresent(body) then Transition(db, Failure(400, MissingFieldsMessage))
    else if !ValidateEmail(body.email.value) then Transition(db, Failure(400, InvalidEmailMessage))
    else if EmailTaken(db, body.email.value) then Transition(db, Failure(409, DuplicateEmailMessage))
    else if !NestedBuild(body, json) then Transition(db, Failure(500, CreateFailedMessage))
    else
      match write
      case UniqueViolation => Transition(db, Failure(409, DuplicateEmailMessage))
      case WriteFailed => Transition(db, Failure(500, CreateFailedMessage))
      case Written =>
        var c := NewCandidate(db, body, uploadedPath, json);
        var db' := Store(db.candidates + [c], c.id);
        assert db'.candidates[..|db.candidates|] == db.candidates;
        Transition(db', Response(201, CreatedPayload(CreatedMessage, c)))
  }

  /** The stored rows, last created first. */
  function NewestFirst(cs: seq<Candidate>): (r: seq<Candidate>)
    ensures |r| == |cs|
    ensures forall k :: 0 <= k < |r| ==> r[k] == cs[|cs| - 1 - k]
  {
    if |cs| == 0 then [] else [cs[|cs| - 1]] + NewestFirst(cs[..|cs| - 1])
  }

  /** `getCandidates`: every stored candidate, ordered by creation time,
      newest first. */
  function GetCandidates(db: Store): (r: Response)
    requires Valid(db)
    ensures r.status == 200 && r.payload.ListPayload?
    ensures |r.payload.candidates| == |db.candidates|
    ensures forall c :: c in r.payload.candidates <==> c in db.candidates
    ensures forall i, j :: 0 <= i < j < |r.payload.candidates|
              ==> r.payload.candidates[i].createdAt > r.payload.candidates[j].createdAt
  {
    var list := NewestFirst(db.candidates);
    assert forall c :: c in db.candidates ==> c in list by {
      forall c | c in db.candidates ensures c in list {
        var i :| 0 <= i < |db.candidates| && db.candidates[i] == c;
        assert list[|db.candidates| - 1 - i] == c;
      }
    }
    Response(200, ListPayload(list))
  }

  /** The first row with identity `id`. */
  function FindById(cs: seq<Candidate>, id: int): (r: Option<Candidate>)
    ensures r.Some? ==> r.value in cs && r.value.id == id
    ensures r.None? ==> forall i :: 0 <= i < |cs| ==> cs[i].id != id
  {
    if |cs| == 0 then None
    else if cs[0].id == id then Some(cs[0])
    else FindById(cs[1..], id)
  }

  /** `getCandidateById`: the row with that identity, or 404. The route
      parameter arrives already converted by `parseInt`. */
  function GetCandidateById(db: Store, id: int): (r: Response)
    ensures r.status == 200 || r == Failure(404, NotFoundMessage)
    ensures r.status == 200 <==> exists i :: 0 <= i < |db.candidates| && db.candidates[i].id == id
    ensures r.status == 200 ==> r.payload.CandidatePayload? && r.payload.candidate in db.candidates
                                && r.payload.candidate.id == id
  {
    match FindById(db.candidates, id)
    case Some(c) => Response(200, CandidatePayload(c))
    case None => Failure(404, NotFoundMessage)
  }

  /** A successful create keeps the store invariant: in particular the new
      e-mail differs from every stored one. */
  lemma CreatePreservesValid(db: Store, body: CreateBody, uploadedPath: Option<string>, json: Json, write: WriteOutcome)
    requires Valid(db)
    ensures Valid(CreateCandidate(db, body, uploadedPath, json, write).db)
  {
    var r := CreateCandidate(db, body, uploadedPath, json, write);
    if r.response.status == 201 {
      var c := r.db.candidates[|db.candidates|];
      assert r.db.candidates == db.candidates + [c];
      assert forall i :: 0 <= i < |db.candidates| ==> db.candidates[i].email != c.email;
    }
  }

  /** One create request with everything the controller does not decide itself. */
  datatype CreateCall = CreateCall(body: CreateBody, uploadedPath: Option<string>, write: WriteOutcome)

  /** The store after serving the calls one after another. */
  function RunCreates(db: Store, calls: seq<CreateCall>, json: Json): Store
    decreases |calls|
  {
    if |calls| == 0 then db
    else
      var next := CreateCandidate(db, calls[0].body, calls[0].uploadedPath, json, calls[0].write).db;
      RunCreates(next, calls[1..], json)
  }

  /** Across any sequence of create calls the stored e-mails stay pairwise
      distinct (and the rest of the store invariant holds). */
  lemma {:induction false} EmailsStayDistinct(db: Store, calls: seq<CreateCall>, json: Json)
    requires Valid(db)
    ensures Valid(RunCreates(db, calls, json))
    ensures EmailsDistinct(RunCreates(db, calls, json).candidates)
    decreases |calls|
  {
    if |calls| > 0 {
      CreatePreservesValid(db, calls[0].body, calls[0].uploadedPath, json, calls[0].write);
      var next := CreateCandidate(db, calls[0].body, calls[0].uploadedPath, json, calls[0].write).db;
      EmailsStayDistinct(next, calls[1..], json);
    }
  }

  /** Of two well-formed creates with the same e-mail, once the first has
      succeeded the second gets 409 and changes nothing. */
  lemma SecondCreateWithSameEmailConflicts(
    db: Store, first: CreateBody, p1: Option<string>, w1: WriteOutcome,
    second: CreateBody, p2: Option<string>, w2: WriteOutcome, json: Json)
    requires CreateCandidate(db, first, p1, json, w1).response.status == 201
    requires NestedParse(second, json) && RequiredPresent(second) && second.email == first.email
    ensures var db1 := CreateCandidate(db, first, p1, json, w1).db;
            var r2 := CreateCandidate(db1, second, p2, json, w2);
            r2.response == Failure(409, DuplicateEmailMessage) && r2.db == db1
  {
    var db1 := CreateCandidate(db, first, p1, json, w1).db;
    assert db1.candidates[|db.candidates|].email == first.email.value;
    assert EmailTaken(db1, second.email.value);
  }

  /** A newly created candidate heads the listing, in front of the earlier
      ones in their earlier order. */
  lemma CreatedCandidateListedFirst(db: Store, body: CreateBody, uploadedPath: Option<string>, json: Json, write: WriteOutcome)
    requires Valid(db)
    requires CreateCandidate(db, body, uploadedPath, json, write).response.status == 201
    ensures var r := CreateCandidate(db, body, uploadedPath, json, write);
            && Valid(r.db)
            && GetCandidates(r.db).payload.candidates
              == [r.response.payload.candidate] + GetCandidates(db).payload.candidates
  {
    var r := CreateCandidate(db, body, uploadedPath, json, write);
    CreatePreservesValid(db, body, uploadedPath, json, write);
    var c := r.response.payload.candidate;
    assert r.db.candidates == db.candidates + [c];
    var before := NewestFirst(db.candidates);
    var after := NewestFirst(r.db.candidates);
    assert after == [c] + before;
  }

  /** Fetching a newly created candidate by its identity returns exactly the
      created aggregate, nested rows included. */
  lemma CreatedCandidateFetchable(db: Store, body: CreateBody, uploadedPath: Option<string>, json: Json, write: WriteOutcome)
    requires Valid(db)
    requires CreateCandidate(db, body, uploadedPath, json, write).response.status == 201
    ensures var r := CreateCandidate(db, body, uploadedPath, json, write);
            var c := r.response.payload.candidate;
            GetCandidateById(r.db, c.id) == Response(200, CandidatePayload(c))
  {
    var r := CreateCandidate(db, body, uploadedPath, json, write);
    var c := r.response.payload.candidate;
    assert r.db.candidates == db.candidates + [c];
    assert forall x :: x in db.candidates ==> x.id <= db.lastId < c.id;
    assert r.db.candidates[|db.candidates|] == c;
  }

  /** An identity larger than any handed out is not found. */
  lemma UnassignedIdNotFound(db: Store, id: int)
    requires Valid(db) && id > db.lastId
    ensures GetCandidateById(db, id) == Failure(404, NotFoundMessage)
  {
  }
}
