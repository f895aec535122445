/**
 * The create route end to end on the server: the multipart body as the
 * upload middleware hands it on, the upload itself, the error-handling
 * middleware, and the controller; then the round trip from the form's submit
 * to the stored record and back to the banner.
 */
module Intake {
  import opened Common
  import opened Text
  import opened Email
  import opened Upload
  import opened Entities
  import opened Controller
  import S = Service
  import F = Form

  const GenericErrorMessage := "Something broke! Please try again later."

  /** The text of multer's error for a file part the route does not expect. */
  const UnexpectedFieldMessage := "Unexpected field"

  /** The application's error handler: an error whose message mentions an
      invalid file type is a client error carrying that message; any other is
      a server error with a fixed text. */
  function ErrorMiddleware(message: string): (r: Response)
    ensures r.status in {400, 500}
    ensures r.status == 400 <==> Contains(message, InvalidFileTypePrefix)
    ensures r.status == 400 ==> r.payload == ErrorPayload(message)
    ensures r.status == 500 ==> r.payload == ErrorPayload(GenericErrorMessage)
  {
    if Contains(message, InvalidFileTypePrefix) then Failure(400, message)
    else Failure(500, GenericErrorMessage)
  }

  /** `req.body` as built from the text parts: every field is a string, so
      both nested lists arrive as text for the controller to parse. */
  function ServerBody(parts: seq<S.Part>): (body: CreateBody)
    ensures body.firstName == S.TextField(parts, "firstName")
    ensures body.lastName == S.TextField(parts, "lastName")
    ensures body.email == S.TextField(parts, "email")
    ensures body.phone == S.TextField(parts, "phone") && body.address == S.TextField(parts, "address")
    ensures body.educations.Some? <==> S.TextField(parts, "educations").Some?
    ensures body.educations.Some? ==> body.educations.value == RawText(S.TextField(parts, "educations").value)
    ensures body.workExperiences.Some? <==> S.TextField(parts, "workExperiences").Some?
    ensures body.workExperiences.Some?
            ==> body.workExperiences.value == RawText(S.TextField(parts, "workExperiences").value)
  {
    var edu := S.TextField(parts, "educations");
    var work := S.TextField(parts, "workExperiences");
    CreateBody(S.TextField(parts, "firstName"), S.TextField(parts, "lastName"), S.TextField(parts, "email"),
               S.TextField(parts, "phone"), S.TextField(parts, "address"),
               if edu.Some? then Some(RawText(edu.value)) else None,
               if work.Some? then Some(RawText(work.value)) else None)
  }

  /** The store and the files kept in the upload directory. */
  datatype ServerState = ServerState(db: Store, files: seq<string>)

  /** What one request depends on besides its body: the clock and random
      number the storage name is made of, how the disk write of an accepted
      file ends, and the storage layer's answer to the insert. */
  datatype Circumstances = Circumstances(timestamp: nat, random: nat, disk: DiskOutcome, write: WriteOutcome)

  datatype Served = Served(state: ServerState, response: Response)

  /** A text part within the field-size limit, counted in UTF-8 bytes. */
  predicate Fits(value: string) {
    Utf8Length(value) <= FieldSizeLimit
  }

  predicate FieldsFit(parts: seq<S.Part>) {
    forall i :: 0 <= i < |parts| && parts[i].TextPart? ==> Fits(parts[i].value)
  }

  /** A file part multer passes over: the basename of its file name is
      empty, as for an empty file input. */
  predicate Skipped(p: S.Part) {
    p.FilePart? && Basename(p.file.name) == ""
  }

  /** A part that leaves the upload as it was. */
  predicate Quiet(p: S.Part) {
    (p.TextPart? && Fits(p.value)) || Skipped(p)
  }

  /** A file part as multer hands it on: its field name, and the file under
      the basename of its file name. */
  datatype Arrival = Arrival(field: string, file: IncomingFile)

  function ArrivalOf(p: S.Part): Arrival
    requires p.FilePart?
  {
    Arrival(p.name, IncomingFile(Basename(p.file.name), p.file.size))
  }

  /** The file parts that reach the upload, in body order. */
  function Arrivals(parts: seq<S.Part>): (a: seq<Arrival>)
    ensures |a| <= |parts|
  {
    if |parts| == 0 then []
    else (if parts[0].FilePart? && !Skipped(parts[0]) then [ArrivalOf(parts[0])] else []) + Arrivals(parts[1..])
  }

  /** multer reading one part, with `got` what is uploaded so far. A text
      part over the field-size limit is an error, and a skipped file part is
      passed over. Any other file part must be the first to arrive and be
      called `cv`, or it is an unexpected field; that one goes through the
      filter, the size limit and the disk write. */
  function ReadPart(p: S.Part, got: UploadOutcome, env: Circumstances): (u: UploadOutcome)
    requires !got.Refused?
    ensures Quiet(p) ==> u == got
    ensures p.TextPart? && !Fits(p.value) ==> u == Refused(FieldTooLongMessage)
    ensures p.FilePart? && !Skipped(p) && (p.name != "cv" || got.Stored?) ==> u == Refused(UnexpectedFieldMessage)
    ensures p.FilePart? && !Skipped(p) && p.name == "cv" && got.NoFile?
            ==> u == StoreCv(ArrivalOf(p).file, env.timestamp, env.random, env.disk)
  {
    match p
    case TextPart(_, v) => if Fits(v) then got else Refused(FieldTooLongMessage)
    case FilePart(field, f) =>
      if Basename(f.name) == "" then got
      else if field != "cv" || got.Stored? then Refused(UnexpectedFieldMessage)
      else StoreCv(ArrivalOf(p).file, env.timestamp, env.random, env.disk)
  }

  /** multer reading the body part by part; the first error ends the
      request, and the files already written are then removed. */
  function ReadParts(parts: seq<S.Part>, got: UploadOutcome, env: Circumstances): UploadOutcome
    requires !got.Refused?
  {
    if |parts| == 0 then got
    else
      var m := ReadPart(parts[0], got, env);
      if m.Refused? then m else ReadParts(parts[1..], m, env)
  }

  /** Reading a body is reading its first half and then, unless that failed,
      the rest. */
  lemma {:induction false} ReadConcat(a: seq<S.Part>, b: seq<S.Part>, got: UploadOutcome, env: Circumstances)
    requires !got.Refused?
    ensures var m := ReadParts(a, got, env);
            ReadParts(a + b, got, env) == if m.Refused? then m else ReadParts(b, m, env)
  {
    if |a| == 0 {
      assert a + b == b;
    } else {
      assert (a + b)[0] == a[0] && (a + b)[1..] == a[1..] + b;
      var m := ReadPart(a[0], got, env);
      if !m.Refused? {
        ReadConcat(a[1..], b, m, env);
      }
    }
  }

  /** Quiet parts change nothing. */
  lemma {:induction false} ReadQuiet(parts: seq<S.Part>, got: UploadOutcome, env: Circumstances)
    requires !got.Refused?
    requires forall i :: 0 <= i < |parts| ==> Quiet(parts[i])
    ensures ReadParts(parts, got, env) == got
  {
    if |parts| > 0 {
      assert Quiet(parts[0]);
      assert forall i :: 1 <= i < |parts| ==> parts[1..][i - 1] == parts[i];
      ReadQuiet(parts[1..], got, env);
    }
  }

  /** A text part over the limit ends the reading in an error, wherever it is. */
  lemma {:induction false} ReadOverlong(parts: seq<S.Part>, got: UploadOutcome, env: Circumstances)
    requires !got.Refused? && !FieldsFit(parts)
    ensures ReadParts(parts, got, env).Refused?
  {
    var k :| 0 <= k < |parts| && parts[k].TextPart? && !Fits(parts[k].value);
    var m := ReadPart(parts[0], got, env);
    if k > 0 && !m.Refused? {
      assert parts[1..][k - 1] == parts[k];
      ReadOverlong(parts[1..], m, env);
    }
  }

  /** Once a file is stored, only a further arriving file changes the
      outcome, into an unexpected field. */
  lemma {:induction false} ReadAfterStored(parts: seq<S.Part>, path: string, env: Circumstances)
    requires FieldsFit(parts)
    ensures ReadParts(parts, Stored(path), env)
            == if Arrivals(parts) == [] then Stored(path) else Refused(UnexpectedFieldMessage)
  {
    if |parts| > 0 {
      assert forall i :: 1 <= i < |parts| ==> parts[1..][i - 1] == parts[i];
      assert parts[0].TextPart? ==> Fits(parts[0].value);
      ReadAfterStored(parts[1..], path, env);
    }
  }

  /** What a body whose text parts all fit comes to, read from the file
      parts that arrive: none gives no file; a first one not called `cv` is
      an unexpected field; a first `cv` file that the filter, the size limit
      or the disk refuses gives that refusal; any file after it is an
      unexpected field. */
  function OutcomeOf(a: seq<Arrival>, env: Circumstances): (u: UploadOutcome)
    ensures a == [] ==> u == NoFile
    ensures u.Stored? <==>
              && |a| == 1 && a[0].field == "cv"
              && EndsWithAllowedExtension(a[0].file.originalName) && a[0].file.size <= MaxFileSize
              && env.disk == DiskWritten
    ensures |a| > 0 && a[0].field == "cv" && StoreCv(a[0].file, env.timestamp, env.random, env.disk).Refused?
            ==> u == StoreCv(a[0].file, env.timestamp, env.random, env.disk)
    ensures |a| > 0 && a[0].field == "cv" && !StoreCv(a[0].file, env.timestamp, env.random, env.disk).Refused?
            ==> u == (if |a| == 1 then StoreCv(a[0].file, env.timestamp, env.random, env.disk)
                      else Refused(UnexpectedFieldMessage))
    ensures |a| > 0 && a[0].field != "cv" ==> u == Refused(UnexpectedFieldMessage)
  {
    if a == [] then NoFile
    else if a[0].field != "cv" then Refused(UnexpectedFieldMessage)
    else
      var c := StoreCv(a[0].file, env.timestamp, env.random, env.disk);
      if c.Refused? || |a| == 1 then c else Refused(UnexpectedFieldMessage)
  }

  lemma {:induction false} ReadFromNothing(parts: seq<S.Part>, env: Circumstances)
    requires FieldsFit(parts)
    ensures ReadParts(parts, NoFile, env) == OutcomeOf(Arrivals(parts), env)
  {
    if |parts| > 0 {
      assert forall i :: 1 <= i < |parts| ==> parts[1..][i - 1] == parts[i];
      assert parts[0].TextPart? ==> Fits(parts[0].value);
      var p, rest := parts[0], parts[1..];
      assert FieldsFit(rest);
      var m := ReadPart(p, NoFile, env);
      assert ReadParts(parts, NoFile, env) == if m.Refused? then m else ReadParts(rest, m, env);
      if Quiet(p) {
        assert Arrivals(parts) == Arrivals(rest);
        ReadFromNothing(rest, env);
      } else {
        assert Arrivals(parts) == [ArrivalOf(p)] + Arrivals(rest);
        if m.Stored? {
          ReadAfterStored(rest, m.path, env);
        }
      }
    }
  }

  /** `upload.single('cv')` on a body: once every text part fits, the
      outcome depends only on the file parts that arrive; a text part over
      the limit makes the request fail. */
  function UploadOf(parts: seq<S.Part>, env: Circumstances): (u: UploadOutcome)
    ensures !FieldsFit(parts) ==> u.Refused?
    ensures FieldsFit(parts) ==> u == OutcomeOf(Arrivals(parts), env)
  {
    if FieldsFit(parts) then
      ReadFromNothing(parts, env);
      ReadParts(parts, NoFile, env)
    else
      ReadOverlong(parts, NoFile, env);
      ReadParts(parts, NoFile, env)
  }

  /** A skipped file part can be left out of the body without changing the
      upload. */
  lemma SkippedPartIgnored(parts: seq<S.Part>, k: int, env: Circumstances)
    requires 0 <= k < |parts| && Skipped(parts[k])
    ensures UploadOf(parts, env) == UploadOf(parts[..k] + parts[k + 1..], env)
  {
    var a, b := parts[..k], parts[k + 1..];
    assert parts[k..] == [parts[k]] + b;
    assert parts == a + parts[k..];
    QuietPartIgnored(a, parts[k], b, env);
    UploadIsRead(parts, env);
    UploadIsRead(a + b, env);
  }

  /** A quiet part anywhere in a body can be left out of the reading. */
  lemma QuietPartIgnored(a: seq<S.Part>, p: S.Part, b: seq<S.Part>, env: Circumstances)
    requires Quiet(p)
    ensures ReadParts(a + ([p] + b), NoFile, env) == ReadParts(a + b, NoFile, env)
  {
    ReadConcat(a, [p] + b, NoFile, env);
    ReadConcat(a, b, NoFile, env);
    var m := ReadParts(a, NoFile, env);
    if !m.Refused? {
      var c := [p] + b;
      assert c[0] == p && c[1..] == b;
    }
  }

  /** The upload is the part-by-part reading of the body. */
  lemma UploadIsRead(parts: seq<S.Part>, env: Circumstances)
    ensures UploadOf(parts, env) == ReadParts(parts, NoFile, env)
  {
  }

  /** The first `Quiet` parts of a body change nothing, so the upload is
      decided from part `k` on. */
  lemma ReadFrom(parts: seq<S.Part>, k: int, env: Circumstances)
    requires 0 <= k < |parts| && forall i :: 0 <= i < k ==> Quiet(parts[i])
    ensures var m := ReadPart(parts[k], NoFile, env);
            UploadOf(parts, env) == if m.Refused? then m else ReadParts(parts[k + 1..], m, env)
  {
    assert parts == parts[..k] + parts[k..];
    ReadConcat(parts[..k], parts[k..], NoFile, env);
    ReadQuiet(parts[..k], NoFile, env);
    assert parts[k..][0] == parts[k] && parts[k..][1..] == parts[k + 1..];
  }

  /** `POST /api/candidates`: the upload runs first; a refused upload goes to
      the error handler and the controller never runs; otherwise the
      controller runs with the stored file's path, if any. A stored file stays
      in the directory whatever the controller answers. */
  function PostCandidate(s: ServerState, parts: seq<S.Part>, json: Json, env: Circumstances): (r: Served)
    ensures r.response.status in {201, 400, 409, 500}
    ensures r.response.status != 201 ==> r.state.db == s.db
    ensures UploadOf(parts, env).Refused?
            ==> r == Served(s, ErrorMiddleware(UploadOf(parts, env).message))
    ensures UploadOf(parts, env).NoFile?
            ==> r.state.files == s.files
                && Transition(r.state.db, r.response) == CreateCandidate(s.db, ServerBody(parts), None, json, env.write)
    ensures var u := UploadOf(parts, env);
            u.Stored? ==> r.state.files == s.files + [u.path]
                          && Transition(r.state.db, r.response)
                             == CreateCandidate(s.db, ServerBody(parts), Some(u.path), json, env.write)
  {
    match UploadOf(parts, env)
    case Refused(message) => Served(s, ErrorMiddleware(message))
    case NoFile =>
      var t := CreateCandidate(s.db, ServerBody(parts), None, json, env.write);
      Served(ServerState(t.db, s.files), t.response)
    case Stored(path) =>
      var t := CreateCandidate(s.db, ServerBody(parts), Some(path), json, env.write);
      Served(ServerState(t.db, s.files + [path]), t.response)
  }

  /** A request whose upload is not refused and whose body passes every
      controller check creates one record, read from the body, holding the
      stored path if a file was stored. */
  lemma PostCreates(s: ServerState, parts: seq<S.Part>, json: Json, env: Circumstances)
    requires !UploadOf(parts, env).Refused?
    requires NestedParse(ServerBody(parts), json) && PassesChecks(s.db, ServerBody(parts))
    requires NestedBuild(ServerBody(parts), json) && env.write == Written
    ensures var r := PostCandidate(s, parts, json, env);
            var body := ServerBody(parts);
            var u := UploadOf(parts, env);
            && r.response.status == 201
            && var c := r.response.payload.candidate;
               && r.state.db.candidates == s.db.candidates + [c]
               && body.firstName == Some(c.firstName) && body.lastName == Some(c.lastName)
               && body.email == Some(c.email) && c.phone == body.phone && c.address == body.address
               && c.educations == EducationRows(EducationsOf(body, json))
               && c.workExperiences == WorkRows(WorkOf(body, json))
               && (u.NoFile? ==> c.cvPath.None? && r.state.files == s.files)
               && (u.Stored? ==> c.cvPath == Some(u.path) && r.state.files == s.files + [u.path])
  {
    var body := ServerBody(parts);
    var u := UploadOf(parts, env);
    var t := CreateCandidate(s.db, body, if u.Stored? then Some(u.path) else None, json, env.write);
    var c := t.db.candidates[|s.db.candidates|];
    assert t.db.candidates == s.db.candidates + [c];
    assert c.educations == EducationRows(EducationsOf(body, json));
    assert c.workExperiences == WorkRows(WorkOf(body, json));
  }

  /** A request whose upload is not refused and whose body names an e-mail
      already stored is answered 409 and the store is unchanged; a stored
      file stays. */
  lemma PostConflicts(s: ServerState, parts: seq<S.Part>, json: Json, env: Circumstances)
    requires !UploadOf(parts, env).Refused?
    requires NestedParse(ServerBody(parts), json) && RequiredPresent(ServerBody(parts))
    requires ValidateEmail(ServerBody(parts).email.value) && EmailTaken(s.db, ServerBody(parts).email.value)
    ensures var r := PostCandidate(s, parts, json, env);
            var u := UploadOf(parts, env);
            && r.response == Failure(409, DuplicateEmailMessage)
            && r.state.db == s.db
            && (u.NoFile? ==> r.state.files == s.files)
            && (u.Stored? ==> r.state.files == s.files + [u.path])
  {
  }

  /** A `cv` file with a disallowed extension, reached after parts that
      change nothing, is answered 400 with the filter's message, whatever
      follows it. */
  lemma WrongFileTypeIsClientError(s: ServerState, parts: seq<S.Part>, json: Json, env: Circumstances, k: int)
    requires 0 <= k < |parts| && forall i :: 0 <= i < k ==> Quiet(parts[i])
    requires parts[k].FilePart? && parts[k].name == "cv" && !Skipped(parts[k])
    requires !EndsWithAllowedExtension(Basename(parts[k].file.name))
    ensures PostCandidate(s, parts, json, env) == Served(s, Failure(400, InvalidFileTypeMessage))
  {
    var file := ArrivalOf(parts[k]).file;
    FileFilterAcceptsIff(file.originalName);
    assert ReadPart(parts[k], NoFile, env) == Refused(InvalidFileTypeMessage);
    ReadFrom(parts, k, env);
    assert UploadOf(parts, env) == Refused(InvalidFileTypeMessage);
    assert StartsWith(InvalidFileTypeMessage, InvalidFileTypePrefix);
    StartsWithContains(InvalidFileTypeMessage, InvalidFileTypePrefix);
  }

  /** An allowed `cv` file over the size limit is answered 500 with the
      generic text, because the size error does not mention the file type. */
  lemma OversizedFileIsServerError(s: ServerState, parts: seq<S.Part>, json: Json, env: Circumstances, k: int)
    requires 0 <= k < |parts| && forall i :: 0 <= i < k ==> Quiet(parts[i])
    requires parts[k].FilePart? && parts[k].name == "cv" && !Skipped(parts[k])
    requires EndsWithAllowedExtension(Basename(parts[k].file.name))
    requires parts[k].file.size > MaxFileSize
    ensures PostCandidate(s, parts, json, env) == Served(s, Failure(500, GenericErrorMessage))
  {
    StoreCvOversized(ArrivalOf(parts[k]).file, env.timestamp, env.random, env.disk);
    assert ReadPart(parts[k], NoFile, env) == Refused(FileTooLargeMessage);
    ReadFrom(parts, k, env);
    assert UploadOf(parts, env) == Refused(FileTooLargeMessage);
    assert !Contains(FileTooLargeMessage, InvalidFileTypePrefix) by {
      assert |FileTooLargeMessage| < |InvalidFileTypePrefix|;
    }
  }

  /** A `cv` file the rules accept but the disk fails to write is answered
      by the error handler with the file system's message, and nothing is
      kept. */
  lemma FailedWriteIsRefused(s: ServerState, parts: seq<S.Part>, json: Json, env: Circumstances, k: int)
    requires 0 <= k < |parts| && forall i :: 0 <= i < k ==> Quiet(parts[i])
    requires parts[k].FilePart? && parts[k].name == "cv" && !Skipped(parts[k])
    requires EndsWithAllowedExtension(Basename(parts[k].file.name)) && parts[k].file.size <= MaxFileSize
    requires env.disk.DiskFailed?
    ensures PostCandidate(s, parts, json, env) == Served(s, ErrorMiddleware(env.disk.message))
  {
    StoreCvDiskFailed(ArrivalOf(parts[k]).file, env.timestamp, env.random, env.disk);
    assert ReadPart(parts[k], NoFile, env) == Refused(env.disk.message);
    ReadFrom(parts, k, env);
    assert UploadOf(parts, env) == Refused(env.disk.message);
  }

  /** A text field over 1 MiB, reached after parts that change nothing, is
      answered 500 with the generic text. */
  lemma OverlongFieldIsServerError(s: ServerState, parts: seq<S.Part>, json: Json, env: Circumstances, k: int)
    requires 0 <= k < |parts| && forall i :: 0 <= i < k ==> Quiet(parts[i])
    requires parts[k].TextPart? && !Fits(parts[k].value)
    ensures PostCandidate(s, parts, json, env) == Served(s, Failure(500, GenericErrorMessage))
  {
    assert ReadPart(parts[k], NoFile, env) == Refused(FieldTooLongMessage);
    ReadFrom(parts, k, env);
    assert UploadOf(parts, env) == Refused(FieldTooLongMessage);
    NotContainsFirst(FieldTooLongMessage, InvalidFileTypePrefix);
  }

  /** A file part under another name than `cv`, or a second file part, is
      answered 500 with the generic text, and nothing is kept. */
  lemma UnexpectedFileIsServerError(s: ServerState, parts: seq<S.Part>, json: Json, env: Circumstances)
    requires UploadOf(parts, env) == Refused(UnexpectedFieldMessage)
    ensures PostCandidate(s, parts, json, env) == Served(s, Failure(500, GenericErrorMessage))
  {
    assert !Contains(UnexpectedFieldMessage, InvalidFileTypePrefix) by {
      assert |UnexpectedFieldMessage| < |InvalidFileTypePrefix|;
    }
  }

  /** A résumé sent under another field name is refused before the
      controller runs, whatever the rest of the body holds. */
  lemma MisnamedFileRefused(s: ServerState, parts: seq<S.Part>, json: Json, env: Circumstances, k: int)
    requires 0 <= k < |parts| && forall i :: 0 <= i < k ==> Quiet(parts[i])
    requires parts[k].FilePart? && parts[k].name != "cv" && !Skipped(parts[k])
    ensures PostCandidate(s, parts, json, env) == Served(s, Failure(500, GenericErrorMessage))
  {
    ReadFrom(parts, k, env);
    UnexpectedFileIsServerError(s, parts, json, env);
  }

  /** A stored file whose request the controller turns down stays in the
      directory with no candidate referring to it. */
  lemma RejectedRequestLeavesOrphanFile(s: ServerState, parts: seq<S.Part>, json: Json, env: Circumstances)
    requires forall c :: c in s.db.candidates && c.cvPath.Some? ==> c.cvPath.value in s.files
    requires UploadOf(parts, env).Stored? && UploadOf(parts, env).path !in s.files
    requires PostCandidate(s, parts, json, env).response.status != 201
    ensures var r := PostCandidate(s, parts, json, env);
            var path := UploadOf(parts, env).path;
            && path in r.state.files
            && forall c :: c in r.state.db.candidates ==> c.cvPath != Some(path)
  {
  }

  /** Every path a stored candidate refers to is a file in the directory. */
  ghost predicate FilesCovered(s: ServerState) {
    forall i :: 0 <= i < |s.db.candidates| && s.db.candidates[i].cvPath.Some?
                ==> s.db.candidates[i].cvPath.value in s.files
  }

  lemma PostKeepsFilesCovered(s: ServerState, parts: seq<S.Part>, json: Json, env: Circumstances)
    requires Valid(s.db) && FilesCovered(s)
    ensures Valid(PostCandidate(s, parts, json, env).state.db)
    ensures FilesCovered(PostCandidate(s, parts, json, env).state)
  {
    var u := UploadOf(parts, env);
    var r := PostCandidate(s, parts, json, env);
    match u
    case Refused(_) =>
    case NoFile =>
      CreatePreservesValid(s.db, ServerBody(parts), None, json, env.write);
      CreateKeepsCovered(s, ServerBody(parts), None, json, env.write, r.state.files);
    case Stored(path) =>
      CreatePreservesValid(s.db, ServerBody(parts), Some(path), json, env.write);
      CreateKeepsCovered(s, ServerBody(parts), Some(path), json, env.write, r.state.files);
  }

  /** The controller's step keeps every stored path covered when the
      directory afterwards holds what it held and the new record's path. */
  lemma CreateKeepsCovered(s: ServerState, body: CreateBody, path: Option<string>, json: Json,
                           write: WriteOutcome, files: seq<string>)
    requires FilesCovered(s)
    requires forall f :: f in s.files ==> f in files
    requires path.Some? ==> path.value in files
    ensures FilesCovered(ServerState(CreateCandidate(s.db, body, path, json, write).db, files))
  {
    var t := CreateCandidate(s.db, body, path, json, write);
    if t.response.status == 201 {
      var c := t.db.candidates[|s.db.candidates|];
      assert t.db.candidates == s.db.candidates + [c];
      forall i | 0 <= i < |t.db.candidates| && t.db.candidates[i].cvPath.Some?
        ensures t.db.candidates[i].cvPath.value in files
      {
        if i < |s.db.candidates| {
          assert t.db.candidates[i] == s.db.candidates[i];
        }
      }
    }
  }

  /** The service's view of a response: 2xx is ok, and the `error` and
      `message` fields of the body. */
  function ReplyOf(r: Response): (reply: S.Reply)
    ensures reply.ok <==> 200 <= r.status < 300
    ensures r.payload.ErrorPayload? ==> reply.error == Some(r.payload.error) && reply.message.None?
    ensures r.payload.CreatedPayload? ==> reply.message == Some(r.payload.message) && reply.error.None?
  {
    match r.payload
    case ErrorPayload(e) => S.Reply(200 <= r.status < 300, Some(e), None)
    case CreatedPayload(m, _) => S.Reply(200 <= r.status < 300, None, Some(m))
    case _ => S.Reply(200 <= r.status < 300, None, None)
  }

  // ---- from the form to the store ----

  /** The body a submit sends, as the server reads it: the service's parts
      after the browser's multipart/form-data encoding. */
  function PartsOf(st: F.FormState, json: Json): seq<S.Part> {
    S.Transmit(S.EncodeCandidate(F.ToCandidateData(st), json))
  }

  /** The name the upload sees for a chosen file: the basename of the name
      as the encoding escapes it. */
  function ReceivedName(f: S.BrowserFile): string {
    Basename(S.EscapeFileName(f.name))
  }

  /** The server's extension and size rules for a résumé. */
  ghost predicate ServerAcceptsCv(f: S.BrowserFile) {
    EndsWithAllowedExtension(ReceivedName(f)) && f.size <= MaxFileSize
  }

  /** The text fields the service sends before the résumé, as they arrive,
      all fit the field-size limit. */
  ghost predicate LeadingFieldsFit(st: F.FormState) {
    && Fits(S.NormalizeNewlines(st.data.firstName)) && Fits(S.NormalizeNewlines(st.data.lastName))
    && Fits(S.NormalizeNewlines(st.data.email)) && Fits(S.NormalizeNewlines(st.data.phone))
    && Fits(S.NormalizeNewlines(st.data.address))
  }

  /** Only the file parts of a body decide what arrives at the upload. */
  lemma {:induction false} ArrivalsOfFileParts(parts: seq<S.Part>)
    ensures Arrivals(parts) == Arrivals(S.FileParts(parts))
  {
    if |parts| > 0 {
      ArrivalsOfFileParts(parts[1..]);
      var files := S.FileParts(parts);
      if parts[0].FilePart? {
        assert files[0] == parts[0] && files[1..] == S.FileParts(parts[1..]);
      } else {
        assert files == S.FileParts(parts[1..]);
      }
    }
  }

  /** The files a submit brings to the upload: the chosen résumé under its
      received name, unless that name is empty. */
  lemma SubmittedFiles(st: F.FormState, json: Json)
    ensures Arrivals(PartsOf(st, json))
            == if st.cv.Some? && ReceivedName(st.cv.value) != ""
               then [Arrival("cv", IncomingFile(ReceivedName(st.cv.value), st.cv.value.size))]
               else []
  {
    ArrivalsOfFileParts(PartsOf(st, json));
    var files := SubmittedFileParts(st, json);
    if st.cv.Some? {
      var sent := files[0];
      assert Arrivals(files) == (if Skipped(sent) then [] else [ArrivalOf(sent)]) + Arrivals([]);
    }
  }

  /** The file parts of a submit: the chosen résumé with its name escaped. */
  lemma SubmittedFileParts(st: F.FormState, json: Json) returns (files: seq<S.Part>)
    ensures files == S.FileParts(PartsOf(st, json))
    ensures files == if st.cv.Some? then [S.OnWire(S.FilePart("cv", st.cv.value))] else []
  {
    var enc := S.EncodeCandidate(F.ToCandidateData(st), json);
    S.TransmitFileParts(enc);
    files := S.FileParts(PartsOf(st, json));
    assert files == S.Transmit(S.FileParts(enc));
    if st.cv.Some? {
      assert files == S.Transmit([S.FilePart("cv", st.cv.value)]);
    } else {
      assert files == S.Transmit([]);
    }
  }

  /** What the upload middleware makes of a submitted form: once its text
      fits, exactly the upload of the chosen résumé under its received name,
      or no file when there is none or its name is empty. */
  lemma SubmittedUpload(st: F.FormState, json: Json, env: Circumstances)
    ensures FieldsFit(PartsOf(st, json)) ==>
              UploadOf(PartsOf(st, json), env)
              == if st.cv.Some? && ReceivedName(st.cv.value) != ""
                 then StoreCv(IncomingFile(ReceivedName(st.cv.value), st.cv.value.size), env.timestamp, env.random, env.disk)
                 else NoFile
    ensures !FieldsFit(PartsOf(st, json)) ==> UploadOf(PartsOf(st, json), env).Refused?
  {
    SubmittedFiles(st, json);
  }

  /** With a résumé, its part comes after the leading text fields only. */
  lemma SubmittedCvAt(st: F.FormState, json: Json) returns (k: nat)
    requires st.cv.Some?
    ensures var parts := PartsOf(st, json);
            && k < |parts| && parts[k] == S.FilePart("cv", st.cv.value.(name := S.EscapeFileName(st.cv.value.name)))
            && (LeadingFieldsFit(st) ==> forall i :: 0 <= i < k ==> Quiet(parts[i]))
  {
    var d := F.ToCandidateData(st);
    k := S.CvPosition(d, json);
  }

  /** A form that passes client validation arrives with its two names as
      the encoding normalizes them and its e-mail unchanged, and passes the
      server's required-field and e-mail checks. */
  lemma ValidFormPassesServerChecks(st: F.FormState, json: Json)
    requires F.ValidateForm(st).valid
    ensures var body := ServerBody(PartsOf(st, json));
            && body.firstName == Some(S.NormalizeNewlines(st.data.firstName))
            && body.lastName == Some(S.NormalizeNewlines(st.data.lastName))
            && body.email == Some(st.data.email)
            && RequiredPresent(body)
            && ValidateEmail(body.email.value)
  {
    var enc := S.EncodeCandidate(F.ToCandidateData(st), json);
    S.TransmitTextField(enc, "firstName");
    S.TransmitTextField(enc, "lastName");
    S.TransmitTextField(enc, "email");
    ValidateEmailMatchesPattern(st.data.email);
    assert NoLineBreak(st.data.email) by {
      assert NoWhitespace(st.data.email);
    }
  }

  /** The nested lists the server decodes are exactly the form's lists; an
      empty list is not sent and arrives as no list at all. */
  lemma NestedListsArriveIntact(st: F.FormState, json: Json)
    requires RoundTrips(json) && S.StringifiesOnOneLine(json)
    ensures var body := ServerBody(PartsOf(st, json));
            && NestedParse(body, json) && NestedBuild(body, json)
            && EducationsOf(body, json) == st.data.educations
            && WorkOf(body, json) == st.data.workExperiences
            && (st.data.educations == [] <==> body.educations.None?)
            && (st.data.workExperiences == [] <==> body.workExperiences.None?)
  {
    var enc := S.EncodeCandidate(F.ToCandidateData(st), json);
    S.TransmitTextField(enc, "educations");
    S.TransmitTextField(enc, "workExperiences");
    assert NoLineBreak(json.encodeEducations(st.data.educations));
    assert NoLineBreak(json.encodeWork(st.data.workExperiences));
  }

  /** The optional text fields: an empty input is not sent, so it is stored
      as absent; any other arrives with its line breaks as CR LF. */
  lemma OptionalFieldsArrive(st: F.FormState, json: Json)
    ensures var body := ServerBody(PartsOf(st, json));
            && body.phone == (if st.data.phone == "" then None else Some(S.NormalizeNewlines(st.data.phone)))
            && body.address == (if st.data.address == "" then None else Some(S.NormalizeNewlines(st.data.address)))
  {
    var enc := S.EncodeCandidate(F.ToCandidateData(st), json);
    S.TransmitTextField(enc, "phone");
    S.TransmitTextField(enc, "address");
  }

  /** A résumé the form keeps is never over the server's size limit: both
      sides use the same 5 MiB ceiling. */
  lemma KeptCvWithinServerLimit(st: F.FormState)
    requires F.Consistent(st) && st.cv.Some?
    ensures st.cv.value.size <= MaxFileSize
  {
  }

  /** The form and the server judge a résumé by different things: a PDF the
      form keeps can still be refused by the server for its name. */
  lemma FormKeepsWhatServerRefuses()
    ensures var f := S.BrowserFile("resume", "application/pdf", 10);
            F.AcceptableCv(f) && !ServerAcceptsCv(f)
  {
    var f := S.BrowserFile("resume", "application/pdf", 10);
    PlainName(f.name);
    assert ReceivedName(f) == "resume";
    NoDotNoExtension("resume");
  }

  /** A name of lower-case letters arrives as itself. */
  lemma PlainName(name: string)
    requires forall i :: 0 <= i < |name| ==> 'a' <= name[i] <= 'z'
    ensures Basename(S.EscapeFileName(name)) == name
  {
    assert S.PlainFileName(name);
  }

  /** The server's side of a submit whose text fits and whose résumé, if
      any, the server accepts and the disk writes: the upload stores it under
      `uploads/` with a name that parses back into its parts. */
  lemma AcceptedSubmitReachesController(st: F.FormState, json: Json, s: ServerState, env: Circumstances)
    requires FieldsFit(PartsOf(st, json))
    requires st.cv.Some? ==> ServerAcceptsCv(st.cv.value) && env.disk == DiskWritten
    ensures var u := UploadOf(PartsOf(st, json), env);
            && (st.cv.None? <==> u.NoFile?)
            && (st.cv.Some? ==>
                  && u.Stored?
                  && StartsWith(u.path, UploadDirectory)
                  && ParseStorageName(u.path[|UploadDirectory|..])
                     == Some(NameParts(env.timestamp, env.random, ExtName(ReceivedName(st.cv.value)))))
  {
    SubmittedUpload(st, json, env);
  }

  /** A submit whose résumé the server accepts but the disk fails to write
      is answered by the error handler with the file system's message, before
      the controller runs, and nothing is kept. */
  lemma FailedWriteRefusesSubmit(st: F.FormState, json: Json, s: ServerState, env: Circumstances)
    requires st.cv.Some? && ServerAcceptsCv(st.cv.value) && LeadingFieldsFit(st)
    requires env.disk.DiskFailed?
    ensures PostCandidate(s, PartsOf(st, json), json, env) == Served(s, ErrorMiddleware(env.disk.message))
  {
    var k := SubmittedCvAt(st, json);
    FailedWriteIsRefused(s, PartsOf(st, json), json, env, k);
  }

  /** A valid submit with a new e-mail, text that fits, a résumé the server
      accepts and the disk writes or none, and a storage layer that writes,
      produces 201 and a record holding what the form held, text as the
      encoding normalizes it; a résumé is kept and its path recorded. */
  lemma ValidSubmitCreatesCandidate(
    st: F.FormState, json: Json, s: ServerState, env: Circumstances)
    requires F.ValidateForm(st).valid && RoundTrips(json) && S.StringifiesOnOneLine(json)
    requires FieldsFit(PartsOf(st, json))
    requires st.cv.Some? ==> ServerAcceptsCv(st.cv.value) && env.disk == DiskWritten
    requires env.write == Written
    requires !EmailTaken(s.db, st.data.email)
    ensures var r := PostCandidate(s, PartsOf(st, json), json, env);
            && r.response.status == 201
            && r.response.payload.CreatedPayload?
            && var c := r.response.payload.candidate;
               && r.state.db.candidates == s.db.candidates + [c]
               && c.firstName == S.NormalizeNewlines(st.data.firstName)
               && c.lastName == S.NormalizeNewlines(st.data.lastName)
               && c.email == st.data.email
               && c.phone == (if st.data.phone == "" then None else Some(S.NormalizeNewlines(st.data.phone)))
               && c.address == (if st.data.address == "" then None else Some(S.NormalizeNewlines(st.data.address)))
               && c.educations == EducationRows(st.data.educations)
               && c.workExperiences == WorkRows(st.data.workExperiences)
               && (st.cv.None? ==> c.cvPath.None? && r.state.files == s.files)
               && var u := UploadOf(PartsOf(st, json), env);
                  (st.cv.Some? ==> u.Stored? && c.cvPath == Some(u.path)
                                   && r.state.files == s.files + [u.path])
  {
    var parts := PartsOf(st, json);
    SubmitBody(st, json);
    AcceptedSubmitReachesController(st, json, s, env);
    PostCreates(s, parts, json, env);
  }

  /** The body the controller reads from a valid submit: it passes the
      checks, its lists decode to the form's lists, and its text is the
      form's text as the encoding normalizes it. */
  lemma SubmitBody(st: F.FormState, json: Json)
    requires F.ValidateForm(st).valid && RoundTrips(json) && S.StringifiesOnOneLine(json)
    ensures var body := ServerBody(PartsOf(st, json));
            && RequiredPresent(body) && ValidateEmail(body.email.value)
            && NestedParse(body, json) && NestedBuild(body, json)
            && body.firstName == Some(S.NormalizeNewlines(st.data.firstName))
            && body.lastName == Some(S.NormalizeNewlines(st.data.lastName))
            && body.email == Some(st.data.email)
            && body.phone == (if st.data.phone == "" then None else Some(S.NormalizeNewlines(st.data.phone)))
            && body.address == (if st.data.address == "" then None else Some(S.NormalizeNewlines(st.data.address)))
            && EducationsOf(body, json) == st.data.educations
            && WorkOf(body, json) == st.data.workExperiences
  {
    ValidFormPassesServerChecks(st, json);
    NestedListsArriveIntact(st, json);
    OptionalFieldsArrive(st, json);
  }

  /** A submit whose résumé arrives under a name with a disallowed
      extension, after leading fields that fit, is refused with 400 before
      the controller runs; nothing is stored, and a valid form shows the
      server's message. */
  lemma WrongExtensionSubmitRefused(st: F.FormState, json: Json, s: ServerState, env: Circumstances)
    requires st.cv.Some? && ReceivedName(st.cv.value) != ""
    requires !EndsWithAllowedExtension(ReceivedName(st.cv.value))
    requires LeadingFieldsFit(st)
    ensures var r := PostCandidate(s, PartsOf(st, json), json, env);
            && r == Served(s, Failure(400, InvalidFileTypeMessage))
            && (F.ValidateForm(st).valid ==> F.HandleSubmit(st, json, ReplyOf(r.response)).state.banner
                                             == Some(F.ErrorBanner(InvalidFileTypeMessage)))
  {
    var parts := PartsOf(st, json);
    var k := SubmittedCvAt(st, json);
    assert parts[k].file.name == S.EscapeFileName(st.cv.value.name);
    WrongFileTypeIsClientError(s, parts, json, env, k);
    var r := PostCandidate(s, parts, json, env);
    if F.ValidateForm(st).valid {
      ErrorReplyShowsItsText(st, json, r.response);
    }
  }

  /** After a 201 the form resets and its banner shows the server's
      message. */
  lemma CreatedReplyShowsServerMessage(st: F.FormState, json: Json, c: Candidate)
    requires F.ValidateForm(st).valid
    ensures var after := F.HandleSubmit(st, json, ReplyOf(Response(201, CreatedPayload(CreatedMessage, c)))).state;
            after.banner == Some(F.SuccessBanner(CreatedMessage)) && after.data == F.EmptyData
  {
    var reply := ReplyOf(Response(201, CreatedPayload(CreatedMessage, c)));
    assert reply == S.Reply(true, None, Some(CreatedMessage));
    F.SuccessBannerShowsServerText(st, json, reply);
  }

  /** An error reply after a valid submit shows the reply's own text. */
  lemma ErrorReplyShowsItsText(st: F.FormState, json: Json, r: Response)
    requires F.ValidateForm(st).valid
    requires r.payload.ErrorPayload? && r.payload.error != "" && !(200 <= r.status < 300)
    ensures F.HandleSubmit(st, json, ReplyOf(r)).state.banner == Some(F.ErrorBanner(r.payload.error))
  {
  }

  /** Submitting a valid form whose e-mail is already stored leaves the store
      as it was and the banner shows the server's duplicate message; a résumé
      the server accepted stays in the directory. */
  lemma DuplicateSubmitShowsConflict(
    st: F.FormState, json: Json, s: ServerState, env: Circumstances)
    requires F.ValidateForm(st).valid && RoundTrips(json) && S.StringifiesOnOneLine(json)
    requires FieldsFit(PartsOf(st, json))
    requires st.cv.Some? ==> ServerAcceptsCv(st.cv.value) && env.disk == DiskWritten
    requires EmailTaken(s.db, st.data.email)
    ensures var r := PostCandidate(s, PartsOf(st, json), json, env);
            && r.response == Failure(409, DuplicateEmailMessage)
            && r.state.db == s.db
            && (st.cv.None? ==> r.state.files == s.files)
            && F.HandleSubmit(st, json, ReplyOf(r.response)).state.banner
               == Some(F.ErrorBanner(DuplicateEmailMessage))
            && var u := UploadOf(PartsOf(st, json), env);
               (st.cv.Some? ==> u.Stored? && r.state.files == s.files + [u.path])
  {
    DuplicateReachesConflict(st, json, s, env);
    ErrorReplyShowsItsText(st, json, Failure(409, DuplicateEmailMessage));
  }

  lemma DuplicateReachesConflict(
    st: F.FormState, json: Json, s: ServerState, env: Circumstances)
    requires F.ValidateForm(st).valid && RoundTrips(json) && S.StringifiesOnOneLine(json)
    requires FieldsFit(PartsOf(st, json))
    requires st.cv.Some? ==> ServerAcceptsCv(st.cv.value) && env.disk == DiskWritten
    requires EmailTaken(s.db, st.data.email)
    ensures var r := PostCandidate(s, PartsOf(st, json), json, env);
            && r.response == Failure(409, DuplicateEmailMessage)
            && r.state.db == s.db
            && (st.cv.None? ==> r.state.files == s.files)
            && var u := UploadOf(PartsOf(st, json), env);
               (st.cv.Some? ==> u.Stored? && r.state.files == s.files + [u.path])
  {
    SubmitBody(st, json);
    AcceptedSubmitReachesController(st, json, s, env);
    PostConflicts(s, PartsOf(st, json), json, env);
  }
}
