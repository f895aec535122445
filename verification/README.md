# Candidate intake, modelled in Dafny

This project models how the applicant-tracking application takes in a new
candidate, from the browser form to the stored record.

- **The add-candidate form** (`AddCandidate.tsx`). It holds the form data, the
  chosen résumé file, the per-field errors and the two entry drafts. It covers
  the input and file handlers, adding and removing education and
  work-experience entries, `validateForm`, and `handleSubmit`.
- **The candidate service** (`candidateService.ts`). It turns the form data
  into a multipart body. It also turns a non-ok reply into the error the form
  shows.
- **The upload middleware** (`candidateRoutes.ts`):
  - the extension whitelist, read through Node's `path.extname`;
  - the generated storage name `cv-<timestamp>-<random><ext>` under `uploads/`;
  - the 5 MiB limit.
- **The error-handling middleware** (`index.ts`).
- **The candidate controller** (`candidateController.ts`):
  - `validateEmail`;
  - `createCandidate`, as a transition on a store of candidate aggregates;
  - `getCandidates` and `getCandidateById`, as queries on that store.

Modules, in dependency order:

| module | file | contents |
|---|---|---|
| `Common` | common.dfy | `Option`, JavaScript truthiness of an optional string |
| `Text` | text.dfy | ECMAScript white space, `trim`, ASCII `toLowerCase`, counting, prefixes, substring search, line breaks, UTF-8 length |
| `Email` | email.dfy | the e-mail regular expression, as a scanner and as a pattern |
| `Decimal` | decimal.dfy | decimal rendering and parsing of naturals, used in storage names |
| `Upload` | upload.dfy | `path.extname`, `fileFilter`, storage names, the size limit, the disk write, busboy's file-name basename, the upload outcome |
| `Entities` | entities.dfy | request entries, stored rows, the candidate aggregate, the store, JSON values, responses |
| `Controller` | controller.dfy | `createCandidate`, `getCandidates`, `getCandidateById`, and lemmas over runs of creates |
| `Service` | service.dfy | the multipart body, the browser's multipart/form-data encoding of it (line breaks, file-name escaping), and the reading of the create reply |
| `Form` | form.dfy | the form component's state and handlers, and an invariant over any sequence of user actions |
| `Intake` | intake.dfy | multer reading the body part by part, the POST route end to end, and properties linking the form, the route and the store |

Things the environment decides become parameters of the model:

- **`Json`**: `JSON.stringify` and `JSON.parse` for the two nested-list types, as a record of functions. Lemmas that need parsing to undo stringifying assume `RoundTrips(json)`. Lemmas about what arrives also assume `StringifiesOnOneLine(json)`: `JSON.stringify` escapes line breaks inside strings and writes none of its own.
- **`WriteOutcome`**: the storage layer's answer to the insert. It is `Written`, `UniqueViolation` (code P2002, a concurrent insert of the same e-mail won) or `WriteFailed`.
- **`DiskOutcome`**: how the disk write of an accepted résumé ends: `DiskWritten`, or `DiskFailed` with the file system's message. A missing `uploads/` directory is one such failure, since `destination` is a function and multer then does not create the directory.
- **`Circumstances`**: the clock value and random number of a storage name, the disk outcome and the write outcome.
- **`Reply`**: the HTTP reply the browser sees.

### Behaviour worth noting

- **An upload over 5 MiB gets a 500.** Multer fails it with the message "File too large". The error handler only gives 400 to messages that contain "Invalid file type", so this one becomes a 500 with the generic text (`Intake.OversizedFileIsServerError`).
- **A malformed `educations` or `workExperiences` string gets a 500.** `JSON.parse` throws into the controller's catch-all. This happens before any field is validated (`Controller.CreateCandidate`).
- **A refused request still leaves its uploaded file on disk.** The upload is written before the controller runs, so a later refusal leaves an orphan file (`Intake.RejectedRequestLeavesOrphanFile`).
- **A successful submit does not clear the entry drafts.** It resets the form data, the file and the errors, but the education and work-experience drafts keep their contents (`Form.HandleSubmit`).
- **The client and the server filter files differently.** The client checks the browser's MIME type. The server checks the file name's extension. So a PDF named `resume`, with no extension, is kept by the form and refused by the server with 400 (`Intake.FormKeepsWhatServerRefuses`, `Intake.WrongExtensionSubmitRefused`).
- **A file part whose name has an empty basename is passed over.** busboy reduces a sent file name to the text after its last `/` or `\`, and reads "." and ".." as empty. Multer skips a file with an empty name before any other check. So an empty file input, or a name ending in a separator, is as if no file were sent (`Intake.SkippedPartIgnored`, `Intake.SubmittedUpload`).
- **Line breaks in text arrive as CR LF.** The address is a `<textarea>`, and the multipart/form-data encoding of a `FormData` body writes every lone CR or LF of a text value as CR LF. The stored address is that normalized text (`Service.NormalizeNewlines`, `Intake.ValidSubmitCreatesCandidate`). The nested lists are unaffected, because `JSON.stringify` escapes line breaks.
- **A failed disk write, or a text field over 1 MiB, gets a 500.** Multer hands the file system's error, or "Field value too long" (busboy's default field-size limit, in UTF-8 bytes), to the error handler. That error does not mention the file type, so the answer is 500 and nothing is stored (`Intake.FailedWriteIsRefused`, `Intake.OverlongFieldIsServerError`).
- **A file part other than one `cv` file gets a 500.** `upload.single('cv')` refuses a file under any other field name, and a second file, with "Unexpected field", unless its name is passed over as above. The error handler turns that into a 500, and nothing is stored (`Intake.UnexpectedFileIsServerError`).

## Model

| member | source | states |
|---|---|---|
| Text.TrimEmptyIff | frontend/src/components/AddCandidate.tsx:123-131 | `trim()` gives the empty string exactly when every character is ECMAScript white space |
| Email.ValidateEmail | backend/src/controllers/candidateController.ts:33-36 | the server's e-mail check: an accepted address has at least five characters, contains '@' and does not start with it (its full meaning is the next row) |
| Email.ValidateEmailMatchesPattern | backend/src/controllers/candidateController.ts:33-36 | the validation scan accepts exactly the strings of the form run@run.run, where each run is non-empty and has no white space and no '@' (the regular expression `^[^\s@]+@[^\s@]+\.[^\s@]+$`) |
| Decimal.ParseNatToDecimal | backend/src/routes/candidateRoutes.ts:14 | the decimal text of a number in a storage name parses back to that number |
| Upload.ExtName | backend/src/routes/candidateRoutes.ts:15 | `path.extname`: the result is empty exactly when the last path component (trailing '/' ignored) has no '.' after its first character, or is ".."; otherwise it is a proper suffix of that component, starting with its last '.', with no further '.' or '/' |
| Upload.FileFilter | backend/src/routes/candidateRoutes.ts:19-28 | a rejection always carries a message starting with "Invalid file type" |
| Upload.FileFilterAcceptsIff | backend/src/routes/candidateRoutes.ts:19-28 | the filter accepts exactly the names that, ignoring trailing '/', end in .pdf, .docx or .doc in any letter case, with some character other than '/' before the dot |
| Upload.FileFilterIgnoresCase | backend/src/routes/candidateRoutes.ts:21 | two names that lower-case alike get the same verdict |
| Upload.StorageName | backend/src/routes/candidateRoutes.ts:13-16 | the generated name starts with "cv-" and ends with the original name's extension |
| Upload.StorageNameRoundTrip | backend/src/routes/candidateRoutes.ts:13-16 | the generated name parses back into its timestamp, its random number and the original extension |
| Upload.StorageNamesDistinct | backend/src/routes/candidateRoutes.ts:14-15 | uploads with different timestamp or random number get different storage names |
| Upload.ReceiveCv | backend/src/routes/candidateRoutes.ts:9-34 | multer with this storage, filter and limit: no file gives no path; a disallowed extension is refused with the filter's message; an oversized allowed file is refused with "File too large"; a file is stored exactly when its extension is allowed and it has at most 5 MiB; the stored path is under `uploads/` and its name parses back into its parts |
| Upload.StoreCv | backend/src/routes/candidateRoutes.ts:9-34 | one `cv` file through the upload: a refusal by the filter or the size limit passes through; an accepted file whose disk write fails is refused with the file system's message; a file is stored exactly when its extension is allowed, it has at most 5 MiB and the write succeeds, and then under the path `ReceiveCv` gives |
| Upload.StoreCvOversized | backend/src/routes/candidateRoutes.ts:33 | an allowed file over 5 MiB is refused with "File too large" whatever the disk would do |
| Upload.StoreCvDiskFailed | backend/src/routes/candidateRoutes.ts:9-12 | an allowed file within the limit whose disk write fails is refused with the write's message |
| Upload.Basename | backend/src/routes/candidateRoutes.ts:15-21 | the `originalname` the storage name and the filter read: the text after the last `/` or `\` of the sent file name, with "." and ".." read as empty. It holds no separator, a non-empty result is a suffix of the name that follows a separator or is the whole name, and a name without separators other than "." and ".." is itself |
| Upload.BasenameIdempotent | backend/src/routes/candidateRoutes.ts:15-21 | taking the basename of a basename changes nothing |
| Upload.NoDotNoExtension | backend/src/routes/candidateRoutes.ts:19-28 | a name without a '.' never has a whitelisted extension |
| Text.Utf8Length | backend/src/routes/candidateRoutes.ts:30-34 | the byte count busboy's default 1 MiB field-size limit is measured in (the route sets only `fileSize`): between one and four bytes per character, one per character exactly when all are ASCII |
| Controller.DateOf | backend/src/controllers/candidateController.ts:91-92 | a date is stored exactly when the entry's date string is non-empty, and it is built from that string |
| Controller.EducationRows | backend/src/controllers/candidateController.ts:86-94 | one education row per entry, in order, each built from its entry |
| Controller.WorkRows | backend/src/controllers/candidateController.ts:95-103 | one work-experience row per entry, in order, each built from its entry |
| Controller.CreateCandidate | backend/src/controllers/candidateController.ts:38-130 | the error checks run in order, and any failure leaves the store unchanged: bad nested JSON gives 500; a missing required field gives 400; a bad e-mail gives 400; a stored e-mail gives 409; a non-list nested value gives 500; a unique-constraint violation gives 409. The answer is 201 exactly when every check passes and the write succeeds. Then exactly one aggregate is appended, carrying the request's fields, the upload path, the next identity and rows built from the nested entries in order |
| Controller.CreatePreservesValid | backend/src/controllers/candidateController.ts:63-72 | a create keeps the store invariant: distinct e-mails, identities increasing with creation, all identities at most the counter |
| Controller.EmailsStayDistinct | backend/src/controllers/candidateController.ts:63-72 | after any sequence of create calls the stored e-mails are pairwise distinct |
| Controller.SecondCreateWithSameEmailConflicts | backend/src/controllers/candidateController.ts:64-72 | once one create with an e-mail has succeeded, a later well-formed create with the same e-mail gets 409 and changes nothing |
| Controller.NewestFirst | backend/src/controllers/candidateController.ts:139-141 | the listing holds the stored rows in reverse order |
| Controller.GetCandidates | backend/src/controllers/candidateController.ts:132-144 | 200 with exactly the stored candidates, strictly newest first |
| Controller.CreatedCandidateListedFirst | backend/src/controllers/candidateController.ts:134-142 | after a successful create, the listing is the new candidate followed by the earlier listing |
| Controller.FindById | backend/src/controllers/candidateController.ts:158-164 | finds a stored row with the identity, or shows there is none |
| Controller.GetCandidateById | backend/src/controllers/candidateController.ts:154-178 | 200 with a stored candidate of that identity exactly when one exists; otherwise 404 "Candidate not found" |
| Controller.CreatedCandidateFetchable | backend/src/controllers/candidateController.ts:154-178 | a newly created candidate is fetched by its identity as exactly the created aggregate |
| Controller.UnassignedIdNotFound | backend/src/controllers/candidateController.ts:166-168 | an identity above the counter is not found |
| Service.EncodeCandidate | frontend/src/services/candidateService.ts:40-57 | the body starts with firstName, lastName and email and uses only the eight field names. Phone and address are present exactly when non-empty. The only file part is a `cv` part holding the chosen file, if any. Each list is sent as its stringification exactly when it is present and non-empty |
| Service.ReadCreateReply | frontend/src/services/candidateService.ts:64-69 | a non-ok reply fails with the body's `error` text, or "Failed to create candidate" when that text is missing or empty; an ok reply resolves with the body's message |
| Service.CvPosition | frontend/src/services/candidateService.ts:43-49 | with a chosen file, the `cv` part comes after the filled leading text fields (names, e-mail, phone, address) and nothing else |
| Service.NormalizeNewlines | frontend/src/services/candidateService.ts:59-62 | the line-break normalization of a `FormData` text value: never shorter, empty exactly when the value is empty, and the value itself when it has no CR or LF |
| Service.NormalizedIsCrlfOnly | frontend/src/services/candidateService.ts:59-62 | after normalization every CR is followed by LF and every LF follows a CR |
| Service.CrlfOnlyUnchanged | frontend/src/services/candidateService.ts:59-62 | a text whose line breaks are already CR LF pairs is left as it is, so the normalization is the identity exactly on its own results |
| Service.NormalizeIdempotent | frontend/src/services/candidateService.ts:59-62 | normalizing twice is normalizing once |
| Service.EscapeFileName | frontend/src/services/candidateService.ts:49 | the file-name escaping of the encoding: the result holds no LF, CR or '"'; a name without them is sent as itself; no `/` or `\` is introduced |
| Service.OnWire | frontend/src/services/candidateService.ts:59-62 | a part as it arrives keeps its name and kind; a text value is normalized and a file keeps everything but its escaped name |
| Service.Transmit | frontend/src/services/candidateService.ts:59-62 | the body as it arrives: the same number of parts, each one the arriving form of the part sent |
| Service.TransmitTextField | frontend/src/services/candidateService.ts:59-62 | looking a text field up in the arriving body finds the normalized value of the field sent, or nothing when none was sent |
| Service.TransmitFileParts | frontend/src/services/candidateService.ts:59-62 | the file parts of the arriving body are the arriving forms of the file parts sent |
| Form.HandleInputChange | frontend/src/components/AddCandidate.tsx:43-50 | only the typed field changes, and that field's error, if any, becomes empty while the other errors stay |
| Form.HandleFileChange | frontend/src/components/AddCandidate.tsx:52-72 | with no file nothing changes. A wrong MIME type, and then a size over 5 MiB, sets the cv error and clears the selection. A file is kept exactly when its type is allowed and it has at most 5 MiB, and keeping it blanks the cv error |
| Form.Without | frontend/src/components/AddCandidate.tsx:93 | filtering out an index drops exactly that element when it is in range, and nothing otherwise |
| Form.AddEducation | frontend/src/components/AddCandidate.tsx:74-88 | a draft with institution and degree is appended and the draft is blanked; otherwise nothing changes |
| Form.RemoveEducation | frontend/src/components/AddCandidate.tsx:90-95 | only the education list changes: for an index in range exactly that entry is dropped and the others keep their order; any other index changes nothing |
| Form.RemoveUndoesAddEducation | frontend/src/components/AddCandidate.tsx:74-95 | removing at the old length undoes adding an education |
| Form.AddWorkExperience | frontend/src/components/AddCandidate.tsx:97-111 | a draft with company and position is appended and the draft is blanked; otherwise nothing changes |
| Form.RemoveWorkExperience | frontend/src/components/AddCandidate.tsx:113-118 | only the work-experience list changes: for an index in range exactly that entry is dropped and the others keep their order; any other index changes nothing |
| Form.RemoveUndoesAddWorkExperience | frontend/src/components/AddCandidate.tsx:97-118 | removing at the old length undoes adding a work experience |
| Form.FormErrors | frontend/src/components/AddCandidate.tsx:120-136 | an error is present for a name exactly when it trims to empty. The e-mail gets "Email is required" exactly when it trims to empty, and the format error exactly when it does not but fails the pattern. No errors exactly when both names are non-blank and the e-mail matches |
| Form.ValidateForm | frontend/src/components/AddCandidate.tsx:120-139 | the errors are replaced by the new ones; the form is valid exactly when both names are non-blank and the e-mail matches the pattern |
| Form.SurroundingSpaceIsFormatError | frontend/src/components/AddCandidate.tsx:131-135 | an e-mail with white space at either end that is not all white space gets the format error, because the pattern is matched against the untrimmed value |
| Form.ToCandidateData | frontend/src/components/AddCandidate.tsx:153-156 | the data handed to the service: the form's fields and lists, phone and address as entered (possibly empty), and the chosen file |
| Form.HandleSubmit | frontend/src/components/AddCandidate.tsx:141-198 | a body is sent exactly when the form is valid, and it is the encoding of the form data and file; an invalid form shows "Please fix the errors in the form"; success resets the data, file and errors but keeps the drafts; failure keeps the data and shows the service's error |
| Form.FailureBannerShowsServiceText | frontend/src/components/AddCandidate.tsx:188-193 | a failed submit shows the server's error text or the service's fallback, never the component's own fallback |
| Form.SuccessBannerShowsServerText | frontend/src/components/AddCandidate.tsx:158-176 | a resolved call after a valid submit shows the server's message, or the component's own success text when that message is missing or empty, and clears the form data |
| Form.StepKeepsConsistent | frontend/src/components/AddCandidate.tsx:43-198 | every user action keeps the form consistent: a selected file passes the client's rule, and every listed entry has its required parts |
| Form.RunKeepsConsistent | frontend/src/components/AddCandidate.tsx:43-198 | any sequence of user actions from a consistent state, such as the initial one, ends in a consistent state |
| Intake.ErrorMiddleware | backend/src/index.ts:32-43 | 400 with the error's own message exactly when it contains "Invalid file type"; otherwise 500 with the generic text |
| Intake.ServerBody | backend/src/routes/candidateRoutes.ts:37 | `req.body` after multer: each field is the text part of that name, and the nested lists arrive as text for the controller to parse |
| Intake.UploadOf | backend/src/routes/candidateRoutes.ts:30-37 | `upload.single('cv')` over the body. A text part over 1 MiB of UTF-8 makes the upload fail. Once all text fits, the outcome is decided by the file parts that arrive, in body order; a part whose file name has an empty basename does not arrive. No arriving file gives no file. A first arriving file not named `cv` is refused with "Unexpected field". A first `cv` file refused by the filter, the size limit or the disk gives that refusal. Any further arriving file is refused with "Unexpected field". A file is stored exactly when it is the only arriving file, it is named `cv`, its basename has an allowed extension, it has at most 5 MiB and the disk write succeeds |
| Intake.ReadPart | backend/src/routes/candidateRoutes.ts:30-37 | multer on one part: a text part within the limit and a file part with an empty basename change nothing; a longer text part fails with "Field value too long"; any other file part not named `cv`, or after a stored file, is an unexpected field; the first `cv` file goes through `StoreCv` under its basename |
| Intake.ReadConcat | backend/src/routes/candidateRoutes.ts:37 | reading a body is reading its first half and then, unless that failed, the rest from where it left off |
| Intake.ReadQuiet | backend/src/routes/candidateRoutes.ts:37 | text that fits and skipped files leave the upload as it was |
| Intake.ReadOverlong | backend/src/routes/candidateRoutes.ts:37 | a text part over the limit anywhere in the body makes the upload fail |
| Intake.ReadAfterStored | backend/src/routes/candidateRoutes.ts:37 | once a file is stored, the rest of a body whose text fits keeps it exactly when no further file arrives, and otherwise fails with "Unexpected field" |
| Intake.OutcomeOf | backend/src/routes/candidateRoutes.ts:30-37 | the upload read from the arriving files alone: none gives no file; a first one not called `cv` is an unexpected field; a refused first `cv` file gives its refusal; a further file is an unexpected field; a file is stored exactly when it is the only one, is called `cv`, passes the rules and is written |
| Intake.ReadFromNothing | backend/src/routes/candidateRoutes.ts:37 | reading a body whose text fits, part by part, ends where the arriving files alone decide |
| Intake.SkippedPartIgnored | backend/src/routes/candidateRoutes.ts:37 | a file part with an empty basename can be dropped from the body without changing the upload |
| Intake.QuietPartIgnored | backend/src/routes/candidateRoutes.ts:37 | a part that changes nothing, anywhere in the body, can be left out of the reading |
| Intake.UploadIsRead | backend/src/routes/candidateRoutes.ts:37 | the upload is the part-by-part reading of the body from no file |
| Intake.ReadFrom | backend/src/routes/candidateRoutes.ts:37 | after a prefix of text that fits and skipped files, the upload is decided from the next part on |
| Intake.PostCandidate | backend/src/routes/candidateRoutes.ts:37 | the upload runs before the controller. A refused upload goes to the error handler and changes nothing. Otherwise the controller's transition is the route's answer, and a stored file stays in the directory whatever that answer is |
| Intake.PostCreates | backend/src/controllers/candidateController.ts:75-114 | a request whose upload is not refused and whose body passes every controller check, with a write that succeeds, gets 201 and appends one record read from the body, holding the stored path exactly when a file was stored |
| Intake.PostConflicts | backend/src/controllers/candidateController.ts:64-72 | a request whose upload is not refused and whose well-formed body names a stored e-mail gets 409, the store is unchanged, and a stored file stays |
| Intake.WrongFileTypeIsClientError | backend/src/index.ts:35-37 | a `cv` file part with a non-empty basename whose extension is disallowed, after only text that fits and skipped files, gets 400 with the filter's message whatever follows, and nothing changes |
| Intake.OversizedFileIsServerError | backend/src/index.ts:39-42 | a `cv` file part whose basename has an allowed extension and which is over 5 MiB, after only text that fits and skipped files, gets 500 with the generic text, and nothing changes |
| Intake.FailedWriteIsRefused | backend/src/routes/candidateRoutes.ts:9-12 | an accepted `cv` file whose disk write fails, after only text that fits and skipped files, is answered by the error handler with the file system's message, and nothing changes |
| Intake.OverlongFieldIsServerError | backend/src/index.ts:39-42 | a text part over 1 MiB, after only text that fits and skipped files, gets 500 with the generic text, and nothing changes |
| Intake.UnexpectedFileIsServerError | backend/src/index.ts:39-42 | an upload refused with "Unexpected field" gets 500 with the generic text, and nothing changes |
| Intake.MisnamedFileRefused | backend/src/routes/candidateRoutes.ts:37 | a file part with a non-empty basename under a field name other than `cv`, after only text that fits and skipped files, gets 500 before the controller runs, and nothing changes |
| Intake.RejectedRequestLeavesOrphanFile | backend/src/routes/candidateRoutes.ts:9-17 | a stored upload whose request is turned down stays on disk, and no candidate refers to it |
| Intake.PostKeepsFilesCovered | backend/src/controllers/candidateController.ts:75-85 | every request keeps the store invariant, and every stored résumé path names a file in the directory |
| Intake.CreateKeepsCovered | backend/src/controllers/candidateController.ts:75-85 | a create keeps every stored résumé path covered when the directory afterwards holds its old files and the new record's path |
| Intake.ReplyOf | frontend/src/services/candidateService.ts:64-69 | the reply is ok exactly for 2xx, and carries the body's `error` or `message` field |
| Intake.ValidFormPassesServerChecks | backend/src/controllers/candidateController.ts:51-61 | a form that passes client validation arrives with its names as the encoding normalizes their line breaks and its e-mail unchanged, and passes the server's required-field and e-mail checks |
| Intake.NestedListsArriveIntact | backend/src/controllers/candidateController.ts:43-48 | when parsing undoes stringifying and the stringified text has no raw line break, the lists the server decodes are the form's lists; an empty list arrives as no field at all |
| Intake.OptionalFieldsArrive | frontend/src/services/candidateService.ts:47-48 | an empty phone or address arrives as absent; a non-empty one arrives with every line break written as CR LF |
| Intake.SubmitBody | backend/src/controllers/candidateController.ts:43-61 | the body a valid submit brings passes the controller's checks and decoding, with the form's lists and the form's text as the encoding normalizes it |
| Intake.SubmittedFileParts | frontend/src/services/candidateService.ts:49 | the only file part a submit sends is the chosen résumé, under its escaped name |
| Intake.SubmittedFiles | frontend/src/services/candidateService.ts:49 | the files that arrive at the upload from a submit: the chosen résumé under its received name, or none when there is no résumé or that name is empty |
| Intake.SubmittedCvAt | frontend/src/services/candidateService.ts:43-49 | the résumé's part follows only the leading text fields, which are quiet when they fit |
| Intake.ArrivalsOfFileParts | backend/src/routes/candidateRoutes.ts:37 | only the file parts of a body decide which files arrive |
| Intake.SubmittedUpload | frontend/src/services/candidateService.ts:49 | once the submitted text fits, the upload middleware sees a submit as the single-file upload of the chosen résumé under its received name, or as no file when none is chosen or that name is empty; text over the limit makes the upload fail |
| Intake.KeptCvWithinServerLimit | frontend/src/components/AddCandidate.tsx:63-67 | a résumé the form keeps is never over the server's 5 MiB limit |
| Intake.FormKeepsWhatServerRefuses | backend/src/routes/candidateRoutes.ts:19-28 | a 10-byte `application/pdf` file named `resume` passes the form's check but not the server's |
| Intake.PlainName | frontend/src/services/candidateService.ts:49 | a file name of lower-case letters arrives at the upload as itself |
| Intake.AcceptedSubmitReachesController | backend/src/routes/candidateRoutes.ts:9-37 | when the submitted text fits, a résumé that the server's rules accept and the disk writes is stored under `uploads/` with a name that parses back into the clock value, the random number and the received name's extension; with no résumé there is no upload |
| Intake.FailedWriteRefusesSubmit | backend/src/routes/candidateRoutes.ts:9-12 | a submit whose leading text fits and whose accepted résumé the disk fails to write is answered by the error handler with the file system's message before the controller runs, and nothing changes |
| Intake.ValidSubmitCreatesCandidate | backend/src/controllers/candidateController.ts:75-114 | a valid submit with a new e-mail, text that fits, a write that succeeds, and no résumé or one the server accepts and the disk writes, gets 201. It appends one record holding the form's text with line breaks as CR LF, the e-mail unchanged, and rows built from its lists. With a résumé, the file is kept and the record's `cvPath` is its stored path; without one, `cvPath` is absent and no file is added |
| Intake.WrongExtensionSubmitRefused | backend/src/routes/candidateRoutes.ts:19-28 | a submit whose leading text fits and whose résumé has a non-empty received name with a disallowed extension gets 400 with the filter's message before the controller runs; nothing is stored, and a valid form shows that message |
| Intake.CreatedReplyShowsServerMessage | frontend/src/components/AddCandidate.tsx:158-174 | after a 201 the form resets and shows the server's success message |
| Intake.ErrorReplyShowsItsText | frontend/src/components/AddCandidate.tsx:188-193 | after a valid submit, a non-2xx reply with a non-empty `error` text shows exactly that text |
| Intake.DuplicateReachesConflict | backend/src/controllers/candidateController.ts:64-72 | a valid submit with a stored e-mail, text that fits, and no résumé or one the server accepts and the disk writes, gets 409 and leaves the store unchanged; an accepted résumé stays in the directory |
| Intake.DuplicateSubmitShowsConflict | backend/src/controllers/candidateController.ts:64-72 | the same, and the form then shows the duplicate message |

## Left out

- **Date parsing.** `new Date(text)` is an opaque `DateFrom(text)`, so invalid dates are not told apart.
- **`parseInt` of the route parameter.** `getCandidateById` takes the parsed integer. A `NaN` identity is not modelled; it would be a Prisma validation error and a 500.
- **Wall-clock `createdAt`.** It is the creation rank, equal to the identity. Ties between candidates created in the same millisecond are therefore not modelled.
- **`updatedAt`, and the identities and foreign keys of nested rows.** They are left out because no operation here reads them.
- **Read failures of `getCandidates` and `getCandidateById`.** The 500 path when the database is unreachable is left out, since the store is an in-memory value.
- Controller.CreateCandidate: the uniqueness lookup `findUnique` is taken to always answer. If it throws (an unreachable database, say), the source answers 500 even for a stored e-mail; the contract's "stored e-mail gives 409" does not cover that case.
- **Non-string JSON fields.** Entries inside parsed nested JSON are assumed to have the entry shape. JSON that parses to an array of other values is not modelled.
- **Network failures of `fetch`.** Only replies that arrive are modelled.
- **The UI around the form.** The loading flag, scrolling, the `onSuccess` timer and all rendering are left out.
- **Development-mode `details` fields.** Error bodies carry only their `error` text.
- **Logging.**
- Text.ToLower: folds ASCII letters only. Non-ASCII case mappings cannot turn anything into `.pdf`, `.docx` or `.doc`, so the filter's verdict is unaffected.
- **Draft edits.** Each draft field's change handler is modelled as replacing the whole draft (`EditedEducation`, `EditedWork` in `Form.Step`).
- Intake.ServerBody: a repeated text field is not modelled. Multer would turn it into an array in `req.body`, while the model reads the first part of that name. The encoder never repeats a name. A repeated `cv` file is modelled (`Intake.UploadOf`).
- **The candidate list component and the `getCandidates` client call.** They are outside the intake path.
- Intake.UploadOf: busboy's parsing of the quoted `filename` parameter is not modelled beyond the basename: backslash escapes inside the quotes, control characters that make it drop the part, and its Latin-1 reading of the bytes. The last changes only non-ASCII characters, which affect neither the filter's verdict nor the stored name. Missing field names ("Field name missing") are not modelled either; the encoder always names its parts.
- Intake.UploadOf: multer ends the request at the first error it meets, and the disk write runs while the file streams in. So when an accepted file's write fails and the same file is also over the limit, or a later part also fails (a second file, an overlong field), which error comes first depends on timing. The model reports the size error before the disk's, and the disk's before any later part's. Either way the answer is a 500 with the generic text, unless a file system message mentions "Invalid file type", and nothing is stored.
- Upload.StoreCv: a disk write that fails part-way may leave a partial file, which multer then tries to remove. The model keeps no file for a failed write.
