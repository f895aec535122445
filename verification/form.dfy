/**
 * The add-candidate form: its state, the input and file handlers, the
 * education and work-experience list edits, `validateForm`, and the submit
 * handler that calls the candidate service.
 */
module Form {
  import opened Common
  import opened Text
  import opened Email
  import opened Entities
  import opened Service

  /** `formData`: the fields the form submits. */
  datatype FormData = FormData(
    firstName: string,
    lastName: string,
    email: string,
    phone: string,
    address: string,
    educations: seq<EducationEntry>,
    workExperiences: seq<WorkEntry>)

  /** The banner above the form (`message`). */
  datatype Banner = SuccessBanner(text: string) | ErrorBanner(text: string)

  /** All state of the component: the form data, the selected file, the
      per-field errors, the two entry drafts and the banner. */
  datatype FormState = FormState(
    data: FormData,
    cv: Option<BrowserFile>,
    errors: map<string, string>,
    draftEducation: EducationEntry,
    draftWork: WorkEntry,
    banner: Option<Banner>)

  const EmptyData := FormData("", "", "", "", "", [], [])
  const BlankEducation := EducationEntry("", "", Some(""), Some(""), Some(""))
  const BlankWork := WorkEntry("", "", Some(""), Some(""), Some(""))
  const InitialState := FormState(EmptyData, None, map[], BlankEducation, BlankWork, None)

  // ---- handleInputChange ----

  /** The text inputs bound to `formData` by their `name` attribute. */
  datatype InputField = FirstNameInput | LastNameInput | EmailInput | PhoneInput | AddressInput {
    function Name(): string {
      match this
      case FirstNameInput => "firstName"
      case LastNameInput => "lastName"
      case EmailInput => "email"
      case PhoneInput => "phone"
      case AddressInput => "address"
    }
  }

  function InputValue(d: FormData, f: InputField): string {
    match f
    case FirstNameInput => d.firstName
    case LastNameInput => d.lastName
    case EmailInput => d.email
    case PhoneInput => d.phone
    case AddressInput => d.address
  }

  /** `handleInputChange`: store the value under the input's name and clear
      that input's error message if it has one. */
  function HandleInputChange(st: FormState, f: InputField, value: string): (r: FormState)
    ensures InputValue(r.data, f) == value
    ensures forall g :: g != f ==> InputValue(r.data, g) == InputValue(st.data, g)
    ensures r.data.educations == st.data.educations && r.data.workExperiences == st.data.workExperiences
    ensures r.errors.Keys == st.errors.Keys
    ensures forall k :: k in r.errors ==> r.errors[k] == if k == f.Name() then "" else st.errors[k]
    ensures r.cv == st.cv && r.draftEducation == st.draftEducation && r.draftWork == st.draftWork
    ensures r.banner == st.banner
  {
    var d := st.data;
    var d' := match f
      case FirstNameInput => d.(firstName := value)
      case LastNameInput => d.(lastName := value)
      case EmailInput => d.(email := value)
      case PhoneInput => d.(phone := value)
      case AddressInput => d.(address := value);
    var name := f.Name();
    var errors := if name in st.errors && st.errors[name] != "" then st.errors[name := ""] else st.errors;
    st.(data := d', errors := errors)
  }

  // ---- handleFileChange ----

  const AllowedMimeTypes: seq<string> := [
    "application/pdf",
    "application/vnd.openxmlformats-officedocument.wordprocessingml.document",
    "application/msword"]

  const MaxCvBytes: nat := 5 * 1024 * 1024
  const WrongTypeError := "Only PDF and DOCX files are allowed"
  const TooLargeError := "File size must be less than 5MB"

  /** The client's acceptance rule for a résumé. */
  predicate AcceptableCv(f: BrowserFile) {
    f.mimeType in AllowedMimeTypes && f.size <= MaxCvBytes
  }

  /** `handleFileChange`: with no file chosen nothing happens; a file of the
      wrong MIME type, and then a file over 5 MiB, is refused with an error
      and clears the selection; otherwise it becomes the selection and the
      `cv` error is blanked. */
  function HandleFileChange(st: FormState, chosen: Option<BrowserFile>): (r: FormState)
    ensures chosen.None? ==> r == st
    ensures r.data == st.data && r.draftEducation == st.draftEducation && r.draftWork == st.draftWork
    ensures r.banner == st.banner
    ensures chosen.Some? && chosen.value.mimeType !in AllowedMimeTypes
            ==> r.cv.None? && r.errors == st.errors["cv" := WrongTypeError]
    ensures chosen.Some? && chosen.value.mimeType in AllowedMimeTypes && chosen.value.size > MaxCvBytes
            ==> r.cv.None? && r.errors == st.errors["cv" := TooLargeError]
    ensures chosen.Some? ==> (r.cv.Some? <==> AcceptableCv(chosen.value))
    ensures chosen.Some? && r.cv.Some? ==> r.cv == chosen && r.errors == st.errors["cv" := ""]
  {
    match chosen
    case None => st
    case Some(f) =>
      if f.mimeType !in AllowedMimeTypes then st.(errors := st.errors["cv" := WrongTypeError], cv := None)
      else if f.size > MaxCvBytes then st.(errors := st.errors["cv" := TooLargeError], cv := None)
      else st.(cv := Some(f), errors := st.errors["cv" := ""])
  }

  // ---- education and work-experience lists ----

  /** `xs.filter((_, i) => i !== index)`. */
  function Without<T>(xs: seq<T>, index: int): (r: seq<T>)
    ensures 0 <= index < |xs| ==> r == xs[..index] + xs[index + 1..]
    ensures !(0 <= index < |xs|) ==> r == xs
    ensures forall x :: x in r ==> x in xs
  {
    if |xs| == 0 then []
    else
      var init := Without(xs[..|xs| - 1], index);
      var last := xs[|xs| - 1];
      if index == |xs| - 1 then
        assert init == xs[..|xs| - 1];
        init
      else
        assert 0 <= index < |xs| - 1 ==> xs[..|xs| - 1][index + 1..] + [last] == xs[index + 1..];
        assert xs[..|xs| - 1] + [last] == xs;
        init + [last]
  }

  predicate EducationComplete(e: EducationEntry) {
    e.institution != "" && e.degree != ""
  }

  predicate WorkComplete(w: WorkEntry) {
    w.company != "" && w.position != ""
  }

  /** `addEducation`: a draft with institution and degree is appended as is
      and the draft is blanked; an incomplete draft changes nothing. */
  function AddEducation(st: FormState): (r: FormState)
    ensures !EducationComplete(st.draftEducation) ==> r == st
    ensures EducationComplete(st.draftEducation) ==>
              && r.data == st.data.(educations := st.data.educations + [st.draftEducation])
              && r.draftEducation == BlankEducation
              && r == st.(data := r.data, draftEducation := BlankEducation)
  {
    if EducationComplete(st.draftEducation) then
      st.(data := st.data.(educations := st.data.educations + [st.draftEducation]), draftEducation := BlankEducation)
    else
      st
  }

  /** `removeEducation(index)`. */
  function RemoveEducation(st: FormState, index: int): (r: FormState)
    ensures r == st.(data := st.data.(educations := r.data.educations))
    ensures 0 <= index < |st.data.educations| ==>
              && |r.data.educations| == |st.data.educations| - 1
              && (forall k :: 0 <= k < index ==> r.data.educations[k] == st.data.educations[k])
              && (forall k :: index <= k < |r.data.educations| ==> r.data.educations[k] == st.data.educations[k + 1])
    ensures !(0 <= index < |st.data.educations|) ==> r == st
  {
    st.(data := st.data.(educations := Without(st.data.educations, index)))
  }

  /** `addWorkExperience`: gated on company and position. */
  function AddWorkExperience(st: FormState): (r: FormState)
    ensures !WorkComplete(st.draftWork) ==> r == st
    ensures WorkComplete(st.draftWork) ==>
              && r.data == st.data.(workExperiences := st.data.workExperiences + [st.draftWork])
              && r.draftWork == BlankWork
              && r == st.(data := r.data, draftWork := BlankWork)
  {
    if WorkComplete(st.draftWork) then
      st.(data := st.data.(workExperiences := st.data.workExperiences + [st.draftWork]), draftWork := BlankWork)
    else
      st
  }

  /** `removeWorkExperience(index)`. */
  function RemoveWorkExperience(st: FormState, index: int): (r: FormState)
    ensures r == st.(data := st.data.(workExperiences := r.data.workExperiences))
    ensures 0 <= index < |st.data.workExperiences| ==>
              && |r.data.workExperiences| == |st.data.workExperiences| - 1
              && (forall k :: 0 <= k < index ==> r.data.workExperiences[k] == st.data.workExperiences[k])
              && (forall k :: index <= k < |r.data.workExperiences| ==> r.data.workExperiences[k] == st.data.workExperiences[k + 1])
    ensures !(0 <= index < |st.data.workExperiences|) ==> r == st
  {
    st.(data := st.data.(workExperiences := Without(st.data.workExperiences, index)))
  }

  /** Removing the entry just added restores the list. */
  lemma RemoveUndoesAddEducation(st: FormState)
    requires EducationComplete(st.draftEducation)
    ensures RemoveEducation(AddEducation(st), |st.data.educations|).data == st.data
  {
    var xs := st.data.educations + [st.draftEducation];
    assert xs[..|st.data.educations|] == st.data.educations;
  }

  lemma RemoveUndoesAddWorkExperience(st: FormState)
    requires WorkComplete(st.draftWork)
    ensures RemoveWorkExperience(AddWorkExperience(st), |st.data.workExperiences|).data == st.data
  {
    var xs := st.data.workExperiences + [st.draftWork];
    assert xs[..|st.data.workExperiences|] == st.data.workExperiences;
  }

  // ---- validateForm ----

  const FirstNameRequired := "First name is required"
  const LastNameRequired := "Last name is required"
  const EmailRequired := "Email is required"
  const EmailInvalid := "Please enter a valid email address"

  /** The error of a required name: present exactly when it trims to "". */
  function RequiredError(s: string, message: string): (e: Option<string>)
    ensures e.Some? <==> AllWhitespace(s)
    ensures e.Some? ==> e.value == message
  {
    TrimEmptyIff(s);
    if Trim(s) == "" then Some(message) else None
  }

  /** The e-mail error: required after trimming, but matched untrimmed. */
  function EmailError(s: string): (e: Option<string>)
    ensures e == Some(EmailRequired) <==> AllWhitespace(s)
    ensures e == Some(EmailInvalid) <==> !AllWhitespace(s) && !MatchesPattern(s)
    ensures e.None? <==> MatchesPattern(s)
  {
    TrimEmptyIff(s);
    ValidateEmailMatchesPattern(s);
    if Trim(s) == "" then
      Some(EmailRequired)
    else if !ValidateEmail(s) then Some(EmailInvalid)
    else None
  }

  /** The errors object built from the three checks, in their order. */
  function ErrorMap(first: Option<string>, last: Option<string>, email: Option<string>): (m: map<string, string>)
    ensures m.Keys <= {"firstName", "lastName", "email"}
    ensures "firstName" in m <==> first.Some?
    ensures "firstName" in m ==> m["firstName"] == first.value
    ensures "lastName" in m <==> last.Some?
    ensures "lastName" in m ==> m["lastName"] == last.value
    ensures "email" in m <==> email.Some?
    ensures "email" in m ==> m["email"] == email.value
    ensures m == map[] <==> first.None? && last.None? && email.None?
  {
    var m1: map<string, string> := if first.Some? then map["firstName" := first.value] else map[];
    var m2 := if last.Some? then m1["lastName" := last.value] else m1;
    var m3 := if email.Some? then m2["email" := email.value] else m2;
    assert "firstName" in m3 ==> m3 != map[];
    assert "lastName" in m3 ==> m3 != map[];
    assert "email" in m3 ==> m3 != map[];
    m3
  }

  /** `newErrors` of `validateForm`. */
  function FormErrors(d: FormData): (errs: map<string, string>)
    ensures errs.Keys <= {"firstName", "lastName", "email"}
    ensures "firstName" in errs <==> AllWhitespace(d.firstName)
    ensures "firstName" in errs ==> errs["firstName"] == FirstNameRequired
    ensures "lastName" in errs <==> AllWhitespace(d.lastName)
    ensures "lastName" in errs ==> errs["lastName"] == LastNameRequired
    ensures "email" in errs && errs["email"] == EmailRequired <==> AllWhitespace(d.email)
    ensures "email" in errs && errs["email"] == EmailInvalid <==> !AllWhitespace(d.email) && !MatchesPattern(d.email)
    ensures "email" in errs <==> !MatchesPattern(d.email)
    ensures errs == map[] <==> !AllWhitespace(d.firstName) && !AllWhitespace(d.lastName) && MatchesPattern(d.email)
  {
    ErrorMap(RequiredError(d.firstName, FirstNameRequired), RequiredError(d.lastName, LastNameRequired), EmailError(d.email))
  }

  datatype Validation = Validation(state: FormState, valid: bool)

  /** `validateForm`: replaces the errors with the new ones (a `cv` error
      included) and reports whether there are none. */
  function ValidateForm(st: FormState): (r: Validation)
    ensures r.state == st.(errors := FormErrors(st.data))
    ensures r.valid <==> !AllWhitespace(st.data.firstName) && !AllWhitespace(st.data.lastName)
                         && MatchesPattern(st.data.email)
  {
    var errs := FormErrors(st.data);
    Validation(st.(errors := errs), errs == map[])
  }

  /** An e-mail with white space around it (but not only white space) gets
      the format error, not the required error. */
  lemma SurroundingSpaceIsFormatError(d: FormData)
    requires |d.email| > 0 && (IsWhitespace(d.email[0]) || IsWhitespace(d.email[|d.email| - 1]))
    requires !AllWhitespace(d.email)
    ensures FormErrors(d)["email"] == EmailInvalid
  {
    ValidateEmailMatchesPattern(d.email);
  }

  // ---- handleSubmit ----

  const FixErrorsMessage := "Please fix the errors in the form"
  const SubmitSuccessFallback := "Candidate successfully added to the system!"
  const SubmitFailureFallback := "An error occurred while adding the candidate. Please try again later."

  /** `{ ...formData, cv: cvFile || undefined }`. */
  function ToCandidateData(st: FormState): (d: CandidateData)
    ensures d.firstName == st.data.firstName && d.lastName == st.data.lastName && d.email == st.data.email
    ensures d.phone == Some(st.data.phone) && d.address == Some(st.data.address)
    ensures d.educations == Some(st.data.educations) && d.workExperiences == Some(st.data.workExperiences)
    ensures d.cv == st.cv
  {
    CandidateData(st.data.firstName, st.data.lastName, st.data.email, Some(st.data.phone),
                  Some(st.data.address), Some(st.data.educations), Some(st.data.workExperiences), st.cv)
  }

  /** The state after a submit, and the multipart body sent, if any. */
  datatype SubmitOutcome = SubmitOutcome(state: FormState, request: Option<seq<Part>>)

  /** `handleSubmit`: an invalid form is not sent; a valid one is sent and,
      on success, the form data, file and errors are reset (the entry drafts
      are kept); on failure the banner shows the error. */
  function HandleSubmit(st: FormState, json: Json, reply: Reply): (r: SubmitOutcome)
    ensures r.request.Some? <==> ValidateForm(st).valid
    ensures r.state.data in {st.data, EmptyData} && r.state.cv in {st.cv, None}
    ensures r.request.Some? ==> r.request.value == EncodeCandidate(ToCandidateData(st), json)
    ensures r.request.None? ==> r.state == st.(errors := FormErrors(st.data), banner := Some(ErrorBanner(FixErrorsMessage)))
    ensures r.request.Some? && reply.ok ==>
              && r.state.data == EmptyData && r.state.cv.None? && r.state.errors == map[]
              && r.state.draftEducation == st.draftEducation && r.state.draftWork == st.draftWork
              && r.state.banner.Some? && r.state.banner.value.SuccessBanner?
    ensures r.request.Some? && !reply.ok ==>
              && r.state.data == st.data && r.state.cv == st.cv && r.state.errors == map[]
              && r.state.banner == Some(ErrorBanner(ReadCreateReply(reply).errorMessage))
  {
    var v := ValidateForm(st);
    if !v.valid then
      SubmitOutcome(v.state.(banner := Some(ErrorBanner(FixErrorsMessage))), None)
    else
      var request := EncodeCandidate(ToCandidateData(st), json);
      match ReadCreateReply(reply)
      case Resolved(message) =>
        var text := if Truthy(message) then message.value else SubmitSuccessFallback;
        SubmitOutcome(v.state.(data := EmptyData, cv := None, errors := map[], banner := Some(SuccessBanner(text))), Some(request))
      case Rejected(message) =>
        var text := if message != "" then message else SubmitFailureFallback;
        SubmitOutcome(v.state.(banner := Some(ErrorBanner(text))), Some(request))
  }

  // ---- the form over a sequence of user actions ----

  datatype Event =
    | Typed(field: InputField, value: string)
    | ChoseFile(file: Option<BrowserFile>)
    | EditedEducation(draft: EducationEntry)
    | EditedWork(workDraft: WorkEntry)
    | AddedEducation
    | RemovedEducation(index: int)
    | AddedWork
    | RemovedWork(index: int)
    | Submitted(reply: Reply)

  function Step(st: FormState, e: Event, json: Json): FormState {
    match e
    case Typed(f, v) => HandleInputChange(st, f, v)
    case ChoseFile(file) => HandleFileChange(st, file)
    case EditedEducation(draft) => st.(draftEducation := draft)
    case EditedWork(w) => st.(draftWork := w)
    case AddedEducation => AddEducation(st)
    case RemovedEducation(i) => RemoveEducation(st, i)
    case AddedWork => AddWorkExperience(st)
    case RemovedWork(i) => RemoveWorkExperience(st, i)
    case Submitted(reply) => HandleSubmit(st, json, reply).state
  }

  function Run(st: FormState, events: seq<Event>, json: Json): FormState
    decreases |events|
  {
    if |events| == 0 then st else Run(Step(st, events[0], json), events[1..], json)
  }

  /** What the form keeps true: a selected file passes the client rule, and
      every listed entry has its two required parts. */
  ghost predicate Consistent(st: FormState) {
    && (st.cv.Some? ==> AcceptableCv(st.cv.value))
    && (forall e :: e in st.data.educations ==> EducationComplete(e))
    && (forall w :: w in st.data.workExperiences ==> WorkComplete(w))
  }

  /** Consistency depends only on the form data and the selected file, and
      resetting either keeps it. */
  lemma ResetKeepsConsistent(st: FormState, after: FormState)
    requires Consistent(st)
    requires after.data == st.data || after.data == EmptyData
    requires after.cv == st.cv || after.cv == None
    ensures Consistent(after)
  {
  }

  lemma SubmitKeepsConsistent(st: FormState, json: Json, reply: Reply)
    requires Consistent(st)
    ensures Consistent(HandleSubmit(st, json, reply).state)
  {
    var after := HandleSubmit(st, json, reply).state;
    assert after.data in {st.data, EmptyData} && after.cv in {st.cv, None};
    ResetKeepsConsistent(st, after);
  }

  lemma StepKeepsConsistent(st: FormState, e: Event, json: Json)
    requires Consistent(st)
    ensures Consistent(Step(st, e, json))
  {
    match e
    case Submitted(reply) => SubmitKeepsConsistent(st, json, reply);
    case _ =>
  }

  /** From any consistent state, e.g. the initial one, every sequence of user
      actions leads to a consistent state. */
  lemma {:induction false} RunKeepsConsistent(st: FormState, events: seq<Event>, json: Json)
    requires Consistent(st)
    ensures Consistent(Run(st, events, json))
    decreases |events|
  {
    if |events| > 0 {
      StepKeepsConsistent(st, events[0], json);
      RunKeepsConsistent(Step(st, events[0], json), events[1..], json);
    }
  }

  /** A rejected call always shows the service's text, never the component's
      own fallback. */
  lemma FailureBannerShowsServiceText(st: FormState, json: Json, reply: Reply)
    requires ValidateForm(st).valid && !reply.ok
    ensures HandleSubmit(st, json, reply).state.banner
            == Some(ErrorBanner(if Truthy(reply.error) then reply.error.value else CreateFailedFallback))
  {
  }

  /** A resolved call shows the server's message, or the component's own
      text when the server sent none, and clears the form. */
  lemma SuccessBannerShowsServerText(st: FormState, json: Json, reply: Reply)
    requires ValidateForm(st).valid && reply.ok
    ensures var after := HandleSubmit(st, json, reply).state;
            && after.banner == Some(SuccessBanner(if Truthy(reply.message) then reply.message.value else SubmitSuccessFallback))
            && after.data == EmptyData
  {
  }
}
