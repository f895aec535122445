/**
 * The client's candidate service: which multipart fields `createCandidate`
 * emits, how the server reads them back, and what the call yields when the
 * server answers with an error status.
 */
module Service {
  import opened Common
  import opened Text
  import opened Entities

  /** A file the browser hands over: its name, MIME type and size in bytes. */
  datatype BrowserFile = BrowserFile(name: string, mimeType: string, size: nat)

  /** `CandidateData`: what the form passes to the service. */
  datatype CandidateData = CandidateData(
    firstName: string,
    lastName: string,
    email: string,
    phone: Option<string>,
    address: Option<string>,
    educations: Option<seq<EducationEntry>>,
    workExperiences: Option<seq<WorkEntry>>,
    cv: Option<BrowserFile>)

  /** One field of a multipart form body. */
  datatype Part = TextPart(name: string, value: string) | FilePart(name: string, file: BrowserFile)

  /** The value of the first text field called `name`. */
  function TextField(parts: seq<Part>, name: string): Option<string> {
    if |parts| == 0 then None
    else if parts[0].TextPart? && parts[0].name == name then Some(parts[0].value)
    else TextField(parts[1..], name)
  }

  /** The first file field called `name`. */
  function FileField(parts: seq<Part>, name: string): Option<BrowserFile> {
    if |parts| == 0 then None
    else if parts[0].FilePart? && parts[0].name == name then Some(parts[0].file)
    else FileField(parts[1..], name)
  }

  /** The file fields, in body order. */
  function FileParts(parts: seq<Part>): (files: seq<Part>)
    ensures forall i :: 0 <= i < |files| ==> files[i].FilePart?
    ensures (forall i :: 0 <= i < |parts| ==> parts[i].TextPart?) ==> files == []
  {
    if |parts| == 0 then []
    else (if parts[0].FilePart? then [parts[0]] else []) + FileParts(parts[1..])
  }

  lemma {:induction false} FilePartsConcat(a: seq<Part>, b: seq<Part>)
    ensures FileParts(a + b) == FileParts(a) + FileParts(b)
  {
    if |a| > 0 {
      var head: seq<Part> := if a[0].FilePart? then [a[0]] else [];
      assert (a + b)[0] == a[0];
      assert (a + b)[1..] == a[1..] + b;
      FilePartsConcat(a[1..], b);
      assert FileParts(a + b) == head + FileParts(a[1..] + b);
    } else {
      assert a + b == b;
    }
  }

  /** The names of the fields the service may emit, in the order it appends them. */
  const FieldNames: seq<string> :=
    ["firstName", "lastName", "email", "phone", "address", "cv", "educations", "workExperiences"]

  /** The parts of the filled slots, in slot order. */
  function Present(slots: seq<Option<Part>>): (parts: seq<Part>)
    ensures forall i :: 0 <= i < |parts| ==> Some(parts[i]) in slots
  {
    if |slots| == 0 then []
    else
      var rest := Present(slots[1..]);
      assert forall p :: Some(p) in slots[1..] ==> Some(p) in slots;
      (if slots[0].Some? then [slots[0].value] else []) + rest
  }

  function TextValue(slot: Option<Part>): Option<string> {
    if slot.Some? && slot.value.TextPart? then Some(slot.value.value) else None
  }

  function FileValue(slot: Option<Part>): Option<BrowserFile> {
    if slot.Some? && slot.value.FilePart? then Some(slot.value.file) else None
  }

  /** Each filled slot carries the name given for its position. */
  ghost predicate SlotsNamed(slots: seq<Option<Part>>, names: seq<string>) {
    |slots| == |names| && forall i :: 0 <= i < |slots| && slots[i].Some? ==> slots[i].value.name == names[i]
  }

  ghost predicate Distinct(names: seq<string>) {
    forall i, j :: 0 <= i < j < |names| ==> names[i] != names[j]
  }

  lemma {:induction false} NameAbsent(slots: seq<Option<Part>>, names: seq<string>, name: string)
    requires SlotsNamed(slots, names) && name !in names
    ensures TextField(Present(slots), name).None? && FileField(Present(slots), name).None?
  {
    if |slots| > 0 {
      NameAbsent(slots[1..], names[1..], name);
      var parts := Present(slots);
      if slots[0].Some? {
        assert parts[0].name == names[0] && parts[1..] == Present(slots[1..]);
      } else {
        assert parts == Present(slots[1..]);
      }
    }
  }

  /** Slots that hold only text parts give no file part. */
  lemma {:induction false} NoFileSlots(slots: seq<Option<Part>>)
    requires forall i :: 0 <= i < |slots| && slots[i].Some? ==> slots[i].value.TextPart?
    ensures FileParts(Present(slots)) == []
  {
    if |slots| > 0 {
      var head: seq<Part> := if slots[0].Some? then [slots[0].value] else [];
      assert Present(slots) == head + Present(slots[1..]);
      FilePartsConcat(head, Present(slots[1..]));
      assert forall i :: 0 <= i < |slots[1..]| ==> slots[1..][i] == slots[i + 1];
      NoFileSlots(slots[1..]);
    }
  }

  /** When every filled slot but slot `k` holds a text part, the only file
      part is slot `k`'s, if it holds one. */
  lemma {:induction false} OnlyFileSlot(slots: seq<Option<Part>>, k: int)
    requires 0 <= k < |slots|
    requires forall i :: 0 <= i < |slots| && i != k && slots[i].Some? ==> slots[i].value.TextPart?
    ensures FileParts(Present(slots)) == (if slots[k].Some? && slots[k].value.FilePart? then [slots[k].value] else [])
  {
    var head: seq<Part> := if slots[0].Some? then [slots[0].value] else [];
    var rest := Present(slots[1..]);
    assert Present(slots) == head + rest;
    FilePartsConcat(head, rest);
    assert forall i :: 0 <= i < |slots[1..]| ==> slots[1..][i] == slots[i + 1];
    if k == 0 {
      NoFileSlots(slots[1..]);
    } else {
      OnlyFileSlot(slots[1..], k - 1);
    }
  }

  /** With distinct names, looking a slot's name up finds that slot's content. */
  lemma {:induction false} LookupInSlots(slots: seq<Option<Part>>, names: seq<string>, k: int)
    requires SlotsNamed(slots, names) && Distinct(names)
    requires 0 <= k < |slots|
    ensures TextField(Present(slots), names[k]) == TextValue(slots[k])
    ensures FileField(Present(slots), names[k]) == FileValue(slots[k])
  {
    var parts := Present(slots);
    var rest := Present(slots[1..]);
    if slots[0].Some? {
      assert parts[0] == slots[0].value && parts[1..] == rest;
    } else {
      assert parts == rest;
    }
    if k == 0 {
      assert names[0] !in names[1..];
      NameAbsent(slots[1..], names[1..], names[0]);
    } else {
      assert names[k] == names[1..][k - 1];
      LookupInSlots(slots[1..], names[1..], k - 1);
    }
  }

  /** `if (value) formData.append(name, value)`. */
  function OptionalText(name: string, value: Option<string>): Option<Part> {
    if Truthy(value) then Some(TextPart(name, value.value)) else None
  }

  /** `if (xs && xs.length > 0) formData.append(name, JSON.stringify(xs))`. */
  function OptionalList<T>(name: string, xs: Option<seq<T>>, encode: seq<T> -> string): Option<Part> {
    if xs.Some? && |xs.value| > 0 then Some(TextPart(name, encode(xs.value))) else None
  }

  /** The field slots `createCandidate` fills, in the order it appends them. */
  function Slots(d: CandidateData, json: Json): seq<Option<Part>> {
    [ Some(TextPart("firstName", d.firstName)),
      Some(TextPart("lastName", d.lastName)),
      Some(TextPart("email", d.email)),
      OptionalText("phone", d.phone),
      OptionalText("address", d.address),
      if d.cv.Some? then Some(FilePart("cv", d.cv.value)) else None,
      OptionalList("educations", d.educations, json.encodeEducations),
      OptionalList("workExperiences", d.workExperiences, json.encodeWork) ]
  }

  /** The multipart body `createCandidate` builds: the three required fields
      always and first, then each optional field only when it has content. */
  function EncodeCandidate(d: CandidateData, json: Json): (parts: seq<Part>)
    ensures |parts| >= 3
    ensures parts[..3] == [TextPart("firstName", d.firstName), TextPart("lastName", d.lastName), TextPart("email", d.email)]
    ensures forall i :: 0 <= i < |parts| ==> parts[i].name in FieldNames
    ensures TextField(parts, "firstName") == Some(d.firstName)
    ensures TextField(parts, "lastName") == Some(d.lastName)
    ensures TextField(parts, "email") == Some(d.email)
    ensures TextField(parts, "phone") == (if Truthy(d.phone) then d.phone else None)
    ensures TextField(parts, "address") == (if Truthy(d.address) then d.address else None)
    ensures FileField(parts, "cv") == d.cv
    ensures FileParts(parts) == (if d.cv.Some? then [FilePart("cv", d.cv.value)] else [])
    ensures TextField(parts, "educations")
            == (if d.educations.Some? && |d.educations.value| > 0
                then Some(json.encodeEducations(d.educations.value)) else None)
    ensures TextField(parts, "workExperiences")
            == (if d.workExperiences.Some? && |d.workExperiences.value| > 0
                then Some(json.encodeWork(d.workExperiences.value)) else None)
  {
    var slots := Slots(d, json);
    OnlyFileSlot(slots, 5);
    SlotsHead(d, json);
    SlotsNamesAllowed(d, json);
    SlotsLookups(d, json);
    Present(slots)
  }

  lemma FieldNamesDistinct()
    ensures Distinct(FieldNames)
  {
  }

  lemma SlotsHead(d: CandidateData, json: Json)
    ensures var parts := Present(Slots(d, json));
            |parts| >= 3 && parts[..3] == [TextPart("firstName", d.firstName), TextPart("lastName", d.lastName), TextPart("email", d.email)]
  {
    var slots := Slots(d, json);
    var parts := Present(slots);
    var s1, s2, s3 := slots[1..], slots[1..][1..], slots[1..][1..][1..];
    assert parts == [slots[0].value] + Present(s1);
    assert Present(s1) == [s1[0].value] + Present(s2);
    assert Present(s2) == [s2[0].value] + Present(s3);
  }

  lemma SlotsNamesAllowed(d: CandidateData, json: Json)
    ensures var parts := Present(Slots(d, json));
            forall i :: 0 <= i < |parts| ==> parts[i].name in FieldNames
  {
    var slots := Slots(d, json);
    var parts := Present(slots);
    assert SlotsNamed(slots, FieldNames);
    forall i | 0 <= i < |parts| ensures parts[i].name in FieldNames {
      var k :| 0 <= k < |slots| && slots[k] == Some(parts[i]);
    }
  }

  lemma SlotsLookups(d: CandidateData, json: Json)
    ensures var parts := Present(Slots(d, json));
            && TextField(parts, "firstName") == Some(d.firstName)
            && TextField(parts, "lastName") == Some(d.lastName)
            && TextField(parts, "email") == Some(d.email)
            && TextField(parts, "phone") == (if Truthy(d.phone) then d.phone else None)
            && TextField(parts, "address") == (if Truthy(d.address) then d.address else None)
            && FileField(parts, "cv") == d.cv
            && TextField(parts, "educations")
               == (if d.educations.Some? && |d.educations.value| > 0
                   then Some(json.encodeEducations(d.educations.value)) else None)
            && TextField(parts, "workExperiences")
               == (if d.workExperiences.Some? && |d.workExperiences.value| > 0
                   then Some(json.encodeWork(d.workExperiences.value)) else None)
  {
    var slots := Slots(d, json);
    assert SlotsNamed(slots, FieldNames);
    FieldNamesDistinct();
    LookupInSlots(slots, FieldNames, 0);
    LookupInSlots(slots, FieldNames, 1);
    LookupInSlots(slots, FieldNames, 2);
    LookupInSlots(slots, FieldNames, 3);
    LookupInSlots(slots, FieldNames, 4);
    LookupInSlots(slots, FieldNames, 5);
    LookupInSlots(slots, FieldNames, 6);
    LookupInSlots(slots, FieldNames, 7);
  }

  lemma {:induction false} PresentConcat(a: seq<Option<Part>>, b: seq<Option<Part>>)
    ensures Present(a + b) == Present(a) + Present(b)
  {
    if |a| > 0 {
      assert (a + b)[0] == a[0] && (a + b)[1..] == a[1..] + b;
      PresentConcat(a[1..], b);
    } else {
      assert a + b == b;
    }
  }

  /** With a chosen file, the body is the filled leading text fields, then
      the `cv` part, then the lists. */
  lemma CvPosition(d: CandidateData, json: Json) returns (k: nat)
    requires d.cv.Some?
    ensures var parts := EncodeCandidate(d, json);
            && k < |parts| && parts[k] == FilePart("cv", d.cv.value)
            && forall i :: 0 <= i < k ==>
                 || parts[i] == TextPart("firstName", d.firstName)
                 || parts[i] == TextPart("lastName", d.lastName)
                 || parts[i] == TextPart("email", d.email)
                 || (d.phone.Some? && parts[i] == TextPart("phone", d.phone.value))
                 || (d.address.Some? && parts[i] == TextPart("address", d.address.value))
  {
    var slots := Slots(d, json);
    var lead, tail := slots[..5], slots[6..];
    assert slots == lead + ([slots[5]] + tail);
    PresentConcat(lead, [slots[5]] + tail);
    PresentConcat([slots[5]], tail);
    assert Present([slots[5]]) == [FilePart("cv", d.cv.value)];
    k := |Present(lead)|;
    var parts := Present(slots);
    forall i | 0 <= i < k
      ensures || parts[i] == TextPart("firstName", d.firstName)
              || parts[i] == TextPart("lastName", d.lastName)
              || parts[i] == TextPart("email", d.email)
              || (d.phone.Some? && parts[i] == TextPart("phone", d.phone.value))
              || (d.address.Some? && parts[i] == TextPart("address", d.address.value))
    {
      assert parts[i] == Present(lead)[i];
      assert Some(parts[i]) in lead;
    }
  }

  // ---- the body on the wire ----

  /** CR and LF occur only as the pair CR LF. */
  ghost predicate CrlfOnly(t: string) {
    forall i :: 0 <= i < |t| ==> CrlfAt(t, i)
  }

  /** The line-break normalization the multipart/form-data encoding of the
      HTML standard applies to every text value: a CR LF pair stays, and any
      other CR or LF becomes CR LF. */
  function NormalizeNewlines(s: string): (t: string)
    ensures |s| <= |t|
    ensures t == [] <==> s == []
    ensures NoLineBreak(s) ==> t == s
  {
    if |s| == 0 then []
    else
      assert forall i :: 1 <= i < |s| ==> s[i] == s[1..][i - 1];
      if s[0] == '\r' && |s| > 1 && s[1] == '\n' then
        assert forall i :: 2 <= i < |s| ==> s[i] == s[2..][i - 2];
        "\r\n" + NormalizeNewlines(s[2..])
      else if s[0] == '\r' || s[0] == '\n' then "\r\n" + NormalizeNewlines(s[1..])
      else [s[0]] + NormalizeNewlines(s[1..])
  }

  /** The line-break condition at one index. */
  ghost predicate CrlfAt(t: string, i: int)
    requires 0 <= i < |t|
  {
    && (t[i] == '\r' ==> i + 1 < |t| && t[i + 1] == '\n')
    && (t[i] == '\n' ==> 0 < i && t[i - 1] == '\r')
  }

  lemma CrlfOnlyConcat(a: string, b: string)
    requires CrlfOnly(a) && CrlfOnly(b)
    ensures CrlfOnly(a + b)
  {
    var t := a + b;
    forall i | 0 <= i < |t|
      ensures CrlfAt(t, i)
    {
      if i < |a| {
        assert CrlfAt(a, i);
        assert t[i] == a[i];
        if i + 1 < |a| { assert t[i + 1] == a[i + 1]; }
        if 0 < i { assert t[i - 1] == a[i - 1]; }
      } else {
        var j := i - |a|;
        assert CrlfAt(b, j);
        assert t[i] == b[j];
        if j + 1 < |b| { assert t[i + 1] == b[j + 1]; }
        if 0 < j { assert t[i - 1] == b[j - 1]; }
      }
    }
  }

  /** A suffix of a CR-LF-only text that does not start inside a pair is
      CR-LF-only. */
  lemma CrlfOnlySuffix(t: string, k: int)
    requires CrlfOnly(t) && 0 <= k <= |t|
    requires k == 0 || t[k - 1] != '\r'
    ensures CrlfOnly(t[k..])
  {
    var u := t[k..];
    forall j | 0 <= j < |u|
      ensures CrlfAt(u, j)
    {
      assert CrlfAt(t, k + j);
      assert u[j] == t[k + j];
      if j + 1 < |u| { assert u[j + 1] == t[k + j + 1]; }
      if 0 < j { assert u[j - 1] == t[k + j - 1]; }
    }
  }

  /** After normalization every line break is a CR LF pair. */
  lemma {:induction false} NormalizedIsCrlfOnly(s: string)
    ensures CrlfOnly(NormalizeNewlines(s))
  {
    if |s| > 0 {
      var crlf := "\r\n";
      assert CrlfOnly(crlf) by {
        assert crlf[0] == '\r' && crlf[1] == '\n';
      }
      if s[0] == '\r' && |s| > 1 && s[1] == '\n' {
        NormalizedIsCrlfOnly(s[2..]);
        CrlfOnlyConcat(crlf, NormalizeNewlines(s[2..]));
      } else if s[0] == '\r' || s[0] == '\n' {
        NormalizedIsCrlfOnly(s[1..]);
        CrlfOnlyConcat(crlf, NormalizeNewlines(s[1..]));
      } else {
        NormalizedIsCrlfOnly(s[1..]);
        CrlfOnlyConcat([s[0]], NormalizeNewlines(s[1..]));
      }
    }
  }

  /** Text whose line breaks are already CR LF pairs is left as it is. */
  lemma {:induction false} CrlfOnlyUnchanged(t: string)
    requires CrlfOnly(t)
    ensures NormalizeNewlines(t) == t
  {
    if |t| > 0 {
      assert CrlfAt(t, 0);
      if t[0] == '\r' {
        CrlfOnlySuffix(t, 2);
        CrlfOnlyUnchanged(t[2..]);
        assert t == "\r\n" + t[2..];
      } else {
        CrlfOnlySuffix(t, 1);
        CrlfOnlyUnchanged(t[1..]);
        assert t == [t[0]] + t[1..];
      }
    }
  }

  /** Normalizing twice is normalizing once. */
  lemma NormalizeIdempotent(s: string)
    ensures NormalizeNewlines(NormalizeNewlines(s)) == NormalizeNewlines(s)
  {
    NormalizedIsCrlfOnly(s);
    CrlfOnlyUnchanged(NormalizeNewlines(s));
  }

  /** How the multipart/form-data encoding writes one file-name character. */
  function EscapeChar(c: char): string {
    if c == '\n' then "%0A" else if c == '\r' then "%0D" else if c == '"' then "%22" else [c]
  }

  predicate PlainFileName(name: string) {
    forall i :: 0 <= i < |name| ==> name[i] != '\n' && name[i] != '\r' && name[i] != '"'
  }

  /** The file-name escaping of the multipart/form-data encoding: LF, CR and
      '"' are written as %0A, %0D and %22, and every other character as
      itself. */
  function EscapeFileName(name: string): (e: string)
    ensures PlainFileName(e)
    ensures PlainFileName(name) ==> e == name
    ensures (forall i :: 0 <= i < |name| ==> name[i] != '/' && name[i] != '\\')
            ==> forall i :: 0 <= i < |e| ==> e[i] != '/' && e[i] != '\\'
  {
    if |name| == 0 then []
    else
      assert forall i :: 1 <= i < |name| ==> name[i] == name[1..][i - 1];
      var rest := EscapeFileName(name[1..]);
      var e := EscapeChar(name[0]) + rest;
      assert forall i :: |EscapeChar(name[0])| <= i < |e| ==> e[i] == rest[i - |EscapeChar(name[0])|];
      e
  }

  /** A part as the server reads it once the browser has encoded it: text
      values have their line breaks normalized, file names are escaped. */
  function OnWire(p: Part): (q: Part)
    ensures q.name == p.name && q.TextPart? == p.TextPart?
    ensures p.TextPart? ==> q.value == NormalizeNewlines(p.value)
    ensures p.FilePart? ==> q.file == p.file.(name := EscapeFileName(p.file.name))
  {
    match p
    case TextPart(n, v) => TextPart(n, NormalizeNewlines(v))
    case FilePart(n, f) => FilePart(n, f.(name := EscapeFileName(f.name)))
  }

  /** `fetch` with a `FormData` body: the parts in order, each as it arrives. */
  function Transmit(parts: seq<Part>): (sent: seq<Part>)
    ensures |sent| == |parts|
    ensures forall i :: 0 <= i < |parts| ==> sent[i] == OnWire(parts[i])
  {
    seq(|parts|, i requires 0 <= i < |parts| => OnWire(parts[i]))
  }

  /** Optional text as it arrives: normalized when present. */
  function NormalizedOption(v: Option<string>): Option<string> {
    if v.Some? then Some(NormalizeNewlines(v.value)) else None
  }

  /** Looking a text field up after the encoding finds the normalized value
      of the field looked up before it. */
  lemma {:induction false} TransmitTextField(parts: seq<Part>, name: string)
    ensures TextField(Transmit(parts), name) == NormalizedOption(TextField(parts, name))
  {
    if |parts| > 0 {
      assert Transmit(parts)[1..] == Transmit(parts[1..]);
      TransmitTextField(parts[1..], name);
    }
  }

  /** Encoding a body encodes each of its halves. */
  lemma TransmitConcat(a: seq<Part>, b: seq<Part>)
    ensures Transmit(a + b) == Transmit(a) + Transmit(b)
  {
  }

  /** The file parts after the encoding are the encoded file parts. */
  lemma {:induction false} TransmitFileParts(parts: seq<Part>)
    ensures FileParts(Transmit(parts)) == Transmit(FileParts(parts))
  {
    if |parts| > 0 {
      var rest := parts[1..];
      var head: seq<Part> := if parts[0].FilePart? then [parts[0]] else [];
      assert parts == [parts[0]] + rest;
      TransmitConcat([parts[0]], rest);
      FilePartsConcat(Transmit([parts[0]]), Transmit(rest));
      TransmitFileParts(rest);
      assert FileParts(Transmit([parts[0]])) == Transmit(head);
      assert FileParts(parts) == head + FileParts(rest);
      TransmitConcat(head, FileParts(rest));
    }
  }

  /** `JSON.stringify` never writes a raw line break: it escapes them inside
      strings and adds none between values. */
  ghost predicate StringifiesOnOneLine(json: Json) {
    && (forall xs :: NoLineBreak(json.encodeEducations(xs)))
    && (forall xs :: NoLineBreak(json.encodeWork(xs)))
  }

  /** What the service sees of the server's answer: whether the status was
      2xx, and the `error` and `message` fields of the JSON body. */
  datatype Reply = Reply(ok: bool, error: Option<string>, message: Option<string>)

  const CreateFailedFallback := "Failed to create candidate"

  /** The call resolves with the body, or rejects with an error message. */
  datatype CallResult = Resolved(serverMessage: Option<string>) | Rejected(errorMessage: string)

  /** The outcome of `createCandidate` once the reply is in: on a non-ok
      reply it fails with the server's `error` text, or a fixed text when that
      is missing or empty. */
  function ReadCreateReply(reply: Reply): (r: CallResult)
    ensures r.Resolved? <==> reply.ok
    ensures r.Resolved? ==> r.serverMessage == reply.message
    ensures r.Rejected? ==> r.errorMessage != ""
    ensures r.Rejected? && Truthy(reply.error) ==> r.errorMessage == reply.error.value
    ensures r.Rejected? && !Truthy(reply.error) ==> r.errorMessage == CreateFailedFallback
  {
    if reply.ok then Resolved(reply.message)
    else Rejected(if Truthy(reply.error) then reply.error.value else CreateFailedFallback)
  }
}
