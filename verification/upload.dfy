/**
 * The upload policy of the candidate routes (multer configuration): the
 * extension whitelist, the 5 MiB ceiling, and the generated storage name
 * `cv-<timestamp>-<random><ext>` under the `uploads/` directory.
 */
module Upload {
  import opened Common
  import opened Text
  import opened Decimal

  predicate AllSlashes(s: string) {
    forall i :: 0 <= i < |s| ==> s[i] == '/'
  }

  /** Drops trailing '/' separators. */
  function StripTrailingSlashes(p: string): (q: string)
    ensures |q| <= |p| && q == p[..|q|]
    ensures AllSlashes(p[|q|..])
    ensures |q| > 0 ==> q[|q| - 1] != '/'
  {
    if |p| > 0 && p[|p| - 1] == '/' then
      var q := StripTrailingSlashes(p[..|p| - 1]);
      assert p[|q|..] == p[..|p| - 1][|q|..] + ['/'];
      q
    else
      p
  }

  /** Index just past the last '/', or 0 when there is none. */
  function SegmentStart(q: string): (k: nat)
    ensures k <= |q|
    ensures forall i :: k <= i < |q| ==> q[i] != '/'
    ensures k > 0 ==> q[k - 1] == '/'
  {
    if |q| == 0 then 0
    else if q[|q| - 1] == '/' then |q|
    else SegmentStart(q[..|q| - 1])
  }

  /** The last path component, trailing separators ignored. */
  function LastSegment(p: string): (seg: string)
    ensures forall i :: 0 <= i < |seg| ==> seg[i] != '/'
  {
    var q := StripTrailingSlashes(p);
    q[SegmentStart(q)..]
  }

  /** Index of the last '.' of `seg`, if any. */
  function LastDot(seg: string): (r: Option<nat>)
    ensures r.Some? ==> r.value < |seg| && seg[r.value] == '.'
    ensures r.Some? ==> forall i :: r.value < i < |seg| ==> seg[i] != '.'
    ensures r.None? ==> forall i :: 0 <= i < |seg| ==> seg[i] != '.'
  {
    if |seg| == 0 then None
    else if seg[|seg| - 1] == '.' then Some(|seg| - 1)
    else LastDot(seg[..|seg| - 1])
  }

  /** Node's POSIX `path.extname`: the last component from its last '.' to its
      end; empty when the component has no '.', when that '.' is its first
      character, or when the component is "..". */
  function ExtName(p: string): (e: string)
    ensures e == [] || e[0] == '.'
    ensures forall i :: 0 < i < |e| ==> e[i] != '.' && e[i] != '/'
    ensures var seg := LastSegment(p);
            e == [] <==> (forall i :: 0 < i < |seg| ==> seg[i] != '.') || seg == ".."
    ensures var seg := LastSegment(p);
            e != [] ==> |e| < |seg| && EndsWith(seg, e)
  {
    var seg := LastSegment(p);
    match LastDot(seg)
    case None => ""
    case Some(d) => if d == 0 || seg == ".." then "" else seg[d..]
  }

  const AllowedExtensions: seq<string> := [".pdf", ".docx", ".doc"]

  /** The text the error middleware looks for. */
  const InvalidFileTypePrefix := "Invalid file type"

  const InvalidFileTypeMessage := InvalidFileTypePrefix + ". Only PDF and DOCX files are allowed."

  /** What `fileFilter` hands to multer's callback. */
  datatype FilterVerdict = Accept | Reject(message: string)

  /** `fileFilter`: the lower-cased extension of the original name must be on
      the whitelist. */
  function FileFilter(originalName: string): (v: FilterVerdict)
    ensures v.Reject? ==> StartsWith(v.message, InvalidFileTypePrefix)
  {
    if ToLower(ExtName(originalName)) in AllowedExtensions then Accept
    else
      assert InvalidFileTypeMessage[..|InvalidFileTypePrefix|] == InvalidFileTypePrefix;
      Reject(InvalidFileTypeMessage)
  }

  /** Independent reading of the whitelist: ignoring trailing separators, the
      name ends with a whitelisted extension in any letter case, and that
      extension is preceded by some character other than '/'. */
  ghost predicate EndsWithAllowedExtension(name: string) {
    exists k: int, j: int ::
      && 0 < k < j <= |name|
      && name[k - 1] != '/'
      && ToLower(name[k..j]) in AllowedExtensions
      && AllSlashes(name[j..])
  }

  /** A name without a '.' has no whitelisted extension. */
  lemma NoDotNoExtension(name: string)
    requires forall i :: 0 <= i < |name| ==> name[i] != '.'
    ensures !EndsWithAllowedExtension(name)
  {
    forall k: int, j: int | 0 < k < j <= |name|
      ensures ToLower(name[k..j]) !in AllowedExtensions
    {
      assert ToLower(name[k..j])[0] == LowerChar(name[k]) != '.';
    }
  }

  /** Anything that lower-cases to a whitelisted extension is a '.' followed
      by at least three letters. */
  lemma AllowedShape(e: string)
    requires ToLower(e) in AllowedExtensions
    ensures |e| >= 4 && e[0] == '.'
    ensures forall i :: 0 < i < |e| ==> e[i] != '.' && e[i] != '/'
  {
    assert LowerChar(e[0]) == '.';
    forall i | 0 < i < |e|
      ensures e[i] != '.' && e[i] != '/'
    {
      assert 'a' <= LowerChar(e[i]) <= 'z';
    }
  }

  /** A non-empty extension is the tail `name[k..j]` of the name with its
      trailing separators dropped, and is preceded by a character other than '/'. */
  lemma NonEmptyExtName(name: string) returns (k: nat, j: nat)
    requires ExtName(name) != []
    ensures 0 < k < j <= |name| && name[k - 1] != '/'
    ensures ExtName(name) == name[k..j] && AllSlashes(name[j..])
  {
    var q := StripTrailingSlashes(name);
    var s0 := SegmentStart(q);
    var seg := q[s0..];
    assert seg == LastSegment(name);
    var d := LastDot(seg).value;
    k, j := s0 + d, |q|;
    assert name[k - 1] == seg[d - 1];
    assert name[j..] == name[|q|..];
  }

  lemma AcceptedHasAllowedSuffix(name: string)
    requires FileFilter(name).Accept?
    ensures EndsWithAllowedExtension(name)
  {
    AllowedShape(ExtName(name));
    var k, j := NonEmptyExtName(name);
  }

  /** Stripping trailing separators stops at the last character that is not one. */
  lemma StripLength(name: string, j: int)
    requires 0 < j <= |name| && name[j - 1] != '/' && AllSlashes(name[j..])
    ensures |StripTrailingSlashes(name)| == j
  {
    var q := StripTrailingSlashes(name);
    assert forall i :: j <= i < |name| ==> name[i] == name[j..][i - j];
    assert forall i :: |q| <= i < |name| ==> name[i] == name[|q|..][i - |q|];
    assert |q| > 0 ==> name[|q| - 1] == q[|q| - 1];
  }

  /** The last component starts no later than a run of non-separators reaching the end. */
  lemma SegmentStartAtMost(q: string, m: int)
    requires 0 <= m < |q| && forall i :: m <= i < |q| ==> q[i] != '/'
    ensures SegmentStart(q) <= m
  {
  }

  lemma LastDotIs(seg: string, d: int)
    requires 0 <= d < |seg| && seg[d] == '.'
    requires forall i :: d < i < |seg| ==> seg[i] != '.'
    ensures LastDot(seg) == Some(d)
  {
  }

  /** A suffix `name[k..j]` with no separator in `name[k - 1..j]` and only
      separators after it is the tail of the last component from a positive
      index on. */
  lemma SuffixInLastSegment(name: string, k: int, j: int) returns (d: nat)
    requires 0 < k < j <= |name|
    requires name[k - 1] != '/' && AllSlashes(name[j..])
    requires forall i :: k <= i < j ==> name[i] != '/'
    ensures 0 < d < |LastSegment(name)| && LastSegment(name)[d..] == name[k..j]
  {
    StripLength(name, j);
    var q := StripTrailingSlashes(name);
    assert forall i :: k - 1 <= i < j ==> q[i] == name[i];
    SegmentStartAtMost(q, k - 1);
    var s0 := SegmentStart(q);
    var seg := q[s0..];
    d := k - s0;
    assert seg[d..] == name[k..j];
  }

  /** A component ending in a whitelisted shape after a positive index has
      exactly that ending as its extension. */
  lemma ExtNameOfSegmentTail(name: string, d: nat)
    requires 0 < d < |LastSegment(name)|
    requires ToLower(LastSegment(name)[d..]) in AllowedExtensions
    ensures ExtName(name) == LastSegment(name)[d..]
  {
    var seg := LastSegment(name);
    var e := seg[d..];
    AllowedShape(e);
    assert forall i :: d <= i < |seg| ==> seg[i] == e[i - d];
    LastDotIs(seg, d);
    assert |seg| >= 5;
  }

  lemma AllowedSuffixAccepted(name: string, k: int, j: int)
    requires 0 < k < j <= |name|
    requires name[k - 1] != '/'
    requires ToLower(name[k..j]) in AllowedExtensions
    requires AllSlashes(name[j..])
    ensures FileFilter(name).Accept?
  {
    var e := name[k..j];
    AllowedShape(e);
    assert forall i :: k <= i < j ==> name[i] == e[i - k];
    var d := SuffixInLastSegment(name, k, j);
    ExtNameOfSegmentTail(name, d);
  }

  /** The whitelist test accepts exactly the names that end with a
      whitelisted extension. */
  lemma FileFilterAcceptsIff(name: string)
    ensures FileFilter(name).Accept? <==> EndsWithAllowedExtension(name)
  {
    if FileFilter(name).Accept? {
      AcceptedHasAllowedSuffix(name);
    }
    if EndsWithAllowedExtension(name) {
      var k: int, j: int :|
        && 0 < k < j <= |name|
        && name[k - 1] != '/'
        && ToLower(name[k..j]) in AllowedExtensions
        && AllSlashes(name[j..]);
      AllowedSuffixAccepted(name, k, j);
    }
  }

  lemma AllowedSuffixIgnoresCase(a: string, b: string)
    requires ToLower(a) == ToLower(b)
    requires EndsWithAllowedExtension(a)
    ensures EndsWithAllowedExtension(b)
  {
    var k: int, j: int :|
      && 0 < k < j <= |a|
      && a[k - 1] != '/'
      && ToLower(a[k..j]) in AllowedExtensions
      && AllSlashes(a[j..]);
    ToLowerSlice(a, k, j);
    ToLowerSlice(b, k, j);
    assert LowerChar(b[k - 1]) == LowerChar(a[k - 1]);
    forall i | 0 <= i < |b[j..]|
      ensures b[j..][i] == '/'
    {
      assert LowerChar(b[j + i]) == LowerChar(a[j + i]);
      assert a[j + i] == a[j..][i];
    }
  }

  /** Names that differ only in letter case get the same verdict. */
  lemma FileFilterIgnoresCase(a: string, b: string)
    requires ToLower(a) == ToLower(b)
    ensures FileFilter(a) == FileFilter(b)
  {
    FileFilterAcceptsIff(a);
    FileFilterAcceptsIff(b);
    if EndsWithAllowedExtension(a) {
      AllowedSuffixIgnoresCase(a, b);
    }
    if EndsWithAllowedExtension(b) {
      AllowedSuffixIgnoresCase(b, a);
    }
  }

  const StoragePrefix := "cv-"

  /** multer's `filename` callback: `"cv-" + Date.now() + "-" +
      Math.round(Math.random() * 1E9) + path.extname(originalname)`, with the
      clock reading and the random draw passed in. */
  function StorageName(timestamp: nat, random: nat, originalName: string): (name: string)
    ensures StartsWith(name, StoragePrefix)
    ensures EndsWith(name, ExtName(originalName))
  {
    StoragePrefix + NatToDecimal(timestamp) + "-" + NatToDecimal(random) + ExtName(originalName)
  }

  /** The three pieces a storage name is built from. */
  datatype NameParts = NameParts(timestamp: nat, random: nat, ext: string)

  /** Reads a storage name back into its pieces. */
  function ParseStorageName(name: string): Option<NameParts> {
    if StartsWith(name, StoragePrefix) then ParseStamps(name[|StoragePrefix|..]) else None
  }

  /** Reads `<digits>-<digits><ext>`. */
  function ParseStamps(rest: string): Option<NameParts> {
    var k := LeadingDigits(rest);
    if k == 0 || k == |rest| || rest[k] != '-' then None
    else
      match ParseRandomAndExt(rest[k + 1..])
      case None => None
      case Some(p) => Some(NameParts(ParseDecimal(rest[..k]), p.0, p.1))
  }

  /** Reads `<digits><ext>`. */
  function ParseRandomAndExt(tail: string): Option<(nat, string)> {
    var m := LeadingDigits(tail);
    if m == 0 then None else Some((ParseDecimal(tail[..m]), tail[m..]))
  }

  lemma ParseRandomAndExtOf(dr: string, e: string)
    requires |dr| > 0 && AllDigits(dr)
    requires |e| == 0 || !IsDigit(e[0])
    ensures ParseRandomAndExt(dr + e) == Some((ParseDecimal(dr), e))
  {
    LeadingDigitsOfConcat(dr, e);
    assert (dr + e)[..|dr|] == dr;
    assert (dr + e)[|dr|..] == e;
  }

  lemma ParseStampsOf(dt: string, tail: string)
    requires |dt| > 0 && AllDigits(dt)
    ensures ParseStamps(dt + "-" + tail)
         == match ParseRandomAndExt(tail)
            case None => None
            case Some(p) => Some(NameParts(ParseDecimal(dt), p.0, p.1))
  {
    var rest := dt + "-" + tail;
    assert rest == dt + ("-" + tail);
    LeadingDigitsOfConcat(dt, "-" + tail);
    assert rest[..|dt|] == dt;
    assert rest[|dt|] == '-';
    assert rest[|dt| + 1..] == tail;
  }

  lemma ParseAssembledName(dt: string, dr: string, e: string)
    requires |dt| > 0 && AllDigits(dt) && |dr| > 0 && AllDigits(dr)
    requires |e| == 0 || !IsDigit(e[0])
    ensures ParseStorageName(StoragePrefix + dt + "-" + dr + e)
         == Some(NameParts(ParseDecimal(dt), ParseDecimal(dr), e))
  {
    var name := StoragePrefix + dt + "-" + dr + e;
    var rest := dt + "-" + (dr + e);
    assert name == StoragePrefix + rest;
    assert name[|StoragePrefix|..] == rest;
    ParseStampsOf(dt, dr + e);
    ParseRandomAndExtOf(dr, e);
  }

  /** A storage name is determined by the clock reading, the random draw and
      the original extension, and it gives all three back: nothing else of the
      original name is in it. */
  lemma StorageNameRoundTrip(timestamp: nat, random: nat, originalName: string)
    ensures ParseStorageName(StorageName(timestamp, random, originalName))
         == Some(NameParts(timestamp, random, ExtName(originalName)))
  {
    ParseAssembledName(NatToDecimal(timestamp), NatToDecimal(random), ExtName(originalName));
    ParseNatToDecimal(timestamp);
    ParseNatToDecimal(random);
  }

  /** Two uploads whose clock reading or random draw differ get different
      names, whatever their original names. */
  lemma StorageNamesDistinct(t1: nat, r1: nat, n1: string, t2: nat, r2: nat, n2: string)
    requires t1 != t2 || r1 != r2
    ensures StorageName(t1, r1, n1) != StorageName(t2, r2, n2)
  {
    StorageNameRoundTrip(t1, r1, n1);
    StorageNameRoundTrip(t2, r2, n2);
  }

  /** `limits.fileSize`: 5 MiB. */
  const MaxFileSize: nat := 5 * 1024 * 1024

  /** multer's message for an upload over `limits.fileSize`. */
  const FileTooLargeMessage := "File too large"

  /** The disk-storage `destination`. */
  const UploadDirectory := "uploads/"

  /** The file part of a request as multer sees it. */
  datatype IncomingFile = IncomingFile(originalName: string, size: nat)

  datatype UploadOutcome = NoFile | Stored(path: string) | Refused(message: string)

  /** `upload.single('cv')`: the filter runs first; an accepted file over the
      size limit is refused; otherwise it is written under the generated name
      and `req.file.path` is the destination joined with that name. */
  function ReceiveCv(file: Option<IncomingFile>, timestamp: nat, random: nat): (r: UploadOutcome)
    ensures file.None? ==> r == NoFile
    ensures file.Some? && FileFilter(file.value.originalName).Reject?
            ==> r == Refused(InvalidFileTypeMessage)
    ensures file.Some? && FileFilter(file.value.originalName).Accept? && file.value.size > MaxFileSize
            ==> r == Refused(FileTooLargeMessage)
    ensures r.Stored? <==> file.Some? && EndsWithAllowedExtension(file.value.originalName)
                           && file.value.size <= MaxFileSize
    ensures r.Stored? ==>
              && StartsWith(r.path, UploadDirectory)
              && ParseStorageName(r.path[|UploadDirectory|..])
                 == Some(NameParts(timestamp, random, ExtName(file.value.originalName)))
  {
    match file
    case None => NoFile
    case Some(f) =>
      FileFilterAcceptsIff(f.originalName);
      match FileFilter(f.originalName)
      case Reject(message) => Refused(message)
      case Accept =>
        if f.size > MaxFileSize then Refused(FileTooLargeMessage)
        else
          var name := StorageName(timestamp, random, f.originalName);
          StorageNameRoundTrip(timestamp, random, f.originalName);
          assert (UploadDirectory + name)[|UploadDirectory|..] == name;
          Stored(UploadDirectory + name)
  }

  /** How the disk write of an accepted file ends: written, or failed with
      the file system's error message. A missing `uploads/` directory is one
      such failure: `destination` is given as a function, so multer does not
      create the directory. */
  datatype DiskOutcome = DiskWritten | DiskFailed(message: string)

  /** One `cv` file through the upload: the policy of `ReceiveCv`, then the
      disk write, whose failure is an error carrying its message. */
  function StoreCv(file: IncomingFile, timestamp: nat, random: nat, disk: DiskOutcome): (r: UploadOutcome)
    ensures !r.NoFile?
    ensures ReceiveCv(Some(file), timestamp, random).Refused? ==> r == ReceiveCv(Some(file), timestamp, random)
    ensures ReceiveCv(Some(file), timestamp, random).Stored? && disk.DiskFailed? ==> r == Refused(disk.message)
    ensures r.Stored? <==> EndsWithAllowedExtension(file.originalName) && file.size <= MaxFileSize
                           && disk == DiskWritten
    ensures r.Stored? ==> r == ReceiveCv(Some(file), timestamp, random)
  {
    match ReceiveCv(Some(file), timestamp, random)
    case Stored(path) => if disk.DiskFailed? then Refused(disk.message) else Stored(path)
    case other => other
  }

  /** An allowed file over the size limit is refused as too large, whatever
      the disk would do. */
  lemma StoreCvOversized(file: IncomingFile, timestamp: nat, random: nat, disk: DiskOutcome)
    requires EndsWithAllowedExtension(file.originalName) && file.size > MaxFileSize
    ensures StoreCv(file, timestamp, random, disk) == Refused(FileTooLargeMessage)
  {
    FileFilterAcceptsIff(file.originalName);
  }

  /** An allowed file within the limit is refused exactly by a failing disk,
      with the disk's message. */
  lemma StoreCvDiskFailed(file: IncomingFile, timestamp: nat, random: nat, disk: DiskOutcome)
    requires EndsWithAllowedExtension(file.originalName) && file.size <= MaxFileSize
    requires disk.DiskFailed?
    ensures StoreCv(file, timestamp, random, disk) == Refused(disk.message)
  {
  }

  /** busboy's default `limits.fieldSize`, in bytes: the route sets only
      `fileSize`, so a text field may hold at most 1 MiB. */
  const FieldSizeLimit: nat := 1024 * 1024

  /** multer's message for a text field over the field-size limit. */
  const FieldTooLongMessage := "Field value too long"

  predicate IsSeparator(c: char) {
    c == '/' || c == '\\'
  }

  /** Index just past the last '/' or '\', or 0 when there is none. */
  function BaseStart(name: string): (k: nat)
    ensures k <= |name|
    ensures forall i :: k <= i < |name| ==> !IsSeparator(name[i])
    ensures k > 0 ==> IsSeparator(name[k - 1])
  {
    if |name| == 0 then 0
    else if IsSeparator(name[|name| - 1]) then |name|
    else BaseStart(name[..|name| - 1])
  }

  /** busboy's reading of a part's file name: the text after its last '/' or
      '\', where "." and ".." count as no name at all. */
  function Basename(name: string): (b: string)
    ensures forall i :: 0 <= i < |b| ==> !IsSeparator(b[i])
    ensures b != "." && b != ".."
    ensures b != [] ==> EndsWith(name, b) && (|b| == |name| || IsSeparator(name[|name| - |b| - 1]))
    ensures b == [] && |name| > 0 ==> IsSeparator(name[|name| - 1]) || name[|name| - 1] == '.'
    ensures (forall i :: 0 <= i < |name| ==> !IsSeparator(name[i])) && name != "." && name != ".."
            ==> b == name
  {
    var k := BaseStart(name);
    var tail := name[k..];
    if tail == "." || tail == ".." then ""
    else
      assert |tail| > 0 ==> name[|name| - |tail|..] == tail;
      tail
  }

  /** Taking the basename of a basename changes nothing. */
  lemma BasenameIdempotent(name: string)
    ensures Basename(Basename(name)) == Basename(name)
  {
  }
}
