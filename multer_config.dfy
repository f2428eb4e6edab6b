/**
 * The upload configuration: where an uploaded file is stored and under which
 * name, which files the filter lets through, and the size limit.
 */
module MulterConfig {
  import opened Wrappers
  import opened Strings

  /** A file part as the client sent it. */
  datatype IncomingFile = IncomingFile(originalname: string, mimetype: string, size: nat)

  /** `req.file`: an accepted file, with the name it was stored under. */
  datatype StoredFile = StoredFile(originalname: string, mimetype: string, size: nat, filename: string)

  /** `limits: { fileSize: 2000000 }`. */
  const FileSizeLimit: nat := 2000000

  const FilterMessage := "Only .png, .jpg and .jpeg format allowed!"
  const TooLargeMessage := "File too large"

  /** The last index of `c` in `s` before position `end`. */
  function LastIndexBefore(s: string, c: char, end: nat): (r: Option<nat>)
    requires end <= |s|
    ensures r.Some? ==> r.value < end && s[r.value] == c
    ensures r.Some? ==> forall j :: r.value < j < end ==> s[j] != c
    ensures r.None? ==> forall j :: 0 <= j < end ==> s[j] != c
  {
    if end == 0 then None
    else if s[end - 1] == c then Some(end - 1)
    else LastIndexBefore(s, c, end - 1)
  }

  /** The last index of `c` in `s`. */
  function LastIndexOf(s: string, c: char): (r: Option<nat>)
    ensures r.Some? ==> r.value < |s| && s[r.value] == c
    ensures r.Some? ==> forall j :: r.value < j < |s| ==> s[j] != c
    ensures r.None? ==> forall j :: 0 <= j < |s| ==> s[j] != c
  {
    LastIndexBefore(s, c, |s|)
  }

  function StripTrailingSlashes(p: string): (r: string)
    ensures r <= p
    ensures r == [] || r[|r| - 1] != '/'
  {
    if p != [] && p[|p| - 1] == '/' then StripTrailingSlashes(p[..|p| - 1]) else p
  }

  /** The last segment of a path, trailing slashes ignored. */
  function LastSegment(p: string): (r: string)
    ensures forall i :: 0 <= i < |r| ==> r[i] != '/'
  {
    var q := StripTrailingSlashes(p);
    match LastIndexOf(q, '/')
    case None => q
    case Some(i) => q[i + 1..]
  }

  /**
   * Node's `path.extname`: from the last dot of the last segment to its end,
   * or empty when the segment has no dot, starts with its only dot run
   * (`.profile`) or is `..`.
   */
  function Extname(p: string): (e: string)
    ensures e != [] ==> e[0] == '.' && forall i :: 0 < i < |e| ==> e[i] != '.' && e[i] != '/'
    ensures e != [] ==> exists k :: 0 < k < |LastSegment(p)| && LastSegment(p)[k..] == e
    ensures e != [] <==>
      LastSegment(p) != ".." && exists k :: 0 < k < |LastSegment(p)| && LastSegment(p)[k] == '.'
  {
    var base := LastSegment(p);
    match LastIndexOf(base, '.')
    case None => ""
    case Some(k) => if k == 0 || base == ".." then "" else base[k..]
  }

  /** `/jpeg|jpg|png/.test(s)`: unanchored and case-sensitive. */
  predicate MentionsImageType(s: string) {
    Contains(s, "jpeg") || Contains(s, "jpg") || Contains(s, "png")
  }

  /** `fileFilter`: the mimetype as sent, and the lower-cased extension of the original name. */
  predicate Accepted(f: IncomingFile) {
    MentionsImageType(f.mimetype) && MentionsImageType(ToLower(Extname(f.originalname)))
  }

  /** A name without an extension is refused whatever its mimetype: `png`, `.png`, `a/..`. */
  lemma NoExtensionRefused(f: IncomingFile)
    requires Extname(f.originalname) == ""
    ensures !Accepted(f)
  {
    assert ToLower("") == "";
    assert !OccursAt("", "jpeg", 0) && !OccursAt("", "jpg", 0) && !OccursAt("", "png", 0);
  }

  /** A name without a slash is its own last segment. */
  lemma SegmentWithoutSlash(p: string)
    requires forall i :: 0 <= i < |p| ==> p[i] != '/'
    ensures LastSegment(p) == p
  {
    assert StripTrailingSlashes(p) == p;
  }

  /** A dot file has no extension, so the filter refuses it. */
  lemma DotfileRefused()
    ensures Extname(".png") == ""
    ensures !Accepted(IncomingFile(".png", "image/png", 1))
  {
    SegmentWithoutSlash(".png");
    assert forall k :: 0 < k < |".png"| ==> ".png"[k] != '.';
    NoExtensionRefused(IncomingFile(".png", "image/png", 1));
  }

  /** A bare name has no extension either. */
  lemma BareNameRefused()
    ensures Extname("png") == ""
    ensures !Accepted(IncomingFile("png", "image/png", 1))
  {
    SegmentWithoutSlash("png");
    assert forall k :: 0 < k < |"png"| ==> "png"[k] != '.';
    NoExtensionRefused(IncomingFile("png", "image/png", 1));
  }

  /** `'user-' + Date.now() + path.extname(file.originalname)`. */
  function StoredName(millis: nat, originalname: string): (name: string)
    ensures 5 < |name| && name[..5] == "user-"
    ensures exists n :: 5 < n <= |name| && DigitsOnly(name[5..n]) && name[n..] == Extname(originalname)
  {
    var d := Decimal(millis);
    assert ("user-" + d + Extname(originalname))[5..5 + |d|] == d;
    "user-" + d + Extname(originalname)
  }

  /** `upload.single(...)` on one file part: the filter first, then the size limit. */
  function Upload(f: IncomingFile, millis: nat): (r: Result<StoredFile, string>)
    ensures r.Ok? <==> Accepted(f) && f.size <= FileSizeLimit
    ensures r.Ok? ==> r.value == StoredFile(f.originalname, f.mimetype, f.size, StoredName(millis, f.originalname))
    ensures !Accepted(f) ==> r == Err(FilterMessage)
    ensures Accepted(f) && f.size > FileSizeLimit ==> r == Err(TooLargeMessage)
  {
    if !Accepted(f) then Err(FilterMessage)
    else if f.size > FileSizeLimit then Err(TooLargeMessage)
    else Ok(StoredFile(f.originalname, f.mimetype, f.size, StoredName(millis, f.originalname)))
  }

  /** Distinct numbers have distinct decimal renderings. */
  lemma {:induction false} DecimalInjective(a: nat, b: nat)
    requires Decimal(a) == Decimal(b)
    ensures a == b
  {
    if a >= 10 && b >= 10 {
      var da, db := Decimal(a / 10), Decimal(b / 10);
      assert Decimal(a) == da + [DigitChar(a % 10)];
      assert Decimal(b) == db + [DigitChar(b % 10)];
      assert |da| == |db|;
      assert da == Decimal(a)[..|da|] == Decimal(b)[..|db|] == db;
      DecimalInjective(a / 10, b / 10);
      assert DigitChar(a % 10) == Decimal(a)[|da|] == Decimal(b)[|db|] == DigitChar(b % 10);
    }
  }

  /** The length of the run of digits `s` starts with. */
  function LeadingDigits(s: string): (n: nat)
    ensures n <= |s|
  {
    if s == [] || !IsDigit(s[0]) then 0 else 1 + LeadingDigits(s[1..])
  }

  /** Digits followed by an empty extension or one starting with a dot: the run ends where the extension starts. */
  lemma {:induction false} LeadingDigitsBeforeExtension(d: string, e: string)
    requires forall i :: 0 <= i < |d| ==> IsDigit(d[i])
    requires e == [] || e[0] == '.'
    ensures LeadingDigits(d + e) == |d|
  {
    if d != [] {
      assert (d + e)[1..] == d[1..] + e;
      LeadingDigitsBeforeExtension(d[1..], e);
    } else {
      assert d + e == e;
    }
  }

  /** After `user-`, a stored name is the timestamp's digits followed by the extension. */
  lemma StoredNameSplit(t: nat, o: string)
    ensures |StoredName(t, o)| == 5 + |Decimal(t)| + |Extname(o)|
    ensures StoredName(t, o)[5..] == Decimal(t) + Extname(o)
  {
    PrefixDropped("user-", Decimal(t), Extname(o));
  }

  lemma PrefixDropped(p: string, d: string, e: string)
    ensures (p + d + e)[|p|..] == d + e
  {
  }

  /** The timestamp can be read back from a stored name: it is the digit run after `user-`. */
  lemma StoredNameDigits(t: nat, o: string)
    ensures var n := StoredName(t, o);
      5 + LeadingDigits(n[5..]) <= |n| && n[5..5 + LeadingDigits(n[5..])] == Decimal(t)
  {
    var d, e := Decimal(t), Extname(o);
    StoredNameSplit(t, o);
    LeadingDigitsBeforeExtension(d, e);
    var rest := StoredName(t, o)[5..];
    assert rest[..|d|] == d;
    assert StoredName(t, o)[5..5 + |d|] == rest[..|d|];
  }

  /**
   * Files stored at different milliseconds never share a name, whatever their
   * original names.
   */
  lemma DistinctMillisDistinctNames(t1: nat, o1: string, t2: nat, o2: string)
    requires t1 != t2
    ensures StoredName(t1, o1) != StoredName(t2, o2)
  {
    StoredNameDigits(t1, o1);
    StoredNameDigits(t2, o2);
    if StoredName(t1, o1) == StoredName(t2, o2) {
      DecimalInjective(t1, t2);
    }
  }

  /** The stored name keeps the extension's case, while the filter ignores it. */
  lemma ExtensionCaseKept()
    ensures StoredName(7, "Me.PNG") == "user-7.PNG"
    ensures Accepted(IncomingFile("Me.PNG", "image/png", 1))
  {
    assert LastIndexOf("Me.PNG", '/').None?;
    assert LastSegment("Me.PNG") == "Me.PNG";
    assert "Me.PNG"[2] == '.';
    assert LastIndexBefore("Me.PNG", '.', 3) == Some(2);
    assert LastIndexOf("Me.PNG", '.') == Some(2);
    assert Extname("Me.PNG") == ".PNG";
    assert ToLower(".PNG") == ".png";
    assert OccursAt(".png", "png", 1);
    assert OccursAt("image/png", "png", 6);
  }
}
