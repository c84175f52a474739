/** The upload middleware: multer's disk storage with its file-name rule, the MIME
    allow-list, the per-field caps, the size limit, and the pass-through of requests
    that are not multipart. */
module Upload {
  import opened Wrappers
  import opened Text
  import Seqs
  import Paths

  const MaxFileSize: nat := 50 * 1024 * 1024
  const MaxImages: nat := 25
  const MaxPdfs: nat := 1
  const AllowedMimes: seq<string> := ["image/jpeg", "image/png", "image/gif", "application/pdf"]
  const MultipartPrefix: string := "multipart/form-data"

  /** `[a-zA-Z0-9\-_]` */
  predicate IsSafeChar(c: char) { IsAlnum(c) || c == '-' || c == '_' }

  predicate IsHyphen(c: char) { c == '-' }

  /** The `filename` callback's cleaning of the original base name: whitespace runs
      become `-`, characters outside `[a-zA-Z0-9\-_]` are dropped, `-` runs become one `-`. */
  function Sanitize(name: string): (r: string)
    ensures forall i | 0 <= i < |r| :: IsSafeChar(r[i])
    ensures forall i | 0 <= i < |r| - 1 :: !(r[i] == '-' && r[i + 1] == '-')
  {
    var spaced := ReplaceRuns(name, IsSpace, '-');
    var kept := Seqs.Filter(spaced, IsSafeChar);
    ReplaceRuns(kept, IsHyphen, '-')
  }

  /** Sanitising an already sanitised name changes nothing. */
  lemma SanitizeIdempotent(name: string)
    ensures Sanitize(Sanitize(name)) == Sanitize(name)
  {
    var t := Sanitize(name);
    assert forall i | 0 <= i < |t| :: !IsSpace(t[i]) by {
      forall i | 0 <= i < |t| ensures !IsSpace(t[i]) { assert IsSafeChar(t[i]); }
    }
    ReplaceRunsNoMatch(t, IsSpace, '-');
    SafeFilterIdentity(t);
    ReplaceRunsSingletons(t, IsHyphen, '-');
  }

  lemma {:induction false} SafeFilterIdentity(t: string)
    requires forall i | 0 <= i < |t| :: IsSafeChar(t[i])
    ensures Seqs.Filter(t, IsSafeChar) == t
  {
    if |t| > 0 {
      SafeFilterIdentity(t[1..]);
    }
  }

  /** Letters, digits and underscores survive sanitising, in order; only spaces,
      hyphens and other punctuation are rewritten or dropped. */
  lemma SanitizeKeepsWordChars(name: string)
    ensures Seqs.Filter(Sanitize(name), IsWordChar) == Seqs.Filter(name, IsWordChar)
  {
    var spaced := ReplaceRuns(name, IsSpace, '-');
    var kept := Seqs.Filter(spaced, IsSafeChar);
    ReplaceRunsKeepsOthers(name, IsSpace, '-', IsWordChar);
    Seqs.FilterStronger(spaced, IsSafeChar, IsWordChar);
    ReplaceRunsKeepsOthers(kept, IsHyphen, '-', IsWordChar);
  }

  /** A run of whitespace between two words becomes exactly one hyphen. */
  lemma SanitizeSpaceRun(a: string, gap: string, b: string)
    requires |a| > 0 && |b| > 0
    requires forall i | 0 <= i < |a| :: IsAlnum(a[i])
    requires forall i | 0 <= i < |b| :: IsAlnum(b[i])
    requires |gap| > 0 && forall i | 0 <= i < |gap| :: IsSpace(gap[i])
    ensures Sanitize(a + gap + b) == a + "-" + b
  {
    var s := a + gap + b;
    SpaceRunStep(a, gap, b);
    var spaced := a + "-" + b;
    JoinedIsSafe(a, b);
    SafeFilterIdentity(spaced);
    ReplaceRunsSingletons(spaced, IsHyphen, '-');
  }

  /** Two words joined by one hyphen: every character is safe and the hyphen is the
      only one of its class. */
  lemma JoinedIsSafe(a: string, b: string)
    requires |a| > 0 && |b| > 0
    requires forall i | 0 <= i < |a| :: IsAlnum(a[i])
    requires forall i | 0 <= i < |b| :: IsAlnum(b[i])
    ensures var spaced := a + "-" + b;
      && (forall i | 0 <= i < |spaced| :: IsSafeChar(spaced[i]))
      && (forall i | 0 <= i < |spaced| :: IsHyphen(spaced[i]) <==> spaced[i] == '-')
      && (forall i | 0 <= i < |spaced| - 1 :: !(spaced[i] == '-' && spaced[i + 1] == '-'))
  {
    var spaced := a + "-" + b;
    forall i | 0 <= i < |spaced|
      ensures spaced[i] == (if i < |a| then a[i] else if i == |a| then '-' else b[i - |a| - 1])
    {
    }
  }

  lemma {:induction false} SpaceRunStep(a: string, gap: string, b: string)
    requires |b| > 0 && !IsSpace(b[0])
    requires forall i | 0 <= i < |a| :: !IsSpace(a[i])
    requires forall i | 0 <= i < |b| :: !IsSpace(b[i])
    requires |gap| > 0 && forall i | 0 <= i < |gap| :: IsSpace(gap[i])
    ensures ReplaceRuns(a + gap + b, IsSpace, '-') == a + "-" + b
    decreases |a|
  {
    if |a| == 0 {
      assert a + gap + b == gap + b;
      DropSpaces(gap, b);
      ReplaceRunsNoMatch(b, IsSpace, '-');
    } else {
      assert (a + gap + b)[1..] == a[1..] + gap + b;
      SpaceRunStep(a[1..], gap, b);
    }
  }

  lemma {:induction false} DropSpaces(gap: string, b: string)
    requires |b| > 0 && !IsSpace(b[0])
    requires forall i | 0 <= i < |gap| :: IsSpace(gap[i])
    ensures DropWhile(gap + b, IsSpace) == b
  {
    if |gap| > 0 {
      assert (gap + b)[1..] == gap[1..] + b;
      DropSpaces(gap[1..], b);
    } else {
      assert gap + b == b;
    }
  }

  /** The `filename` callback: sanitised original base name, `-`, the `Date.now()`
      token, and the original extension. */
  function StoredName(originalName: string, token: nat): string
  {
    Sanitize(Paths.ParseName(originalName)) + "-" + NatToDecimal(token) + Paths.ExtnameOf(originalName)
  }

  /** The stored name is a plain file name that keeps the original extension verbatim,
      and its `path.parse` name is the sanitised base, `-`, and the token. */
  lemma StoredNameShape(originalName: string, token: nat)
    ensures var stored := StoredName(originalName, token);
      && Paths.ExtnameOf(stored) == Paths.ExtnameOf(originalName)
      && Paths.ParseName(stored) == Sanitize(Paths.ParseName(originalName)) + "-" + NatToDecimal(token)
      && Paths.Basename(stored) == stored
      && stored != ""
  {
    var stem := Sanitize(Paths.ParseName(originalName)) + "-" + NatToDecimal(token);
    var ext := Paths.ExtnameOf(originalName);
    var stored := stem + ext;
    StemIsPlain(Sanitize(Paths.ParseName(originalName)), NatToDecimal(token));
    ExtIsPlain(originalName);
    NoSlashConcat(stem, ext);
    Paths.BasenameOfPlainName(stored);
    Paths.ExtnameSpec(Paths.Basename(originalName));
    Paths.ExtnameOfStem(stem, ext);
    assert stored[..|stored| - |ext|] == stem;
  }

  lemma StemIsPlain(base: string, digits: string)
    requires forall i | 0 <= i < |base| :: IsSafeChar(base[i])
    requires |digits| > 0 && forall i | 0 <= i < |digits| :: IsDigit(digits[i])
    ensures var stem := base + "-" + digits; |stem| >= 2 && '.' !in stem && '/' !in stem
  {
    var stem := base + "-" + digits;
    assert forall i | 0 <= i < |stem| :: IsSafeChar(stem[i]) by {
      forall i | 0 <= i < |stem| ensures IsSafeChar(stem[i]) {
        if i < |base| { assert stem[i] == base[i]; }
        else if i > |base| { assert stem[i] == digits[i - |base| - 1]; }
      }
    }
  }

  lemma ExtIsPlain(originalName: string)
    ensures '/' !in Paths.ExtnameOf(originalName)
  {
    var b := Paths.Basename(originalName);
    var ext := Paths.Extname(b);
    Paths.BasenameHasNoSlash(originalName);
    Paths.ExtnameSpec(b);
    NoSlashSuffix(b, |b| - |ext|);
  }

  lemma NoSlashSuffix(b: string, k: nat)
    requires k <= |b| && '/' !in b
    ensures '/' !in b[k..]
  {
    assert forall i | 0 <= i < |b[k..]| :: b[k..][i] == b[k + i];
  }

  lemma NoSlashConcat(a: string, b: string)
    requires '/' !in a && '/' !in b
    ensures '/' !in a + b
  {
    assert forall i | 0 <= i < |a + b| :: (a + b)[i] == (if i < |a| then a[i] else b[i - |a|]);
  }

  /** multer's `fileFilter`: the MIME allow-list. */
  predicate FileFilter(mime: string)
  {
    mime in AllowedMimes
  }

  /** A file part of the multipart stream, as the browser sends it. */
  datatype Part = Part(field: string, originalName: string, mime: string, size: nat)

  /** A file multer stored in the uploads directory (`req.files[field][i]`). */
  datatype UploadedFile = UploadedFile(field: string, originalName: string, mime: string, filename: string)

  /** `req.files`: the stored files per field, in arrival order (absent = empty). */
  datatype Files = Files(images: seq<UploadedFile>, pdf: seq<UploadedFile>)

  const NoFiles := Files([], [])

  /** How many named file parts name the field `field`. */
  function CountField(parts: seq<Part>, field: string): nat
  {
    if |parts| == 0 then 0
    else (if parts[0].originalName != "" && parts[0].field == field then 1 else 0) + CountField(parts[1..], field)
  }

  /** A file part multer can store regardless of how many came before it. */
  predicate PartAcceptable(p: Part)
  {
    (p.field == "images" || p.field == "pdf") && FileFilter(p.mime) && p.size <= MaxFileSize
  }

  /** What the file passes on: the stored files carry the caps, the allow-list and
      the naming rule. */
  predicate WellFormedFiles(f: Files)
  {
    && |f.images| <= MaxImages && |f.pdf| <= MaxPdfs
    && FieldFiles(f.images, "images")
    && FieldFiles(f.pdf, "pdf")
  }

  /** Every file came through field `field` and passed the MIME filter. */
  predicate FieldFiles(s: seq<UploadedFile>, field: string)
  {
    forall i | 0 <= i < |s| :: s[i].field == field && FileFilter(s[i].mime)
  }

  function Store(p: Part, token: nat): UploadedFile
  {
    UploadedFile(p.field, p.originalName, p.mime, StoredName(p.originalName, token))
  }

  /** Appends the stored file to its field's list. */
  function Add(acc: Files, p: Part, token: nat): (r: Files)
    requires WellFormedFiles(acc) && PartAcceptable(p)
    requires p.field == "images" ==> |acc.images| < MaxImages
    requires p.field == "pdf" ==> |acc.pdf| < MaxPdfs
    ensures WellFormedFiles(r)
    ensures p.field == "images" ==> r == acc.(images := acc.images + [Store(p, token)])
    ensures p.field == "pdf" ==> r == acc.(pdf := acc.pdf + [Store(p, token)])
  {
    var f := Store(p, token);
    if p.field == "images" then
      AppendKeepsField(acc.images, f, "images");
      acc.(images := acc.images + [f])
    else
      AppendKeepsField(acc.pdf, f, "pdf");
      acc.(pdf := acc.pdf + [f])
  }

  lemma AppendKeepsField(s: seq<UploadedFile>, f: UploadedFile, field: string)
    requires FieldFiles(s, field) && f.field == field && FileFilter(f.mime)
    ensures FieldFiles(s + [f], field)
  {
  }

  /** The files stored for field `field` when nothing is refused: each named part of
      that field, stored under the clock reading at its own stream position. */
  function StoredFor(parts: seq<Part>, field: string, clock: nat -> nat, pos: nat): (r: seq<UploadedFile>)
    ensures |r| == CountField(parts, field)
    decreases |parts|
  {
    if |parts| == 0 then []
    else (if parts[0].originalName != "" && parts[0].field == field then [Store(parts[0], clock(pos))] else [])
         + StoredFor(parts[1..], field, clock, pos + 1)
  }

  /** multer's per-file handling, in arrival order starting at stream position `pos`:
      a part without a file name is skipped; an unexpected field, a field over its
      cap, a MIME type outside the allow-list or a file over 50 MB aborts the
      request (None); otherwise the file is stored under its new name. */
  function Receive(parts: seq<Part>, clock: nat -> nat, pos: nat, acc: Files): (r: Option<Files>)
    requires WellFormedFiles(acc)
    ensures r.Some? ==> WellFormedFiles(r.value)
    ensures r.Some? ==> (|r.value.images| == |acc.images| + CountField(parts, "images")
                         && |r.value.pdf| == |acc.pdf| + CountField(parts, "pdf"))
    ensures r.Some? ==> acc.images <= r.value.images && acc.pdf <= r.value.pdf
    decreases |parts|
  {
    if |parts| == 0 then Some(acc)
    else
      var p := parts[0];
      if p.originalName == "" then Receive(parts[1..], clock, pos + 1, acc)
      else if !PartAcceptable(p) then None
      else if p.field == "images" && |acc.images| >= MaxImages then None
      else if p.field == "pdf" && |acc.pdf| >= MaxPdfs then None
      else Receive(parts[1..], clock, pos + 1, Add(acc, p, clock(pos)))
  }

  /** An accepted request appends to each field exactly its named parts, in stream
      order, each stored under the clock reading at its position. */
  lemma {:induction false} ReceiveStores(parts: seq<Part>, clock: nat -> nat, pos: nat, acc: Files)
    requires WellFormedFiles(acc)
    requires Receive(parts, clock, pos, acc).Some?
    ensures var r := Receive(parts, clock, pos, acc).value;
      && r.images == acc.images + StoredFor(parts, "images", clock, pos)
      && r.pdf == acc.pdf + StoredFor(parts, "pdf", clock, pos)
    decreases |parts|
  {
    if |parts| > 0 {
      var next := ReceiveStep(parts, clock, pos, acc);
      ReceiveStores(parts[1..], clock, pos + 1, next);
      StoredForCons(parts, "images", clock, pos);
      StoredForCons(parts, "pdf", clock, pos);
      var named := parts[0].originalName != "";
      var f := Store(parts[0], clock(pos));
      Seqs.AppendAssoc(acc.images, if named && parts[0].field == "images" then [f] else [],
                       StoredFor(parts[1..], "images", clock, pos + 1));
      Seqs.AppendAssoc(acc.pdf, if named && parts[0].field == "pdf" then [f] else [],
                       StoredFor(parts[1..], "pdf", clock, pos + 1));
    }
  }

  /** One step of an accepted request: the files after its first part, from which
      the rest of the stream goes on. */
  lemma ReceiveStep(parts: seq<Part>, clock: nat -> nat, pos: nat, acc: Files) returns (next: Files)
    requires WellFormedFiles(acc)
    requires |parts| > 0
    requires Receive(parts, clock, pos, acc).Some?
    ensures WellFormedFiles(next)
    ensures Receive(parts, clock, pos, acc) == Receive(parts[1..], clock, pos + 1, next)
    ensures var named := parts[0].originalName != "";
      && next.images == acc.images + (if named && parts[0].field == "images" then [Store(parts[0], clock(pos))] else [])
      && next.pdf == acc.pdf + (if named && parts[0].field == "pdf" then [Store(parts[0], clock(pos))] else [])
  {
    if parts[0].originalName == "" {
      next := acc;
    } else {
      next := Add(acc, parts[0], clock(pos));
    }
  }

  /** One step of `StoredFor`. */
  lemma StoredForCons(parts: seq<Part>, field: string, clock: nat -> nat, pos: nat)
    requires |parts| > 0
    ensures StoredFor(parts, field, clock, pos)
            == (if parts[0].originalName != "" && parts[0].field == field then [Store(parts[0], clock(pos))] else [])
               + StoredFor(parts[1..], field, clock, pos + 1)
  {
  }

  /** A named part that is unacceptable on its own. */
  predicate BadPart(p: Part)
  {
    p.originalName != "" && !PartAcceptable(p)
  }

  lemma SomeBadPartCons(parts: seq<Part>)
    requires |parts| > 0
    ensures (exists i | 0 <= i < |parts| :: BadPart(parts[i]))
        <==> BadPart(parts[0]) || exists i | 0 <= i < |parts[1..]| :: BadPart(parts[1..][i])
  {
    if exists i | 0 <= i < |parts| :: BadPart(parts[i]) {
      var i :| 0 <= i < |parts| && BadPart(parts[i]);
      if i > 0 { assert parts[1..][i - 1] == parts[i]; }
    }
    if exists i | 0 <= i < |parts[1..]| :: BadPart(parts[1..][i]) {
      var i :| 0 <= i < |parts[1..]| && BadPart(parts[1..][i]);
      assert parts[i + 1] == parts[1..][i];
    }
  }

  /** A request is refused exactly when some named part is unacceptable on its own or
      a field receives more files than its cap. */
  lemma {:induction false} ReceiveRefusesIff(parts: seq<Part>, clock: nat -> nat, pos: nat, acc: Files)
    requires WellFormedFiles(acc)
    ensures Receive(parts, clock, pos, acc).None? <==>
      (exists i | 0 <= i < |parts| :: BadPart(parts[i]))
      || |acc.images| + CountField(parts, "images") > MaxImages
      || |acc.pdf| + CountField(parts, "pdf") > MaxPdfs
    decreases |parts|
  {
    if |parts| > 0 {
      var p := parts[0];
      SomeBadPartCons(parts);
      if p.originalName == "" {
        ReceiveRefusesIff(parts[1..], clock, pos + 1, acc);
      } else if !PartAcceptable(p) {
      } else if p.field == "images" && |acc.images| >= MaxImages {
      } else if p.field == "pdf" && |acc.pdf| >= MaxPdfs {
      } else {
        ReceiveRefusesIff(parts[1..], clock, pos + 1, Add(acc, p, clock(pos)));
      }
    }
  }

  /** The response of the middleware: pass control on with `req.files`, or answer 500. */
  datatype Outcome = Next(files: Files) | ServerError

  predicate IsMultipart(contentType: Option<string>)
  {
    contentType.Some? && MultipartPrefix <= contentType.value
  }

  /** The stored file names of a set of files. */
  function StoredNames(f: Files): set<string>
  {
    (set i | 0 <= i < |f.images| :: f.images[i].filename) + (set i | 0 <= i < |f.pdf| :: f.pdf[i].filename)
  }

  /** `uploadMiddleware`: returns the outcome and the uploads directory afterwards
      (multer removes what it wrote when it aborts). `clock(k)` is `Date.now()` when
      the part at stream position `k` is named. */
  function Middleware(contentType: Option<string>, parts: seq<Part>, clock: nat -> nat, dir: set<string>)
    : (r: (Outcome, set<string>))
    ensures !IsMultipart(contentType) ==> r == (Next(NoFiles), dir)
    ensures r.0.Next? ==> WellFormedFiles(r.0.files)
    ensures r.0.ServerError? ==> r.1 == dir
    ensures r.0.Next? ==> r.1 == dir + StoredNames(r.0.files)
  {
    if !IsMultipart(contentType) then (Next(NoFiles), dir)
    else
      match Receive(parts, clock, 0, NoFiles)
      case None => (ServerError, dir)
      case Some(files) => (Next(files), dir + StoredNames(files))
  }

  /** A multipart request is answered 500 exactly when a named part has a field other
      than `images`/`pdf`, a MIME type outside the allow-list or more than 50 MB, or
      it carries more than 25 images or more than one PDF. */
  lemma MiddlewareRefusesIff(contentType: Option<string>, parts: seq<Part>, clock: nat -> nat, dir: set<string>)
    requires IsMultipart(contentType)
    ensures Middleware(contentType, parts, clock, dir).0.ServerError? <==>
      (exists i | 0 <= i < |parts| :: BadPart(parts[i]))
      || CountField(parts, "images") > MaxImages
      || CountField(parts, "pdf") > MaxPdfs
  {
    ReceiveRefusesIff(parts, clock, 0, NoFiles);
  }
}
