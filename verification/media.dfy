/** The service's media bookkeeping: converting new images to WebP, combining kept
    and new images, choosing the final PDF, and deleting files from the uploads
    directory. The directory is a set of file names; `locked` holds the files whose
    `unlinkSync` fails, and `decodable` the files the transcoder can read. */
module Media {
  import opened Wrappers
  import opened Records
  import Paths
  import Upload
  import FieldMap
  import Text
  import Seqs

  const UploadsPrefix: string := "/uploads/"

  /** Where the file system and the transcoder say yes. */
  datatype Oracle = Oracle(locked: set<string>, decodable: set<string>)

  /** A computed value together with the uploads directory afterwards; `value` is
      None when the step threw a `TypeError`. */
  datatype Step<T> = Step(value: Option<T>, dir: set<string>)

  function Url(filename: string): string { UploadsPrefix + filename }

  // ---------------------------------------------------------------------------
  // _deletePhysicalFiles

  /** The files the list names: the base names of its non-empty string items. */
  function NamedFiles(items: seq<JsValue>): set<string>
  {
    if |items| == 0 then {} else NamedBy(items[0]) + NamedFiles(items[1..])
  }

  /** The file one item names, if any. */
  function NamedBy(v: JsValue): set<string>
  {
    if v.Str? && v.s != "" then {Paths.Basename(v.s)} else {}
  }

  /** A truthy item that is not a string: `path.basename` throws on it. */
  predicate Unnamable(v: JsValue) { Truthy(v) && !v.Str? }

  predicate AllNamable(items: seq<JsValue>)
  {
    forall i | 0 <= i < |items| :: !Unnamable(items[i])
  }

  /** `_deletePhysicalFiles`: for each item in order, a falsy item is skipped, a string
      removes the file with its base name when that file exists (a failing unlink is
      swallowed), and any other truthy value throws. */
  function DeleteFiles(dir: set<string>, locked: set<string>, items: seq<JsValue>): (r: Step<()>)
    ensures r.dir <= dir
    ensures dir - r.dir <= NamedFiles(items) - locked
    ensures r.value.Some? <==> AllNamable(items)
    ensures r.value.Some? ==> r.dir == dir - (NamedFiles(items) - locked)
    decreases |items|
  {
    if |items| == 0 then Step(Some(()), dir)
    else
      var x := items[0];
      NamedFilesCons(items);
      AllNamableCons(items);
      if x.Str? && x.s != "" then
        var b := Paths.Basename(x.s);
        var next := dir - ({b} - locked);
        var r := DeleteFiles(next, locked, items[1..]);
        SweepStep(dir, next, r.dir, {b}, NamedFiles(items[1..]), locked, r.value.Some?);
        r
      else if Truthy(x) then
        Step(None, dir)
      else
        DeleteFiles(dir, locked, items[1..])
  }

  /** The set algebra of one sweep step that removes `head` (when present and unlocked). */
  lemma SweepStep(dir: set<string>, next: set<string>, after: set<string>, head: set<string>,
                  named: set<string>, locked: set<string>, complete: bool)
    requires next == dir - (head - locked)
    requires after <= next && next - after <= named - locked
    requires complete ==> after == next - (named - locked)
    ensures after <= dir && dir - after <= (named + head) - locked
    ensures complete ==> after == dir - ((named + head) - locked)
  {
    forall x | x in dir - after ensures x in (named + head) - locked {
      if x in next {
        assert x in next - after;
      }
    }
  }

  lemma NamedFilesCons(items: seq<JsValue>)
    requires |items| > 0
    ensures NamedFiles(items) == NamedFiles(items[1..])
      + (if items[0].Str? && items[0].s != "" then {Paths.Basename(items[0].s)} else {})
  {
  }

  /** A non-empty string item names its base name. */
  lemma {:induction false} NamedAt(items: seq<JsValue>, i: nat)
    requires i < |items| && items[i].Str? && items[i].s != ""
    ensures Paths.Basename(items[i].s) in NamedFiles(items)
  {
    if i > 0 {
      assert items[1..][i - 1] == items[i];
      NamedAt(items[1..], i - 1);
    }
  }

  lemma AllNamableCons(items: seq<JsValue>)
    requires |items| > 0
    ensures AllNamable(items) <==> !Unnamable(items[0]) && AllNamable(items[1..])
  {
    var tail := items[1..];
    if AllNamable(items) {
      forall i | 0 <= i < |tail| ensures !Unnamable(tail[i]) { assert tail[i] == items[i + 1]; }
    }
    if !Unnamable(items[0]) && AllNamable(tail) {
      forall i | 0 <= i < |items| ensures !Unnamable(items[i]) {
        if i > 0 { assert items[i] == tail[i - 1]; }
      }
    }
  }

  /** Deleting the same list twice is deleting it once. */
  lemma DeleteFilesIdempotent(dir: set<string>, locked: set<string>, items: seq<JsValue>)
    requires AllNamable(items)
    ensures var once := DeleteFiles(dir, locked, items).dir;
      DeleteFiles(once, locked, items).dir == once
  {
  }

  /** A file is removed exactly when the list names it, it exists and it can be unlinked;
      in particular no file outside the list is touched. */
  lemma DeleteFilesRemovesExactly(dir: set<string>, locked: set<string>, items: seq<JsValue>, f: string)
    requires AllNamable(items)
    ensures f in dir && f !in DeleteFiles(dir, locked, items).dir
        <==> f in dir && f in NamedFiles(items) && f !in locked
  {
  }

  // ---------------------------------------------------------------------------
  // _processNewImages

  /** The name the WebP copy gets: the multer name with its extension swapped. */
  function WebpName(f: Upload.UploadedFile): string
  {
    Paths.ParseName(f.filename) + ".webp"
  }

  /** The transcoder succeeds: the source exists, is decodable, and the output path
      is not the input path. */
  predicate Transcodes(dir: set<string>, o: Oracle, f: Upload.UploadedFile)
  {
    f.filename in dir && f.filename in o.decodable && WebpName(f) != f.filename
  }

  /** One iteration of the loop in `_processNewImages`. */
  function ProcessImage(dir: set<string>, o: Oracle, f: Upload.UploadedFile): (r: (seq<string>, set<string>))
    ensures !Transcodes(dir, o, f) ==> r == ([Url(f.filename)], dir)
    ensures Transcodes(dir, o, f) && f.filename !in o.locked
            ==> r == ([Url(WebpName(f))], dir + {WebpName(f)} - {f.filename})
    ensures Transcodes(dir, o, f) && f.filename in o.locked
            ==> r == ([Url(WebpName(f)), Url(f.filename)], dir + {WebpName(f)})
  {
    if Transcodes(dir, o, f) then
      var written := dir + {WebpName(f)};
      if f.filename in o.locked then ([Url(WebpName(f)), Url(f.filename)], written)
      else ([Url(WebpName(f))], written - {f.filename})
    else ([Url(f.filename)], dir)
  }

  /** The URLs one file can contribute. */
  predicate UrlOf(u: string, f: Upload.UploadedFile)
  {
    u == Url(WebpName(f)) || u == Url(f.filename)
  }

  function Originals(images: seq<Upload.UploadedFile>): set<string>
  {
    if |images| == 0 then {} else {images[0].filename} + Originals(images[1..])
  }

  function WebpNames(images: seq<Upload.UploadedFile>): set<string>
  {
    if |images| == 0 then {} else {WebpName(images[0])} + WebpNames(images[1..])
  }

  /** The URLs the images can contribute. */
  function CandidateUrls(images: seq<Upload.UploadedFile>): set<string>
  {
    if |images| == 0 then {}
    else {Url(WebpName(images[0])), Url(images[0].filename)} + CandidateUrls(images[1..])
  }

  /** `_processNewImages`: the URLs of the new images in input order, and the
      directory afterwards. */
  function ProcessNewImages(dir: set<string>, o: Oracle, images: seq<Upload.UploadedFile>)
    : (r: (seq<string>, set<string>))
    ensures |images| == 0 ==> r == ([], dir)
    ensures |images| <= |r.0| <= 2 * |images|
    decreases |images|
  {
    if |images| == 0 then ([], dir)
    else
      var first := ProcessImage(dir, o, images[0]);
      var rest := ProcessNewImages(first.1, o, images[1..]);
      (first.0 + rest.0, rest.1)
  }

  /** Converting images touches only their own files: it removes nothing but
      originals and adds nothing but WebP copies; every URL belongs to one of the images. */
  lemma {:induction false} ProcessNewImagesFrame(dir: set<string>, o: Oracle, images: seq<Upload.UploadedFile>)
    ensures var r := ProcessNewImages(dir, o, images);
      && dir - r.1 <= Originals(images)
      && r.1 - dir <= WebpNames(images)
      && forall u | u in r.0 :: u in CandidateUrls(images)
    decreases |images|
  {
    if |images| > 0 {
      var f := images[0];
      var first := ProcessImage(dir, o, f);
      var r := ProcessNewImages(dir, o, images);
      var rest := ProcessNewImages(first.1, o, images[1..]);
      assert r == (first.0 + rest.0, rest.1);
      ProcessNewImagesFrame(first.1, o, images[1..]);
      FrameStep(dir, first.1, rest.1, {f.filename}, {WebpName(f)}, Originals(images[1..]), WebpNames(images[1..]));
      forall u | u in r.0 ensures u in CandidateUrls(images) {
        if u in first.0 {
          assert u == Url(WebpName(f)) || u == Url(f.filename);
        } else {
          assert u in rest.0;
        }
      }
    }
  }

  /** The set algebra of one conversion step. */
  lemma FrameStep(dir: set<string>, mid: set<string>, after: set<string>, orig: set<string>, webp: set<string>,
                  origs: set<string>, webps: set<string>)
    requires dir - mid <= orig && mid - dir <= webp
    requires mid - after <= origs && after - mid <= webps
    ensures dir - after <= orig + origs && after - dir <= webp + webps
  {
  }

  /** When every original can be unlinked, each image contributes exactly one URL, at
      its own position: its WebP URL or its fallback URL. */
  lemma {:induction false} ProcessNewImagesAligned(dir: set<string>, o: Oracle, images: seq<Upload.UploadedFile>)
    requires forall i | 0 <= i < |images| :: images[i].filename !in o.locked
    ensures var urls := ProcessNewImages(dir, o, images).0;
      |urls| == |images| && Seqs.Pairwise(urls, images, (u, f) => UrlOf(u, f))
    decreases |images|
  {
    if |images| > 0 {
      var first := ProcessImage(dir, o, images[0]);
      ProcessImageSingle(dir, o, images[0]);
      forall i | 0 <= i < |images[1..]| ensures images[1..][i].filename !in o.locked {
        assert images[1..][i] == images[i + 1];
      }
      ProcessNewImagesAligned(first.1, o, images[1..]);
      var rest := ProcessNewImages(first.1, o, images[1..]).0;
      assert ProcessNewImages(dir, o, images).0 == [first.0[0]] + rest;
      Seqs.PairwiseCons(first.0[0], rest, images, (u, f) => UrlOf(u, f));
    }
  }

  lemma ProcessImageSingle(dir: set<string>, o: Oracle, f: Upload.UploadedFile)
    requires f.filename !in o.locked
    ensures var r := ProcessImage(dir, o, f).0; |r| == 1 && UrlOf(r[0], f)
  {
  }

  /** The transcoder adds no uniqueness token of its own: the WebP copy of a stored
      upload is the sanitised original name, `-`, the upload token, and `.webp`. */
  lemma WebpNameKeepsUploadToken(p: Upload.Part, token: nat)
    ensures WebpName(Upload.Store(p, token))
         == Upload.Sanitize(Paths.ParseName(p.originalName)) + "-" + Text.NatToDecimal(token) + ".webp"
  {
    Upload.StoredNameShape(p.originalName, token);
  }

  /** A successful transcode whose original cannot be unlinked reports the image twice. */
  lemma LockedOriginalReportedTwice(dir: set<string>, o: Oracle, f: Upload.UploadedFile)
    requires Transcodes(dir, o, f) && f.filename in o.locked
    ensures ProcessNewImages(dir, o, [f]).0 == [Url(WebpName(f)), Url(f.filename)]
  {
    assert [f][1..] == [];
  }

  // ---------------------------------------------------------------------------
  // _resolveFinalImages, _extractPdfPath, _resolveFinalPdf, _handlePhysicalDeletions

  /** `[...v]`: arrays give their items, strings their characters; other values are
      not iterable (TypeError). */
  function Spread(v: JsValue): (r: Option<seq<JsValue>>)
    ensures v.Arr? ==> r == Some(v.items)
    ensures v.Str? ==> r.Some? && |r.value| == |v.s|
    ensures !v.Arr? && !v.Str? ==> r.None?
  {
    match v
    case Arr(items) => Some(items)
    case Str(s) => Some(seq(|s|, i requires 0 <= i < |s| => Str([s[i]])))
    case _ => None
  }

  /** `this._safeParse(data[key]) || []` */
  function ListField(body: Body, key: string, json: string -> Option<JsValue>): (r: JsValue)
    ensures Truthy(r)
  {
    FieldMap.SafeParseOrTruthy(FieldValue(body, key), json, Arr([]));
    Or(FieldMap.SafeParse(FieldValue(body, key), json), Arr([]))
  }

  function Strs(urls: seq<string>): (r: seq<JsValue>)
    ensures |r| == |urls| && forall i | 0 <= i < |urls| :: r[i] == Str(urls[i])
  {
    seq(|urls|, i requires 0 <= i < |urls| => Str(urls[i]))
  }

  /** `_resolveFinalImages`: the new images are processed first; then the kept URLs,
      followed by the new URLs. */
  function ResolveFinalImages(dir: set<string>, o: Oracle, body: Body, files: Upload.Files, json: string -> Option<JsValue>)
    : (r: Step<seq<JsValue>>)
    ensures r.dir == ProcessNewImages(dir, o, files.images).1
    ensures var keep := Spread(ListField(body, "existingImageUrlsToKeep", json));
      r.value.Some? <==> keep.Some?
    ensures var keep := Spread(ListField(body, "existingImageUrlsToKeep", json));
      r.value.Some? ==> r.value.value == keep.value + Strs(ProcessNewImages(dir, o, files.images).0)
  {
    var incoming := ProcessNewImages(dir, o, files.images);
    match Spread(ListField(body, "existingImageUrlsToKeep", json))
    case None => Step(None, incoming.1)
    case Some(keep) => Step(Some(keep + Strs(incoming.0)), incoming.1)
  }

  /** `_extractPdfPath`: the URL of the uploaded PDF, if any. */
  function ExtractPdfPath(files: Upload.Files): (r: Option<string>)
    ensures r.Some? <==> |files.pdf| > 0
    ensures r.Some? ==> r.value == Url(files.pdf[0].filename)
  {
    if |files.pdf| > 0 then Some(Url(files.pdf[0].filename)) else None
  }

  /** `JsValue` of a nullable string column. */
  function NullableStr(x: Option<string>): JsValue
  {
    match x case Some(s) => Str(s) case None => Null
  }

  /** `list.includes(x)` on `_safeParse(...) || []`: membership (SameValueZero) on an
      array, substring on a string (where `null` reads as "null"), TypeError otherwise. */
  function Includes(list: JsValue, x: Option<string>): Option<bool>
  {
    match list
    case Arr(items) => Some(NullableStr(x) in items)
    case Str(s) => Some(Text.Contains(s, match x case Some(u) => u case None => "null"))
    case _ => None
  }

  /** `_resolveFinalPdf`: a new upload wins (deleting the old file first); otherwise a
      current URL listed in `filesToDelete` gives null; otherwise the current URL stays. */
  function ResolveFinalPdf(dir: set<string>, locked: set<string>, current: Option<string>, body: Body,
                           files: Upload.Files, json: string -> Option<JsValue>): (r: Step<Option<string>>)
    ensures ExtractPdfPath(files).Some? ==> r.value == Some(ExtractPdfPath(files))
    ensures ExtractPdfPath(files).Some? && current.Some? && current.value != ""
            ==> r.dir == dir - ({Paths.Basename(current.value)} - locked)
    ensures !(ExtractPdfPath(files).Some? && current.Some? && current.value != "") ==> r.dir == dir
    ensures r.value.None? <==> ExtractPdfPath(files).None? && Includes(ListField(body, "filesToDelete", json), current).None?
    ensures ExtractPdfPath(files).None? && Includes(ListField(body, "filesToDelete", json), current) == Some(true)
            ==> r.value == Some(None)
    ensures ExtractPdfPath(files).None? && Includes(ListField(body, "filesToDelete", json), current) == Some(false)
            ==> r.value == Some(current)
  {
    var incoming := ExtractPdfPath(files);
    if incoming.Some? then
      if current.Some? && current.value != "" then
        var swept := DeleteFiles(dir, locked, [Str(current.value)]);
        assert NamedFiles([Str(current.value)]) == {Paths.Basename(current.value)};
        Step(Some(incoming), swept.dir)
      else Step(Some(incoming), dir)
    else
      match Includes(ListField(body, "filesToDelete", json), current)
      case None => Step(None, dir)
      case Some(listed) => Step(Some(if listed then None else current), dir)
  }

  /** With a `filesToDelete` array, the PDF column is the upload, else null when the
      current URL is listed, else the current URL. */
  lemma ResolveFinalPdfFromList(dir: set<string>, locked: set<string>, current: Option<string>, body: Body,
                                files: Upload.Files, json: string -> Option<JsValue>, items: seq<JsValue>)
    requires ListField(body, "filesToDelete", json) == Arr(items)
    ensures ResolveFinalPdf(dir, locked, current, body, files, json).value
            == Some(if ExtractPdfPath(files).Some? then ExtractPdfPath(files)
                    else if NullableStr(current) in items then None
                    else current)
  {
  }

  /** A form that sends no `filesToDelete` keeps the current PDF unless a new one arrives. */
  lemma ResolveFinalPdfWithoutList(dir: set<string>, locked: set<string>, current: Option<string>, body: Body,
                                   files: Upload.Files, json: string -> Option<JsValue>)
    requires "filesToDelete" !in body
    ensures ResolveFinalPdf(dir, locked, current, body, files, json).value
            == Some(if ExtractPdfPath(files).Some? then ExtractPdfPath(files) else current)
  {
  }

  /** `length > 0` on `_safeParse(...) || []`: arrays and strings by their length, an
      object by a positive numeric `length` member; numbers and `true` have none. */
  predicate HasPositiveLength(v: JsValue)
  {
    match v
    case Arr(items) => |items| > 0
    case Str(s) => |s| > 0
    case Obj(m) => "length" in m && (match m["length"] case Num(n) => n > 0 case Bool(b) => b case _ => false)
    case _ => false
  }

  /** `_handlePhysicalDeletions`: a non-empty `filesToDelete` list is swept; a non-empty
      non-array value reaches `forEach` and throws. */
  function HandlePhysicalDeletions(dir: set<string>, locked: set<string>, body: Body, json: string -> Option<JsValue>)
    : (r: Step<()>)
    ensures r.dir <= dir
    ensures var list := ListField(body, "filesToDelete", json);
      list.Arr? && r.value.Some? ==> r.dir == dir - (NamedFiles(list.items) - locked)
    ensures var list := ListField(body, "filesToDelete", json);
      !list.Arr? ==> r.dir == dir && (r.value.None? <==> HasPositiveLength(list))
  {
    var list := ListField(body, "filesToDelete", json);
    if !HasPositiveLength(list) then Step(Some(()), dir)
    else if list.Arr? then DeleteFiles(dir, locked, list.items)
    else Step(None, dir)
  }
}
