/** The service's write operations over the `properties` table and the uploads
    directory: create, update, delete and the publish toggle. Each request runs on
    its own; whatever a step did to the directory before a later step threw stays done. */
module Sync {
  import opened Wrappers
  import opened Records
  import Paths
  import Upload
  import FieldMap
  import Media
  import Seqs

  /** The table: rows by primary key, and the next auto-increment value. */
  datatype Store = Store(rows: map<nat, Property>, nextId: nat)

  /** Every row is filed under its own id. */
  predicate Valid(s: Store)
  {
    forall id | id in s.rows :: s.rows[id].id == id
  }

  /** The table and the uploads directory. */
  datatype World = World(store: Store, dir: set<string>)

  /** What the environment decides: the file-system and transcoder oracle, the
      library parsers, whether the database accepts the write (not-null and type
      validation, constraints, connection), and the current time stamp. */
  datatype Env = Env(oracle: Media.Oracle, parsers: Parsers, storeOk: bool, now: nat)

  /** A `TypeError` thrown by the service's own code, or a rejected database write. */
  datatype Failure = TypeError | StoreFailure

  /** The service's answer: a value, the "not found" value (null / false), or a throw. */
  datatype Outcome<T> = Done(value: T) | NotFound | Failed(why: Failure)

  const DefaultCurrency: string := "USD"

  /** Column defaults applied on insert to fields the body did not send. */
  function WithDefaults(row: Row): (r: Row)
    ensures r == row.(currency := r.currency)
    ensures r.currency == (if row.currency.None? then Some(DefaultCurrency) else row.currency)
  {
    if row.currency.None? then row.(currency := Some(DefaultCurrency)) else row
  }

  /** `createProperty`: convert the new images, take the uploaded PDF, map the fields
      and insert the row under the next auto-increment id. */
  function Create(w: World, env: Env, body: Body, files: Upload.Files): (r: (Outcome<Property>, World))
    requires Valid(w.store)
    ensures Valid(r.1.store)
    ensures r.1.dir == Media.ProcessNewImages(w.dir, env.oracle, files.images).1
    ensures r.0.Failed? ==> r.1.store == w.store
    ensures r.0.Done? ==> var p := r.0.value;
      && p.id == w.store.nextId && p.id !in w.store.rows
      && r.1.store.rows == w.store.rows[p.id := p]
      && r.1.store.nextId == w.store.nextId + 1
      && p.row.images == Media.Strs(Media.ProcessNewImages(w.dir, env.oracle, files.images).0)
      && p.row.pdfUrl == Media.ExtractPdfPath(files)
      && p.createdAt == env.now
      && p.row == WithDefaults(FieldMap.PrepareData(body, p.row.images, p.row.pdfUrl, env.parsers))
    ensures r.0.Done? || r.0.Failed?
  {
    var converted := Media.ProcessNewImages(w.dir, env.oracle, files.images);
    var pdf := Media.ExtractPdfPath(files);
    var row := WithDefaults(FieldMap.PrepareData(body, Media.Strs(converted.0), pdf, env.parsers));
    if !env.storeOk || w.store.nextId in w.store.rows then
      (Failed(StoreFailure), World(w.store, converted.1))
    else
      var p := Property(w.store.nextId, env.now, row);
      (Done(p), World(Store(w.store.rows[p.id := p], w.store.nextId + 1), converted.1))
  }

  /** A created row holds each verbatim field the body sent; of the ones it did not
      send, only the currency gets a value, the column default. */
  lemma CreateVerbatimColumn(w: World, env: Env, body: Body, files: Upload.Files, k: string)
    requires Valid(w.store)
    requires Create(w, env, body, files).0.Done?
    requires k in FieldMap.VerbatimKeys
    ensures FieldMap.TextColumn(Create(w, env, body, files).0.value.row, k)
            == (if k in body then Some(body[k]) else if k == "currency" then Some(DefaultCurrency) else None)
  {
    var p := Create(w, env, body, files).0.value;
    var written := FieldMap.PrepareData(body, p.row.images, p.row.pdfUrl, env.parsers);
    FieldMap.PrepareDataVerbatim(body, p.row.images, p.row.pdfUrl, env.parsers, k);
    WithDefaultsColumn(written, k);
  }

  /** The column defaults touch only an absent currency. */
  lemma WithDefaultsColumn(row: Row, k: string)
    ensures FieldMap.TextColumn(WithDefaults(row), k)
            == (if k == "currency" && row.currency.None? then Some(DefaultCurrency) else FieldMap.TextColumn(row, k))
  {
  }

  /** Sequelize's instance `update` leaves out the attributes whose value is
      `undefined`: a verbatim field the body did not send keeps its stored column,
      and every other column takes the written value. */
  function KeepUnsent(body: Body, stored: Row, written: Row): (r: Row)
    ensures FieldMap.Computed(r) == FieldMap.Computed(written)
  {
    written.(
      name := (if "name" in body then written else stored).name,
      address := (if "address" in body then written else stored).address,
      locality := (if "locality" in body then written else stored).locality,
      neighbourhood := (if "neighbourhood" in body then written else stored).neighbourhood,
      description := (if "description" in body then written else stored).description,
      propertyType := (if "type" in body then written else stored).propertyType,
      subtype := (if "subtype" in body then written else stored).subtype,
      category := (if "category" in body then written else stored).category,
      currency := (if "currency" in body then written else stored).currency)
  }

  /** Each verbatim column comes from the written row when its field was sent, and
      from the stored row otherwise. */
  lemma KeepUnsentColumn(body: Body, stored: Row, written: Row, k: string)
    requires k in FieldMap.VerbatimKeys
    ensures FieldMap.TextColumn(KeepUnsent(body, stored, written), k)
            == FieldMap.TextColumn(if k in body then written else stored, k)
  {
  }

  /** `updateProperty`. */
  function Update(w: World, env: Env, id: nat, body: Body, files: Upload.Files): (r: (Outcome<Property>, World))
    requires Valid(w.store)
    ensures Valid(r.1.store)
    ensures id !in w.store.rows <==> r.0.NotFound?
    ensures id !in w.store.rows ==> r.1 == w
    ensures r.0.Failed? ==> r.1.store == w.store
    ensures r.0.Done? ==> var p := r.0.value;
      && id in w.store.rows
      && p.id == id && p.createdAt == w.store.rows[id].createdAt
      && r.1.store == w.store.(rows := w.store.rows[id := p])
  {
    if id !in w.store.rows then (NotFound, w)
    else
      var current := w.store.rows[id];
      var json := env.parsers.json;
      var swept := Media.HandlePhysicalDeletions(w.dir, env.oracle.locked, body, json);
      if swept.value.None? then (Failed(TypeError), World(w.store, swept.dir))
      else
        var images := Media.ResolveFinalImages(swept.dir, env.oracle, body, files, json);
        if images.value.None? then (Failed(TypeError), World(w.store, images.dir))
        else
          var pdf := Media.ResolveFinalPdf(images.dir, env.oracle.locked, current.row.pdfUrl, body, files, json);
          if pdf.value.None? then (Failed(TypeError), World(w.store, pdf.dir))
          else
            var row := FieldMap.PrepareData(body, images.value.value, pdf.value.value, env.parsers);
            if !env.storeOk then (Failed(StoreFailure), World(w.store, pdf.dir))
            else
              var p := current.(row := KeepUnsent(body, current.row, row));
              (Done(p), World(w.store.(rows := w.store.rows[id := p]), pdf.dir))
  }

  /** A successful update writes each verbatim field the body sent, and keeps the
      stored column of each one it did not send. */
  lemma UpdateVerbatimColumn(w: World, env: Env, id: nat, body: Body, files: Upload.Files, k: string)
    requires Valid(w.store)
    requires Update(w, env, id, body, files).0.Done?
    requires k in FieldMap.VerbatimKeys
    ensures FieldMap.TextColumn(Update(w, env, id, body, files).0.value.row, k)
            == (if k in body then Some(body[k]) else FieldMap.TextColumn(w.store.rows[id].row, k))
  {
    var json := env.parsers.json;
    var current := w.store.rows[id];
    var swept := Media.HandlePhysicalDeletions(w.dir, env.oracle.locked, body, json);
    var images := Media.ResolveFinalImages(swept.dir, env.oracle, body, files, json);
    var pdf := Media.ResolveFinalPdf(images.dir, env.oracle.locked, current.row.pdfUrl, body, files, json);
    var row := FieldMap.PrepareData(body, images.value.value, pdf.value.value, env.parsers);
    KeepUnsentColumn(body, current.row, row, k);
    FieldMap.PrepareDataVerbatim(body, images.value.value, pdf.value.value, env.parsers, k);
  }

  /** A successful update writes the kept image URLs followed by the converted
      uploads, the PDF chosen by `_resolveFinalPdf`, and for every column but the
      verbatim ones what the mapper makes of the body. */
  lemma UpdateComputedColumns(w: World, env: Env, id: nat, body: Body, files: Upload.Files)
    requires Valid(w.store)
    requires Update(w, env, id, body, files).0.Done?
    ensures var p := Update(w, env, id, body, files).0.value;
      var json := env.parsers.json;
      var keep := Media.Spread(Media.ListField(body, "existingImageUrlsToKeep", json));
      var swept := Media.HandlePhysicalDeletions(w.dir, env.oracle.locked, body, json);
      var stored := w.store.rows[id].row.pdfUrl;
      && keep.Some?
      && p.row.images == keep.value + Media.Strs(Media.ProcessNewImages(swept.dir, env.oracle, files.images).0)
      && p.row.pdfUrl == (if Media.ExtractPdfPath(files).Some? then Media.ExtractPdfPath(files)
                          else if Media.Includes(Media.ListField(body, "filesToDelete", json), stored) == Some(true) then None
                          else stored)
      && FieldMap.Computed(p.row) == FieldMap.Computed(FieldMap.PrepareData(body, p.row.images, p.row.pdfUrl, env.parsers))
  {
    var json := env.parsers.json;
    var current := w.store.rows[id];
    var swept := Media.HandlePhysicalDeletions(w.dir, env.oracle.locked, body, json);
    var images := Media.ResolveFinalImages(swept.dir, env.oracle, body, files, json);
    var pdf := Media.ResolveFinalPdf(images.dir, env.oracle.locked, current.row.pdfUrl, body, files, json);
    var row := FieldMap.PrepareData(body, images.value.value, pdf.value.value, env.parsers);
    assert Update(w, env, id, body, files).0.value == current.(row := KeepUnsent(body, current.row, row));
  }

  /** A successful update leaves the uploads directory as the deletion sweep left
      it, plus the converted images, minus the replaced PDF's file. */
  lemma UpdateDirectory(w: World, env: Env, id: nat, body: Body, files: Upload.Files)
    requires Valid(w.store)
    requires Update(w, env, id, body, files).0.Done?
    ensures var json := env.parsers.json;
      var list := Media.ListField(body, "filesToDelete", json);
      var swept := Media.HandlePhysicalDeletions(w.dir, env.oracle.locked, body, json).dir;
      var converted := Media.ProcessNewImages(swept, env.oracle, files.images).1;
      var stored := w.store.rows[id].row.pdfUrl;
      && swept == (if list.Arr? then w.dir - (Media.NamedFiles(list.items) - env.oracle.locked) else w.dir)
      && Update(w, env, id, body, files).1.dir
         == (if Media.ExtractPdfPath(files).Some? && stored.Some? && stored.value != ""
             then converted - ({Paths.Basename(stored.value)} - env.oracle.locked)
             else converted)
  {
  }

  /** The files of a stored property: its images followed by its PDF URL. */
  function StoredFiles(p: Property): seq<JsValue>
  {
    p.row.images + [Media.NullableStr(p.row.pdfUrl)]
  }

  /** `deleteProperty`: remove the files of the row's images and PDF (falsy entries
      dropped), then the row. */
  function Delete(w: World, locked: set<string>, id: nat): (r: (Outcome<bool>, World))
    requires Valid(w.store)
    ensures Valid(r.1.store)
    ensures id !in w.store.rows ==> r == (Done(false), w)
    ensures r.0 == Done(true) ==>
      && id in w.store.rows
      && r.1.store == w.store.(rows := w.store.rows - {id})
      && r.1.dir == w.dir - (Media.NamedFiles(StoredFiles(w.store.rows[id])) - locked)
    ensures r.0.Failed? ==> r.1.store == w.store && r.0.why == TypeError
    ensures id in w.store.rows && Media.AllNamable(StoredFiles(w.store.rows[id])) ==> r.0 == Done(true)
  {
    if id !in w.store.rows then (Done(false), w)
    else
      var all := StoredFiles(w.store.rows[id]);
      var items := Seqs.Filter(all, Truthy);
      TruthyFilterNames(all);
      var swept := if |items| > 0 then Media.DeleteFiles(w.dir, locked, items) else Media.Step(Some(()), w.dir);
      if swept.value.None? then (Failed(TypeError), World(w.store, swept.dir))
      else (Done(true), World(w.store.(rows := w.store.rows - {id}), swept.dir))
  }

  /** Dropping falsy entries changes neither the named files nor whether every entry
      can be named. */
  lemma {:induction false} TruthyFilterNames(items: seq<JsValue>)
    ensures Media.NamedFiles(Seqs.Filter(items, Truthy)) == Media.NamedFiles(items)
    ensures Media.AllNamable(Seqs.Filter(items, Truthy)) <==> Media.AllNamable(items)
    ensures |Seqs.Filter(items, Truthy)| == 0 ==> Media.NamedFiles(items) == {} && Media.AllNamable(items)
  {
    if |items| > 0 {
      TruthyFilterNames(items[1..]);
      Media.NamedFilesCons(items);
      Media.AllNamableCons(items);
      var tail := Seqs.Filter(items[1..], Truthy);
      if Truthy(items[0]) {
        assert Seqs.Filter(items, Truthy) == [items[0]] + tail;
        assert ([items[0]] + tail)[1..] == tail;
        Media.NamedFilesCons([items[0]] + tail);
        Media.AllNamableCons([items[0]] + tail);
      } else {
        assert Seqs.Filter(items, Truthy) == tail;
      }
    }
  }

  /** `togglePublished`: set the publish flag of one row. */
  function TogglePublished(s: Store, storeOk: bool, id: nat, newStatus: bool): (r: (Outcome<Property>, Store))
    requires Valid(s)
    ensures Valid(r.1)
    ensures id !in s.rows ==> r == (NotFound, s)
    ensures r.0.Done? ==>
      && id in s.rows
      && r.0.value == s.rows[id].(row := s.rows[id].row.(isPublished := newStatus))
      && r.1 == s.(rows := s.rows[id := r.0.value])
    ensures !r.0.Done? ==> r.1 == s
  {
    if id !in s.rows then (NotFound, s)
    else if !storeOk then (Failed(StoreFailure), s)
    else
      var p := s.rows[id].(row := s.rows[id].row.(isPublished := newStatus));
      (Done(p), s.(rows := s.rows[id := p]))
  }

  /** Setting the flag back to its old value restores the table. */
  lemma TogglePublishedRoundTrip(s: Store, id: nat, newStatus: bool)
    requires Valid(s) && id in s.rows
    ensures var once := TogglePublished(s, true, id, newStatus).1;
      TogglePublished(once, true, id, s.rows[id].row.isPublished).1 == s
  {
    var once := TogglePublished(s, true, id, newStatus).1;
    assert once.rows[id := s.rows[id]] == s.rows;
  }

  /** Deleting a created property gives back the table it was created in (apart
      from the spent auto-increment value). */
  lemma CreateThenDelete(w: World, env: Env, body: Body, files: Upload.Files, locked: set<string>)
    requires Valid(w.store)
    requires Create(w, env, body, files).0.Done?
    ensures var (created, w1) := Create(w, env, body, files);
      var (deleted, w2) := Delete(w1, locked, created.value.id);
      && deleted.Done?
      && w2.store.rows == w.store.rows
  {
    var (created, w1) := Create(w, env, body, files);
    var p := created.value;
    assert p.row.images == Media.Strs(Media.ProcessNewImages(w.dir, env.oracle, files.images).0);
    assert Media.AllNamable(StoredFiles(p)) by {
      forall i | 0 <= i < |StoredFiles(p)| ensures !Media.Unnamable(StoredFiles(p)[i]) {
        if i < |p.row.images| {
          assert StoredFiles(p)[i] == p.row.images[i];
        }
      }
    }
    assert w1.store.rows - {p.id} == w.store.rows;
  }

  /** A second delete of the same id finds nothing and changes nothing. */
  lemma DeleteTwice(w: World, locked: set<string>, id: nat)
    requires Valid(w.store)
    requires Delete(w, locked, id).0 == Done(true)
    ensures var w1 := Delete(w, locked, id).1;
      Delete(w1, locked, id) == (Done(false), w1)
  {
  }

  /** The keep-list is not checked against `filesToDelete`: a URL listed in both stays
      in the row's images while its file is removed from the uploads directory. */
  lemma UpdateKeepsDeletedUrl(w: World, env: Env, id: nat, body: Body, files: Upload.Files,
                              u: string, keep: seq<JsValue>, del: seq<JsValue>)
    requires Valid(w.store) && id in w.store.rows && env.storeOk
    requires "existingImageUrlsToKeep" in body && "filesToDelete" in body
    requires FieldMap.LooksLikeJson(Str(body["existingImageUrlsToKeep"]))
    requires env.parsers.json(body["existingImageUrlsToKeep"]) == Some(Arr(keep))
    requires FieldMap.LooksLikeJson(Str(body["filesToDelete"]))
    requires env.parsers.json(body["filesToDelete"]) == Some(Arr(del))
    requires u != "" && Str(u) in keep && Str(u) in del && Media.AllNamable(del)
    requires Paths.Basename(u) !in env.oracle.locked
    requires Paths.Basename(u) !in Media.WebpNames(files.images)
    ensures var (out, w1) := Update(w, env, id, body, files);
      && out.Done?
      && Str(u) in out.value.row.images
      && Paths.Basename(u) !in w1.dir
  {
    var json := env.parsers.json;
    var b := Paths.Basename(u);
    ListFieldParsed(body, "filesToDelete", json, del);
    var i :| 0 <= i < |del| && del[i] == Str(u);
    Media.NamedAt(del, i);
    var swept := Media.HandlePhysicalDeletions(w.dir, env.oracle.locked, body, json);
    assert b !in swept.dir;
    var images := Media.ResolveFinalImages(swept.dir, env.oracle, body, files, json);
    ListFieldParsed(body, "existingImageUrlsToKeep", json, keep);
    Media.ProcessNewImagesFrame(swept.dir, env.oracle, files.images);
    assert b !in images.dir;
    var current := w.store.rows[id];
    var pdf := Media.ResolveFinalPdf(images.dir, env.oracle.locked, current.row.pdfUrl, body, files, json);
    assert pdf.dir <= images.dir;
    assert images.value.value == keep + Media.Strs(Media.ProcessNewImages(swept.dir, env.oracle, files.images).0);
  }

  /** With no new PDF, a current PDF listed in `filesToDelete` is cleared from the row,
      and its file is removed by the sweep that runs before the PDF is resolved. */
  lemma UpdateClearsListedPdf(w: World, env: Env, id: nat, body: Body, files: Upload.Files, del: seq<JsValue>)
    requires Valid(w.store) && id in w.store.rows && env.storeOk
    requires |files.pdf| == 0
    requires var c := w.store.rows[id].row.pdfUrl; c.Some? && c.value != "" && Str(c.value) in del
    requires "filesToDelete" in body && FieldMap.LooksLikeJson(Str(body["filesToDelete"]))
    requires env.parsers.json(body["filesToDelete"]) == Some(Arr(del)) && Media.AllNamable(del)
    requires Media.Spread(Media.ListField(body, "existingImageUrlsToKeep", env.parsers.json)).Some?
    requires var c := w.store.rows[id].row.pdfUrl.value;
      Paths.Basename(c) !in env.oracle.locked && Paths.Basename(c) !in Media.WebpNames(files.images)
    ensures var (out, w1) := Update(w, env, id, body, files);
      && out.Done?
      && out.value.row.pdfUrl == None
      && Paths.Basename(w.store.rows[id].row.pdfUrl.value) !in w1.dir
  {
    var json := env.parsers.json;
    var c := w.store.rows[id].row.pdfUrl.value;
    var b := Paths.Basename(c);
    ListFieldParsed(body, "filesToDelete", json, del);
    var i :| 0 <= i < |del| && del[i] == Str(c);
    Media.NamedAt(del, i);
    var swept := Media.HandlePhysicalDeletions(w.dir, env.oracle.locked, body, json);
    assert b !in swept.dir;
    var images := Media.ResolveFinalImages(swept.dir, env.oracle, body, files, json);
    Media.ProcessNewImagesFrame(swept.dir, env.oracle, files.images);
    assert b !in images.dir;
    var pdf := Media.ResolveFinalPdf(images.dir, env.oracle.locked, Some(c), body, files, json);
    assert Media.Includes(Arr(del), Some(c)) == Some(true);
    assert pdf.value == Some(None) && pdf.dir == images.dir;
    var current := w.store.rows[id];
    var row := FieldMap.PrepareData(body, images.value.value, None, env.parsers);
    var p := current.(row := KeepUnsent(body, current.row, row));
    assert Update(w, env, id, body, files) == (Done(p), World(w.store.(rows := w.store.rows[id := p]), pdf.dir));
  }

  /** A list field holding JSON text of an array reads as that array. */
  lemma ListFieldParsed(body: Body, key: string, json: string -> Option<JsValue>, items: seq<JsValue>)
    requires key in body && FieldMap.LooksLikeJson(Str(body[key]))
    requires json(body[key]) == Some(Arr(items))
    ensures Media.ListField(body, key, json) == Arr(items)
  {
    assert FieldValue(body, key) == Str(body[key]);
    assert FieldMap.SafeParse(FieldValue(body, key), json) == Arr(items);
  }
}
