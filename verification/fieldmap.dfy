/** The service's field mapper: from a multipart request body, the final image
    list and the final PDF to the column values written to the `properties` table;
    with its helpers for JSON-bearing fields and YouTube links. */
module FieldMap {
  import opened Wrappers
  import opened Records
  import YouTube

  const EmbedPrefix: string := "https://www.youtube.com/embed/"
  const DefaultVideo: string := EmbedPrefix + "TU_VIDEO_POR_DEFECTO"
  const DefaultSource: string := "propia"

  /** A string that `_safeParse` hands to `JSON.parse`. */
  predicate LooksLikeJson(v: JsValue)
  {
    v.Str? && |v.s| > 0 && (v.s[0] == '{' || v.s[0] == '[')
  }

  /** `_safeParse`: a string starting with `{` or `[` is parsed, falling back to an
      empty object or array (by that first character) when parsing fails; anything
      else is returned unchanged. */
  function SafeParse(value: JsValue, json: string -> Option<JsValue>): (r: JsValue)
    ensures !LooksLikeJson(value) ==> r == value
    ensures LooksLikeJson(value) && json(value.s).None? ==>
      r == (if value.s[0] == '{' then Obj(map[]) else Arr([]))
    ensures LooksLikeJson(value) ==> Truthy(r) || json(value.s) == Some(r)
  {
    if LooksLikeJson(value) then
      match json(value.s)
      case Some(v) => v
      case None => if value.s[0] == '{' then Obj(map[]) else Arr([])
    else value
  }

  /** `_safeParse(x) || fallback` is never falsy when the fallback is an array or object. */
  lemma SafeParseOrTruthy(value: JsValue, json: string -> Option<JsValue>, fallback: JsValue)
    requires fallback.Arr? || fallback.Obj?
    ensures Truthy(Or(SafeParse(value, json), fallback))
  {
  }

  /** What a client-side `JSON.stringify` of a list produces is recovered as that
      list, whatever the parser does with other input. */
  lemma SafeParseRecoversList(text: string, items: seq<JsValue>, json: string -> Option<JsValue>)
    requires |text| > 0 && text[0] == '['
    requires json(text) == Some(Arr(items))
    ensures SafeParse(Str(text), json) == Arr(items)
    ensures Or(SafeParse(Str(text), json), Arr([])) == Arr(items)
  {
  }

  /** `_transformYoutubeLink` as written: the embed URL of the captured video id, or
      the placeholder video when the value is not a non-empty string or does not match. */
  function TransformYoutubeLinkAsWritten(url: JsValue): (r: string)
    ensures EmbedPrefix <= r
    ensures url.Str? && url.s != "" && YouTube.VideoId(url.s).Some?
            ==> r == EmbedPrefix + YouTube.VideoId(url.s).value
    ensures !(url.Str? && url.s != "" && YouTube.VideoId(url.s).Some?) ==> r == DefaultVideo
  {
    if !Truthy(url) || !url.Str? then DefaultVideo
    else
      match YouTube.VideoId(url.s)
      case Some(id) => if id != "" then EmbedPrefix + id else DefaultVideo
      case None => DefaultVideo
  }

  /** Transforming a stored link a second time changes nothing, except for the
      placeholder. */
  lemma TransformYoutubeLinkAsWrittenStable(url: JsValue)
    requires TransformYoutubeLinkAsWritten(url) != DefaultVideo
    ensures var r := TransformYoutubeLinkAsWritten(url);
      TransformYoutubeLinkAsWritten(Str(r)) == r
  {
    var id := YouTube.VideoId(url.s).value;
    YouTube.EmbedLinkReadsBack(id);
  }

  /** The placeholder is not kept: the edit form sends the stored placeholder back,
      and saving it stores a link to the id `TU_VIDEO_PO` instead. */
  lemma PlaceholderNotKept(url: JsValue)
    requires url == Str(DefaultVideo)
    ensures TransformYoutubeLinkAsWritten(url) == EmbedPrefix + "TU_VIDEO_PO"
    ensures TransformYoutubeLinkAsWritten(url) != DefaultVideo
  {
    YouTube.PlaceholderReadsAsId("TU_VIDEO_POR_DEFECTO");
    assert |EmbedPrefix + "TU_VIDEO_PO"| != |DefaultVideo|;
  }

  /** `_transformYoutubeLink` with the stored placeholder passed through unchanged. */
  function TransformYoutubeLink(url: JsValue): (r: string)
    ensures EmbedPrefix <= r
    ensures r == DefaultVideo || YouTube.IsId(r[|EmbedPrefix|..])
    ensures url == Str(DefaultVideo) ==> r == DefaultVideo
    ensures url != Str(DefaultVideo) ==> r == TransformYoutubeLinkAsWritten(url)
  {
    if url == Str(DefaultVideo) then DefaultVideo else TransformYoutubeLinkAsWritten(url)
  }

  /** Saving a stored link again, placeholder included, changes nothing. */
  lemma TransformYoutubeLinkIdempotent(url: JsValue)
    ensures TransformYoutubeLink(Str(TransformYoutubeLink(url))) == TransformYoutubeLink(url)
  {
    var r := TransformYoutubeLink(url);
    if r != DefaultVideo {
      assert |r| == |EmbedPrefix| + YouTube.IdLength;
      assert Str(r) != Str(DefaultVideo);
      TransformYoutubeLinkAsWrittenStable(url);
    }
  }

  /** `data.x ? parseFloat(data.x) : null` (or `parseInt`). */
  function NumberField(body: Body, key: string, parse: string -> Option<int>): (r: Numeric)
    ensures r.NullNumber? <==> (key !in body || body[key] == "")
  {
    match Field(body, key)
    case None => NullNumber
    case Some(s) =>
      if s == "" then NullNumber
      else match parse(s) case Some(n) => Number(n) case None => NaN
  }

  /** `data.x || fallback` for a string field. */
  function StringOr(body: Body, key: string, fallback: Option<string>): (r: Option<string>)
    ensures key in body && body[key] != "" ==> r == Some(body[key])
    ensures !(key in body && body[key] != "") ==> r == fallback
  {
    match Field(body, key)
    case Some(s) => if s != "" then Some(s) else fallback
    case None => fallback
  }

  /** The request fields the mapper reads. */
  const MappedKeys: set<string> := {
    "name", "address", "locality", "neighbourhood", "description", "type", "subtype",
    "category", "currency", "propertySource", "privateNotes", "price", "totalSurface",
    "coveredSurface", "latitude", "longitude", "ownerId", "agentId", "colleagueId",
    "isPublished", "videoUrl", "specificCharacteristics", "amenities", "internalDocsUrls"}

  /** `_prepareDataForDB`. */
  function PrepareData(body: Body, images: seq<JsValue>, pdf: Option<string>, parsers: Parsers): (r: Row)
    ensures r.isPublished <==> Field(body, "isPublished") == Some("true")
    ensures r.propertySource.Some? && r.propertySource.value != ""
    ensures Field(body, "propertySource") != Some("") && Field(body, "propertySource").Some?
            ==> r.propertySource == Field(body, "propertySource")
    ensures Field(body, "propertySource").None? || Field(body, "propertySource") == Some("")
            ==> r.propertySource == Some(DefaultSource)
    ensures r.privateNotes != Some("")
    ensures r.name == Field(body, "name") && r.address == Field(body, "address")
         && r.locality == Field(body, "locality") && r.neighbourhood == Field(body, "neighbourhood")
         && r.description == Field(body, "description") && r.propertyType == Field(body, "type")
         && r.subtype == Field(body, "subtype") && r.category == Field(body, "category")
         && r.currency == Field(body, "currency")
    ensures r.price.NullNumber? <==> Field(body, "price").None? || Field(body, "price") == Some("")
    ensures r.images == images && r.pdfUrl == pdf
    ensures r.videoUrl.Some? && EmbedPrefix <= r.videoUrl.value
    ensures Truthy(r.specificCharacteristics) && Truthy(r.amenities) && Truthy(r.internalDocsUrls)
  {
    SafeParseOrTruthy(FieldValue(body, "specificCharacteristics"), parsers.json, Obj(map[]));
    SafeParseOrTruthy(FieldValue(body, "amenities"), parsers.json, Arr([]));
    SafeParseOrTruthy(FieldValue(body, "internalDocsUrls"), parsers.json, Arr([]));
    Row(
      name := Field(body, "name"),
      address := Field(body, "address"),
      locality := Field(body, "locality"),
      neighbourhood := Field(body, "neighbourhood"),
      description := Field(body, "description"),
      propertyType := Field(body, "type"),
      subtype := Field(body, "subtype"),
      category := Field(body, "category"),
      currency := Field(body, "currency"),
      propertySource := StringOr(body, "propertySource", Some(DefaultSource)),
      privateNotes := StringOr(body, "privateNotes", None),
      price := NumberField(body, "price", parsers.float),
      totalSurface := NumberField(body, "totalSurface", parsers.float),
      coveredSurface := NumberField(body, "coveredSurface", parsers.float),
      latitude := NumberField(body, "latitude", parsers.float),
      longitude := NumberField(body, "longitude", parsers.float),
      ownerId := NumberField(body, "ownerId", parsers.integer),
      agentId := NumberField(body, "agentId", parsers.integer),
      colleagueId := NumberField(body, "colleagueId", parsers.integer),
      isPublished := Field(body, "isPublished") == Some("true"),
      images := images,
      pdfUrl := pdf,
      videoUrl := Some(TransformYoutubeLinkAsWritten(FieldValue(body, "videoUrl"))),
      specificCharacteristics := Or(SafeParse(FieldValue(body, "specificCharacteristics"), parsers.json), Obj(map[])),
      amenities := Or(SafeParse(FieldValue(body, "amenities"), parsers.json), Arr([])),
      internalDocsUrls := Or(SafeParse(FieldValue(body, "internalDocsUrls"), parsers.json), Arr([])))
  }

  /** A property saved without a video stores the placeholder; when the edit form
      sends that stored link back, the mapper writes a link to `TU_VIDEO_PO` instead. */
  lemma ResaveLosesPlaceholder(first: Body, again: Body, images: seq<JsValue>, pdf: Option<string>, parsers: Parsers)
    requires "videoUrl" !in first
    requires Field(again, "videoUrl") == PrepareData(first, images, pdf, parsers).videoUrl
    ensures PrepareData(first, images, pdf, parsers).videoUrl == Some(DefaultVideo)
    ensures PrepareData(again, images, pdf, parsers).videoUrl == Some(EmbedPrefix + "TU_VIDEO_PO")
  {
    assert FieldValue(again, "videoUrl") == Str(DefaultVideo);
    PlaceholderNotKept(Str(DefaultVideo));
  }

  /** `_prepareDataForDB` with the placeholder passed through: the same columns,
      except that the video link is the corrected transform of the field. */
  function PrepareDataCorrected(body: Body, images: seq<JsValue>, pdf: Option<string>, parsers: Parsers): (r: Row)
    ensures r.(videoUrl := None) == PrepareData(body, images, pdf, parsers).(videoUrl := None)
    ensures r.videoUrl.Some? && EmbedPrefix <= r.videoUrl.value
    ensures r.videoUrl.value == DefaultVideo || YouTube.IsId(r.videoUrl.value[|EmbedPrefix|..])
  {
    PrepareData(body, images, pdf, parsers).(videoUrl := Some(TransformYoutubeLink(FieldValue(body, "videoUrl"))))
  }

  /** With the corrected transform, sending a stored link back stores it unchanged,
      the placeholder included. */
  lemma ResaveKeepsVideo(first: Body, again: Body, images: seq<JsValue>, pdf: Option<string>, parsers: Parsers)
    requires Field(again, "videoUrl") == PrepareDataCorrected(first, images, pdf, parsers).videoUrl
    ensures PrepareDataCorrected(again, images, pdf, parsers).videoUrl
            == PrepareDataCorrected(first, images, pdf, parsers).videoUrl
  {
    var v := FieldValue(first, "videoUrl");
    assert FieldValue(again, "videoUrl") == Str(TransformYoutubeLink(v));
    TransformYoutubeLinkIdempotent(v);
  }

  /** Every numeric column is null exactly when its field is missing or empty. */
  lemma PrepareDataEmptyNumbers(body: Body, images: seq<JsValue>, pdf: Option<string>, parsers: Parsers)
    ensures var r := PrepareData(body, images, pdf, parsers);
      && (r.price.NullNumber? <==> Field(body, "price").None? || Field(body, "price") == Some(""))
      && (r.totalSurface.NullNumber? <==> Field(body, "totalSurface").None? || Field(body, "totalSurface") == Some(""))
      && (r.coveredSurface.NullNumber? <==> Field(body, "coveredSurface").None? || Field(body, "coveredSurface") == Some(""))
      && (r.latitude.NullNumber? <==> Field(body, "latitude").None? || Field(body, "latitude") == Some(""))
      && (r.longitude.NullNumber? <==> Field(body, "longitude").None? || Field(body, "longitude") == Some(""))
      && (r.ownerId.NullNumber? <==> Field(body, "ownerId").None? || Field(body, "ownerId") == Some(""))
      && (r.agentId.NullNumber? <==> Field(body, "agentId").None? || Field(body, "agentId") == Some(""))
      && (r.colleagueId.NullNumber? <==> Field(body, "colleagueId").None? || Field(body, "colleagueId") == Some(""))
  {
  }

  /** The text fields the mapper copies as they come (`undefined` when not sent). */
  const VerbatimKeys: seq<string> :=
    ["name", "address", "locality", "neighbourhood", "description", "type", "subtype", "category", "currency"]

  /** The column a verbatim field is written to. */
  function TextColumn(r: Row, key: string): Option<string>
  {
    if key == "name" then r.name
    else if key == "address" then r.address
    else if key == "locality" then r.locality
    else if key == "neighbourhood" then r.neighbourhood
    else if key == "description" then r.description
    else if key == "type" then r.propertyType
    else if key == "subtype" then r.subtype
    else if key == "category" then r.category
    else if key == "currency" then r.currency
    else None
  }

  /** A row with its verbatim columns blanked: the columns the mapper always computes. */
  function Computed(r: Row): Row
  {
    r.(name := None, address := None, locality := None, neighbourhood := None, description := None,
       propertyType := None, subtype := None, category := None, currency := None)
  }

  /** Each verbatim column holds the body's field of that name, or nothing. */
  lemma PrepareDataVerbatim(body: Body, images: seq<JsValue>, pdf: Option<string>, parsers: Parsers, k: string)
    requires k in VerbatimKeys
    ensures TextColumn(PrepareData(body, images, pdf, parsers), k) == Field(body, k)
  {
  }

  /** The two bodies carry the same value (or none) for every mapped field. */
  predicate AgreeOnMapped(b1: Body, b2: Body)
  {
    forall k | k in MappedKeys :: Field(b1, k) == Field(b2, k)
  }

  /** Only the mapped fields matter: two bodies that agree on them map to the same
      columns, whatever other fields (`filesToDelete`, the keep-list, ...) they carry. */
  lemma PrepareDataReadsOnlyMappedKeys(b1: Body, b2: Body, images: seq<JsValue>, pdf: Option<string>, parsers: Parsers)
    requires AgreeOnMapped(b1, b2)
    ensures PrepareData(b1, images, pdf, parsers) == PrepareData(b2, images, pdf, parsers)
  {
    TextColumnsAgree(b1, b2, images, pdf, parsers);
    NumberColumnsAgree(b1, b2, images, pdf, parsers);
    ParsedColumnsAgree(b1, b2, images, pdf, parsers);
  }

  lemma TextColumnsAgree(b1: Body, b2: Body, images: seq<JsValue>, pdf: Option<string>, parsers: Parsers)
    requires AgreeOnMapped(b1, b2)
    ensures var r1, r2 := PrepareData(b1, images, pdf, parsers), PrepareData(b2, images, pdf, parsers);
      && r1.name == r2.name && r1.address == r2.address && r1.locality == r2.locality
      && r1.neighbourhood == r2.neighbourhood && r1.description == r2.description
      && r1.propertyType == r2.propertyType && r1.subtype == r2.subtype
      && r1.category == r2.category && r1.currency == r2.currency
      && r1.propertySource == r2.propertySource && r1.privateNotes == r2.privateNotes
      && r1.isPublished == r2.isPublished
  {
    MappedKeysListed();
  }

  lemma NumberColumnsAgree(b1: Body, b2: Body, images: seq<JsValue>, pdf: Option<string>, parsers: Parsers)
    requires AgreeOnMapped(b1, b2)
    ensures var r1, r2 := PrepareData(b1, images, pdf, parsers), PrepareData(b2, images, pdf, parsers);
      && r1.price == r2.price && r1.totalSurface == r2.totalSurface && r1.coveredSurface == r2.coveredSurface
      && r1.latitude == r2.latitude && r1.longitude == r2.longitude
      && r1.ownerId == r2.ownerId && r1.agentId == r2.agentId && r1.colleagueId == r2.colleagueId
  {
    MappedKeysListed();
    NumberFieldSame(b1, b2, "price", parsers.float);
    NumberFieldSame(b1, b2, "totalSurface", parsers.float);
    NumberFieldSame(b1, b2, "coveredSurface", parsers.float);
    NumberFieldSame(b1, b2, "latitude", parsers.float);
    NumberFieldSame(b1, b2, "longitude", parsers.float);
    NumberFieldSame(b1, b2, "ownerId", parsers.integer);
    NumberFieldSame(b1, b2, "agentId", parsers.integer);
    NumberFieldSame(b1, b2, "colleagueId", parsers.integer);
  }

  lemma NumberFieldSame(b1: Body, b2: Body, key: string, parse: string -> Option<int>)
    requires Field(b1, key) == Field(b2, key)
    ensures NumberField(b1, key, parse) == NumberField(b2, key, parse)
  {
  }

  lemma ParsedColumnsAgree(b1: Body, b2: Body, images: seq<JsValue>, pdf: Option<string>, parsers: Parsers)
    requires AgreeOnMapped(b1, b2)
    ensures var r1, r2 := PrepareData(b1, images, pdf, parsers), PrepareData(b2, images, pdf, parsers);
      && r1.videoUrl == r2.videoUrl && r1.specificCharacteristics == r2.specificCharacteristics
      && r1.amenities == r2.amenities && r1.internalDocsUrls == r2.internalDocsUrls
  {
    MappedKeysListed();
    assert FieldValue(b1, "videoUrl") == FieldValue(b2, "videoUrl");
    assert FieldValue(b1, "specificCharacteristics") == FieldValue(b2, "specificCharacteristics");
    assert FieldValue(b1, "amenities") == FieldValue(b2, "amenities");
    assert FieldValue(b1, "internalDocsUrls") == FieldValue(b2, "internalDocsUrls");
  }

  lemma MappedKeysListed()
    ensures "name" in MappedKeys && "address" in MappedKeys && "locality" in MappedKeys
    ensures "neighbourhood" in MappedKeys && "description" in MappedKeys && "type" in MappedKeys
    ensures "subtype" in MappedKeys && "category" in MappedKeys && "currency" in MappedKeys
    ensures "propertySource" in MappedKeys && "privateNotes" in MappedKeys && "price" in MappedKeys
    ensures "totalSurface" in MappedKeys && "coveredSurface" in MappedKeys && "latitude" in MappedKeys
    ensures "longitude" in MappedKeys && "ownerId" in MappedKeys && "agentId" in MappedKeys
    ensures "colleagueId" in MappedKeys && "isPublished" in MappedKeys && "videoUrl" in MappedKeys
    ensures "specificCharacteristics" in MappedKeys && "amenities" in MappedKeys
    ensures "internalDocsUrls" in MappedKeys
  {
  }
}
