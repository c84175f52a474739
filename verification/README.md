# Real-estate listing CRM: a verified model of its core

The system is a small real-estate CRM. An Express back end stores properties (listings for sale or rent) in PostgreSQL. It keeps their photos and PDF brochures in an `uploads` directory. A public site offers search, suggestions and similar listings. An admin panel has a property table, a private map and a property form.

This project models the core of that system in Dafny and proves properties of the model:

- **Write path** (`sync.dfy`, `media.dfy`, `fieldmap.dfy`, `youtube.dfy`): create, update, delete and the publish toggle. The store is a map from id to row. The uploads directory is a set of file names. The image transcoder and `unlinkSync` are an oracle that says per file whether they succeed.
- **Upload admission and naming** (`upload.dfy`, `paths.dfy`): the file-name sanitiser, the MIME allow-list, the per-field caps, and the pass-through of non-multipart requests.
- **Read-path queries** (`queries.dfy`): the suggestion cascade, similar listings, search, and the map coordinate filter. Each is a filter over the table's rows in scan order. `ILIKE` becomes a LIKE matcher over ASCII-lowercased text.
- **Client-side list logic** (`dashboard.js`, `private-map.js`, `results.js` and `property_form.js`), lifted out of the DOM handlers as pure functions:
  - the admin table's tabs, search, sort and grouping (`dashboard.dfy`);
  - the private map's dropdown filter and option-availability cascade (`privatemap.dfy`);
  - the results page's query-string editing, `formatText` and the card slug (`results.dfy`);
  - the property form's file lists, submit payload, `titleCase`, owner check and amenity restore (`propertyform.dfy`).

Shared vocabulary lives in `wrappers.dfy` (`Option`), `records.dfy` (JavaScript values and truthiness, the `Property` row), `text.dfy` (ASCII character classes and string helpers with JavaScript's meaning), `seqs.dfy` (filter, take, dedup, subsequence) and `sorting.dfy` (a stable insertion sort on a key).

Some facts come from outside the model and are passed in as parameters:

- `JSON.parse`, `parseFloat` and `parseInt` are passed in as functions (`Records.Parsers`). The YouTube link pattern is modelled as a backtracking matcher (`YouTube.VideoId`).
- `Date.now()` is a clock indexed by upload position.
- Whether the database accepts a write is a boolean.

## Model

| member | source | states |
|---|---|---|
| Upload.Sanitize | backend/middlewares/uploadMiddleware.js:29-32 | the sanitised base name holds only `[A-Za-z0-9_-]` and never two hyphens in a row |
| Upload.SanitizeIdempotent | backend/middlewares/uploadMiddleware.js:29-32 | sanitising an already sanitised name changes nothing |
| Upload.SanitizeKeepsWordChars | backend/middlewares/uploadMiddleware.js:29-32 | every letter, digit and underscore of the original name survives, in order |
| Upload.SanitizeSpaceRun | backend/middlewares/uploadMiddleware.js:30 | a run of whitespace between two alphanumeric words becomes exactly one hyphen |
| Upload.StoredNameShape | backend/middlewares/uploadMiddleware.js:22-36 | the stored name is `sanitised-stem + "-" + token + ext`, with the original extension kept and no directory part |
| Upload.Receive | backend/middlewares/uploadMiddleware.js:53-72 | on success, each field's list grows by the number of its named parts, after the files already there, and stays within the caps and the MIME list |
| Upload.ReceiveStores | backend/middlewares/uploadMiddleware.js:22-72 | on success, each field's new files are exactly its named parts in stream order, each stored under the sanitised name with the clock reading at its own position |
| Upload.ReceiveRefusesIff | backend/middlewares/uploadMiddleware.js:41-68 | the upload fails iff some named part names a field other than `images` or `pdf`, has a MIME type outside the four allowed or is over 50 MiB, or more than 25 images or 1 PDF arrive |
| Upload.Middleware | backend/middlewares/uploadMiddleware.js:60-78 | a non-multipart request passes with no files and no change to the directory; a refused upload leaves the directory unchanged; an accepted one adds exactly the stored files |
| Upload.MiddlewareRefusesIff | backend/middlewares/uploadMiddleware.js:60-72 | a multipart request answers 500 iff one of the admission rules is broken |
| Paths.ParseName | backend/middlewares/uploadMiddleware.js:24-27 | `path.parse(p).name` followed by `path.extname(p)` gives back the base name |
| Paths.ExtnameSpec | backend/middlewares/uploadMiddleware.js:24 | the extension is empty or a final `.segment` of the base name; a leading dot alone does not make an extension |
| FieldMap.SafeParse | backend/services/propertyService.js:470-475 | a non-string, or a string starting with neither `{` nor `[`, passes through; a parse failure falls back to `{}` or `[]` by the first character |
| FieldMap.SafeParseOrTruthy | backend/services/propertyService.js:463-465 | `_safeParse(x) \|\| fallback` is always truthy when the fallback is an object or array |
| FieldMap.SafeParseRecoversList | backend/services/propertyService.js:470-475 | a JSON array string is read back as that array |
| FieldMap.TransformYoutubeLinkAsWritten | backend/services/propertyService.js:477-483 | the result always starts with the embed prefix; a link the pattern matches gives `prefix + id`; anything else gives the placeholder video |
| FieldMap.TransformYoutubeLinkAsWrittenStable | backend/services/propertyService.js:477-483 | transforming a stored link that is not the placeholder again gives the same link |
| FieldMap.PlaceholderNotKept | backend/services/propertyService.js:477-483 | the stored placeholder sent back by the edit form is saved as a link to the id `TU_VIDEO_PO` |
| FieldMap.TransformYoutubeLink | backend/services/propertyService.js:477-483 | with the placeholder passed through, the result is the placeholder or the embed prefix followed by an eleven-character id |
| FieldMap.TransformYoutubeLinkIdempotent | backend/services/propertyService.js:477-483 | saving a stored link again, the placeholder included, changes nothing |
| YouTube.IdAt | backend/services/propertyService.js:480 | the capture group matches exactly when eleven id characters follow |
| YouTube.SlashFrom | backend/services/propertyService.js:480 | `[^\/]+` can stop only at the first `/` |
| YouTube.LastSlashId | backend/services/propertyService.js:480 | `.+\/` backs off to a `/` followed by an id, and fails exactly when there is none in the range |
| YouTube.MatchAt | backend/services/propertyService.js:480 | a match at a position starts with `youtube.com/` or `youtu.be/` and captures an id |
| YouTube.EmbedLinkReadsBack | backend/services/propertyService.js:480-482 | the embed link made from an id matches with that id |
| YouTube.WatchLinkGivesId | backend/services/propertyService.js:480-482 | `https://www.youtube.com/watch?v=<id>` gives its id |
| YouTube.ShortLinkGivesId | backend/services/propertyService.js:480-482 | `https://youtu.be/<id>` gives its id |
| YouTube.PlaceholderReadsAsId | backend/services/propertyService.js:478-482 | the placeholder link matches the pattern, with the id `TU_VIDEO_PO` |
| FieldMap.PrepareData | backend/services/propertyService.js:431-467 | `isPublished` iff the field is `'true'`; `propertySource` defaults to `'propia'`; text fields copied; an empty price is null; images and PDF as given; the video is an embed link from the transform as written; JSON fields truthy |
| FieldMap.ResaveLosesPlaceholder | backend/services/propertyService.js:455-483 | a property saved without a video stores the placeholder, and saving that stored link again stores a link to `TU_VIDEO_PO` |
| FieldMap.PrepareDataCorrected | backend/services/propertyService.js:431-483 | every column is what the mapper writes, except the video link, which is the placeholder or the embed prefix followed by an eleven-character id |
| FieldMap.ResaveKeepsVideo | backend/services/propertyService.js:455-483 | with the corrected transform, saving a stored video link again keeps it, the placeholder included |
| FieldMap.PrepareDataEmptyNumbers | backend/services/propertyService.js:446-453 | each of the eight numeric columns is null exactly when its field is missing or empty |
| FieldMap.PrepareDataVerbatim | backend/services/propertyService.js:431-441 | each of the nine verbatim text columns holds the body's field of that name, or nothing |
| FieldMap.PrepareDataReadsOnlyMappedKeys | backend/services/propertyService.js:431-467 | two bodies that agree on the mapped keys give the same row |
| Media.DeleteFiles | backend/services/propertyService.js:413-422 | only existing, unlocked base names of the listed strings are removed; a truthy non-string item throws, after the earlier items were handled |
| Media.DeleteFilesIdempotent | backend/services/propertyService.js:413-422 | sweeping the same list twice equals sweeping it once |
| Media.DeleteFilesRemovesExactly | backend/services/propertyService.js:413-422 | a file disappears iff it was there, is named by the list and is not locked |
| Media.ProcessImage | backend/services/propertyService.js:326-342 | transcode failure keeps the original URL; success yields the `.webp` URL and removes the original, or also reports the original URL when its removal fails |
| Media.ProcessNewImages | backend/services/propertyService.js:322-345 | no images gives `[]`; otherwise between one and two URLs per image |
| Media.ProcessNewImagesFrame | backend/services/propertyService.js:322-345 | only originals are removed and only `.webp` names added; every URL names an original or its `.webp` |
| Media.ProcessNewImagesAligned | backend/services/propertyService.js:326-342 | when every removal succeeds, there is exactly one URL per image, in input order |
| Media.LockedOriginalReportedTwice | backend/services/propertyService.js:337-341 | a successful transcode whose original cannot be removed pushes both the `.webp` URL and the original URL |
| Media.WebpNameKeepsUploadToken | backend/services/propertyService.js:327 | the `.webp` name is the multer stem (sanitised name plus token) with the extension swapped; the transcoder adds no token |
| Media.ResolveFinalImages | backend/services/propertyService.js:350-359 | the final list is the parsed keep-list followed by the new URLs, unfiltered; a keep value that cannot be spread throws |
| Media.ExtractPdfPath | backend/services/propertyService.js:366-368 | a PDF upload gives `/uploads/<filename>`, otherwise null |
| Media.ResolveFinalPdf | backend/services/propertyService.js:374-395 | a new PDF wins and removes the old file; otherwise a listed current URL gives null; otherwise the current URL is kept; only a `filesToDelete` value that is neither array nor string (the `includes` TypeError) gives no result |
| Media.ResolveFinalPdfFromList | backend/services/propertyService.js:374-395 | with a `filesToDelete` array, the column is the upload, else null when the current URL is listed, else the current URL |
| Media.ResolveFinalPdfWithoutList | backend/services/propertyService.js:374-395 | a body without `filesToDelete` keeps the current PDF unless a new one arrives |
| Media.HandlePhysicalDeletions | backend/services/propertyService.js:402-408 | a parsed array is swept; a non-array with a positive length throws without touching the directory |
| Sync.Create | backend/services/propertyService.js:151-169 | the new row gets the next id, the current time, the processed images and PDF, and every other column from the mapper applied to the body, with the column defaults; a rejected insert leaves the store as it was but keeps the transcoded files |
| Sync.CreateVerbatimColumn | backend/services/propertyService.js:151-169 | each verbatim column of a created row is the field the body sent; of the unsent ones only the currency gets a value, `USD` |
| Sync.Update | backend/services/propertyService.js:175-193 | a missing id returns null before any file is touched; otherwise the row is replaced under the same id and keeps its creation time |
| Sync.UpdateDirectory | backend/services/propertyService.js:175-193 | after a successful update the directory is the deletion sweep's result, plus the converted images, minus the replaced PDF's file when a new PDF arrived |
| Sync.KeepUnsent | backend/services/propertyService.js:191-193 | the instance `update` writes every computed column and skips the `undefined` ones |
| Sync.KeepUnsentColumn | backend/services/propertyService.js:191-193 | a verbatim column comes from the written row when its field was sent, from the stored row otherwise |
| Sync.UpdateVerbatimColumn | backend/services/propertyService.js:175-193 | after an update each of the nine verbatim text columns holds the sent field, or its stored value when the field was not sent |
| Sync.UpdateComputedColumns | backend/services/propertyService.js:175-193 | after an update the images are the keep-list followed by the converted uploads, the PDF follows `_resolveFinalPdf`'s precedence, and every other column is what the mapper makes of the body |
| Sync.Delete | backend/services/propertyService.js:199-222 | a missing id returns false with no effect; otherwise the images and PDF are swept, then the row removed |
| Sync.TogglePublished | backend/services/propertyService.js:61-66 | among the modelled columns, only `isPublished` of that row changes; a missing id returns null |
| Sync.TogglePublishedRoundTrip | backend/services/propertyService.js:61-66 | toggling to a status and back restores the store, in the modelled columns |
| Sync.CreateThenDelete | backend/services/propertyService.js:199-222 | deleting a freshly created row succeeds and restores the set of rows |
| Sync.DeleteTwice | backend/services/propertyService.js:199-205 | a second delete of the same id returns false and changes nothing |
| Sync.UpdateKeepsDeletedUrl | backend/services/propertyService.js:350-359 | a URL both kept and listed for deletion stays in the image list while its file is gone |
| Sync.UpdateClearsListedPdf | backend/services/propertyService.js:374-395 | a listed current PDF becomes null, and its file is removed by the deletion sweep |
| Queries.MapRows | backend/services/propertyService.js:27-42 | the map rows are exactly the rows with both coordinates non-null, in table order |
| Queries.Search | backend/services/propertyService.js:44-59 | exactly the rows satisfying the published, text, category and type conditions, in table order |
| Queries.SearchMatchPlainText | backend/services/propertyService.js:44-59 | for text without LIKE wildcards, a published row matches iff locality, neighbourhood or address contains it case-insensitively, with category and type equal when given |
| Queries.LikeSubstring | backend/services/propertyService.js:49-51 | `%q%` matches iff the column contains `q`, for `q` without wildcards |
| Queries.ILikeEquality | backend/services/propertyService.js:244-254 | an `iLike` pattern without wildcards is a case-insensitive equality |
| Queries.Newest3Spec | backend/services/propertyService.js:234-238 | each attempt returns at most three matching rows, newest first, and leaves out a match only when three newer-or-equal ones were taken |
| Queries.Suggestions | backend/services/propertyService.js:229-311 | at most three published rows, distinct by id, newest first |
| Queries.SuggestionsKeepCategory | backend/services/propertyService.js:250-295 | when a category is given and some published row has it, every suggestion has that category |
| Queries.CascadeIsFirstOf | backend/services/propertyService.js:249-303 | the tier cascade returns the first applicable tier that finds rows, as an independent first-match definition states |
| Queries.SuggestionsIsFirstAttempt | backend/services/propertyService.js:229-311 | the suggestions are the first successful attempt's rows, de-duplicated by id |
| Queries.FirstAttemptBelow | backend/services/propertyService.js:249-303 | once the category-only attempt finds rows, the cascade stops at or before it |
| Queries.FindById | backend/services/propertyService.js:107-108 | finds the row with that id, or reports that none exists |
| Queries.Similar | backend/services/propertyService.js:106-142 | a missing reference gives `[]`; otherwise at most three published rows of the same type, never the reference |
| Queries.SimilarPrefersSameLocality | backend/services/propertyService.js:110-121 | a same-type, same-locality candidate is left out only when three such rows were already taken |
| Queries.SimilarExhaustive | backend/services/propertyService.js:124-138 | when fewer than three are returned, every candidate of the same type is among them |
| Queries.SimilarDistinct | backend/services/propertyService.js:124-128 | the second phase excludes the first phase's ids, so no id repeats |
| Dashboard.SourceTabs | admin/js/dashboard.js:241-247 | a missing source means `colega` when a colleague id is set and `propia` otherwise; a stored source is compared as is, so `ms_propia` matches neither tab |
| Dashboard.Visible | admin/js/dashboard.js:239-253 | exactly the rows of the current tab whose lowercased name contains the lowercased search, in order |
| Dashboard.ShownIgnoresCase | admin/js/dashboard.js:236-252 | the search ignores ASCII case, and an empty search keeps the whole tab |
| Dashboard.SortRows | admin/js/dashboard.js:258-273 | the sorted list is a permutation of the filtered list; a text column holding both text and nulls has no consistent comparator and is reported |
| Dashboard.SortRowsFollowsComparator | admin/js/dashboard.js:258-273 | no later row compares before an earlier one under the page's comparator (price numeric with unparsable as 0, text lowercased, direction from `_asc`) |
| Dashboard.SortRowsStable | admin/js/dashboard.js:258-273 | rows with equal sort values keep their filtered order |
| Dashboard.GroupNamesAre | admin/js/dashboard.js:207-218 | the group headers are exactly the column values of the rows, `Sin categoría` standing for an empty one |
| Dashboard.GroupNamesSorted | admin/js/dashboard.js:217-218 | the group headers come in strictly ascending order, so none repeats |
| Dashboard.GroupsPartition | admin/js/dashboard.js:207-226 | every row lands in exactly one non-empty group under its own key, groups in sorted order, rows in input order |
| Dashboard.Render | admin/js/dashboard.js:199-226 | an empty list renders the placeholder; no grouping renders the rows as given; otherwise the groups |
| Dashboard.ApplySortAndGroup | admin/js/dashboard.js:233-276 | the placeholder appears iff no row passes the tab and search filter |
| PrivateMap.FilteredByDropdowns | admin/js/private-map.js:325-336 | exactly the rows whose lowercased category, type and subtype match the non-empty dropdowns, in order |
| PrivateMap.EmptyDropdownsKeepAll | admin/js/private-map.js:325-336 | empty dropdowns keep every row |
| PrivateMap.ApplyFilters | admin/js/private-map.js:339-378 | a subsequence whose rows satisfy the dropdowns and, when a currency is chosen, that currency; a row is kept iff it passes every filter |
| PrivateMap.ApplyFiltersRefinesDropdowns | admin/js/private-map.js:325-372 | the map's result is the dropdown-filtered list further filtered by currency, price and surface |
| PrivateMap.PriceNeedsCurrency | admin/js/private-map.js:345-366 | without a currency the price never matters; with one and no slider, a negative price is excluded by the `[0, ∞)` default |
| PrivateMap.Recheck | admin/js/private-map.js:88-91 | a non-empty value whose option is disabled resets to `""`; any other value survives unchanged |
| PrivateMap.UpdateCurrencyAvailability | admin/js/private-map.js:52-99 | USD or ARS is disabled iff no dropdown-matching row uses it; `""` and other options stay enabled |
| PrivateMap.UpdateTypeAvailability | admin/js/private-map.js:103-133 | a type is disabled iff no row of the chosen category (or any row, when none is chosen) has it |
| PrivateMap.UpdateSubtypeAvailability | admin/js/private-map.js:136-172 | nothing changes when no type is chosen; otherwise a subtype is disabled iff no row of that type and category has it |
| PrivateMap.CurrencySelectionSurvives | admin/js/private-map.js:52-99 | the chosen currency stays iff it is "all", has no option, is neither USD nor ARS, or a dropdown-matching row uses it |
| PrivateMap.TypeSelectionSurvives | admin/js/private-map.js:103-133 | the chosen type stays iff it is "all", has no option, or a row of the chosen category has that type |
| PrivateMap.SubtypeSelectionSurvives | admin/js/private-map.js:136-172 | with a type chosen, the chosen subtype stays iff it is "all", has no option, or a row of that type and category has it |
| PrivateMap.MarkKeepsLabel | admin/js/private-map.js:78-84 | the guarded update shows the label with one ` (Sin datos)` suffix when disabled and the bare label when enabled |
| PrivateMap.UpdateTypeOptionsAsWritten | admin/js/private-map.js:32-50 | the clear button's type update as written, suffix appended without a guard |
| PrivateMap.TypeOptionsSuffixDoubles | admin/js/private-map.js:32-50 | clearing twice with no row of type `casa` shows `Casa (Sin datos) (Sin datos)` |
| PrivateMap.UpdateTypeOptions | admin/js/private-map.js:32-50 | a type is disabled iff no row has it |
| PrivateMap.UpdateTypeOptionsKeepsLabels | admin/js/private-map.js:32-50 | with the guard, every label keeps at most one suffix, present iff the option is disabled |
| Results.FormatText | js/results.js:18-21 | falsy gives `""`; same length; no underscore survives; each underscore becomes a space; other characters are kept or uppercased |
| Results.FormatTextWordStarts | js/results.js:20 | read against the input: `_` becomes a space, a word character at the start or after `_` or a non-word character is capitalised, every other character is kept |
| Results.FormatTextIdempotent | js/results.js:18-21 | formatting formatted text changes nothing |
| Results.Slug | js/results.js:115-120 | the slug holds only `[a-z0-9-]`, with no hyphen at either end and no `--` |
| Results.SlugOfSlug | js/results.js:115-120 | a slug is its own slug |
| Results.SlugIdempotent | js/results.js:115-120 | slugging twice equals slugging once |
| Results.Get | js/results.js:80-96 | `params.get` is the first value of the key, or null when there is none |
| Results.RemoveFilter | js/results.js:230-241 | the key keeps its other values in order, every other key keeps its values, and no entry of the removed key and value remains |
| Results.RemoveFilterKeepsOthers | js/results.js:230-241 | the other keys' entries are untouched and keep their order |
| Results.SubmitSpec | js/results.js:289-300 | each single-valued field appears once when truthy and never otherwise; the checked localities appear in order; no other key is written |
| Results.SetFiltersFromUrl | js/results.js:77-104 | a locality box is checked iff its value is among the `locality` parameters |
| Results.SubmitThenRead | js/results.js:77-104 | reading the submitted URL back restores every set field, with `newest` and the page currency as defaults, and exactly the checked boxes |
| Results.RemoveLocalityUnchecks | js/results.js:230-241 | removing a locality tag unchecks exactly that box |
| Results.SuggestionParamsSpec | js/results.js:165-177 | the suggestion request carries the category and type only when truthy, every locality in order, and nothing else |
| Results.SuggestionCards | js/results.js:186-189 | the first `min(3, n)` of the `n` suggestions, in order |
| PropertyForm.HandleFileSelection | admin/js/property_form.js:264-273 | picked files are appended in order, skipping any whose name is already accumulated; names stay distinct; the name set grows by the picked names |
| PropertyForm.ReselectingAddsNothing | admin/js/property_form.js:264-273 | picking files whose names are already accumulated adds nothing |
| PropertyForm.RemoveNewFile | admin/js/property_form.js:249-252 | deleting a new thumbnail removes every accumulated file of that name and keeps all others in order |
| PropertyForm.PickThenRemove | admin/js/property_form.js:249-273 | picking a new file and deleting its thumbnail restores the list |
| PropertyForm.FlagForDeletion | admin/js/property_form.js:241-248 | the URL is listed afterwards, the old list is a prefix, and a duplicate-free list stays duplicate-free |
| PropertyForm.FlagAllIsDedup | admin/js/property_form.js:241-248 | any click sequence lists every URL once, in first-click order |
| PropertyForm.SubmitImages | admin/js/property_form.js:431-466 | refused iff no new file and no stored image; otherwise every stored thumbnail's URL is kept and every sent file is accumulated and still previewed |
| PropertyForm.ExistingUrlsSpec | admin/js/property_form.js:445-449 | the kept URLs are the stored thumbnails' URLs, in preview order |
| PropertyForm.FreshNamesSpec | admin/js/property_form.js:453-459 | the names read are the new thumbnails' file names, in preview order |
| PropertyForm.NewFileOrderNames | admin/js/property_form.js:453-459 | the files sent are named by the thumbnails whose name is accumulated, in thumbnail order |
| PropertyForm.NewFileOrderFirst | admin/js/property_form.js:455-457 | each file sent is the first accumulated file of its name |
| PropertyForm.SubmitImagesOrder | admin/js/property_form.js:443-466 | the payload exactly: stored URLs in preview order, then for each new thumbnail with an accumulated name, in preview order, the first file of that name |
| PropertyForm.NewFilesInAccumulatedOrder | admin/js/property_form.js:456-462 | when the new thumbnails show the accumulated files in order, exactly those files are sent, in that order |
| PropertyForm.TitleCase | admin/js/property_form.js:1094-1099 | empty gives `""`; same length; every character lowercased, and the first of each space-separated word uppercased |
| PropertyForm.TitleCaseKeepsWordCount | admin/js/property_form.js:1094-1099 | the number of space-separated words is preserved |
| PropertyForm.TitleCaseIdempotent | admin/js/property_form.js:1094-1099 | normalising a normalised locality changes nothing |
| PropertyForm.ValidateOwner | admin/js/property_form.js:637-639 | an empty name is rejected; a non-empty phone is rejected iff it does not have exactly ten digits; otherwise accepted |
| PropertyForm.PhoneSeparatorsIgnored | admin/js/property_form.js:638-639 | two non-empty phones with the same digits get the same verdict |
| PropertyForm.CleanAmenities | admin/js/property_form.js:387-397 | falsy or zero length restores nothing; a non-array with a positive length throws; an array gives its flattened items once each, in first-occurrence order |
| PropertyForm.EncodedListRestored | admin/js/property_form.js:391-397 | one JSON-encoded list inside the array restores that list without repeats |
| PropertyForm.PlainListRestored | admin/js/property_form.js:391-397 | a list of plain names restores the same list without repeats |
| PropertyForm.CheckedBoxes | admin/js/property_form.js:387-400 | a box ends up checked iff its value is among the restored amenities |

## Left out

- Reading endpoints outside the core: `getAllProperties`, `getPropertyById`, `getUniqueValues` and `getPublicSubtypes` are plain reads with no logic worth a contract.
- Controllers, routes, authentication, `database.js` and `server.js` are not part of this model. The row layout follows the model's reading of the columns.
- JSON request bodies: the write path reads multipart bodies only. Every field is a string, and an absent field is `undefined`.
- Query strings in which Express's parser yields an array for a single-valued key. Category and type are read as the first value. An empty `locality` array, which cannot come from a query string, matches nothing.
- A LIKE pattern ending in a lone backslash is treated as a literal backslash. PostgreSQL's handling of that case is not modelled.
- Sequence gaps: a rejected insert does not advance the id counter here, while a PostgreSQL sequence would.
- Two uploads in the same millisecond with the same sanitised name overwrite each other on disk. The clock is a parameter, and that collision is not modelled.
- Media.HandlePhysicalDeletions: an object with a `length` member given as a string is not treated as having a length.
- Media.DeleteFiles: throws on a truthy non-string item. This is weaker than "never throws", because `path.basename` validates its argument before the `try`.
- Numbers are integers. Fractional prices, surfaces and coordinates, `Infinity` and float parsing are outside the model.
- `localeCompare` (group headers) and `<` on strings are both modelled as code-unit order.
- `createdAt` is a natural number. Comparing ISO timestamps is modelled as comparing numbers.
- Dashboard.SortRows: a text column holding both text and nulls is reported as a failure rather than sorted. JavaScript's comparator there is inconsistent, so the resulting order depends on the engine.
- Setting a `<select>` to a value that none of its options has is not modelled. The form state records the requested value.
- A selected option missing from the list is treated as not disabled.
- The sliders (`initSmartSliders`), map rendering, markers and all other DOM and HTML output are left out.
- Results.Slug: Unicode NFD normalisation and the removal of combining marks are not modelled. The slug is exact for names that NFD leaves unchanged, and a null name (which throws) is out of scope.
- URL encoding and decoding of query strings is left out. Parameters are modelled as decoded key/value pairs.
- Case mapping is ASCII-only throughout (`toLowerCase`, `toUpperCase`, `ILIKE`).
- PropertyForm.CleanAmenities: `new Set` compares arrays and objects by identity, whereas the model compares them structurally. Only string items are matched against checkbox values.
- The image transcoder's resize and WebP quality, and the file contents, are reduced to a per-file success or failure.
- Concurrency between requests is left out. Each request runs alone.
- Sync.Delete: `destroy()` is assumed to succeed once the files are swept, so a database failure at that step is not modelled.
- Sync.Delete: the stored images are a list of JSON values, while the schema declares an array of strings. The TypeError path for a non-string image is reachable only for rows that PostgreSQL could not hold.
- Sync.TogglePublished, Sync.TogglePublishedRoundTrip, Sync.Update: the `updatedAt` column is not modelled. The Sequelize `Property` definition declares `timestamps: true` (backend/config/database.js:221-224), so every save that changes a column also sets `updatedAt` to the current time. The toggle's "only `isPublished` changes" and the round trip's "restores the store" hold for the modelled columns only.
- PropertyForm.CheckedBoxes: the lookup builds a CSS attribute selector from the amenity (admin/js/property_form.js:398). An amenity containing `"` makes the selector invalid, so `querySelector` throws. When two checkboxes share a value, only the first one is checked. The model checks every box whose value is listed and never fails.
- Sync.Update: a rejected write, whether from validation, a not-null column left empty or the connection, is one oracle (`storeOk`). The reason for the rejection is not modelled.

## Findings

| source | as written | input that shows it | evidently intended | confidence | as-written member | corrected member |
|---|---|---|---|---|---|---|
| admin/js/private-map.js:32-50 | `updateTypeOptions`, run by the clear button, appends ` (Sin datos)` to a type option without checking whether the text already carries it | no property of type `casa`, option text `Casa`, clear pressed twice: the option reads `Casa (Sin datos) (Sin datos)` | append the suffix only when it is absent, as the three other updaters do (lines 80, 120, 159) | not executed | PrivateMap.UpdateTypeOptionsAsWritten, PrivateMap.TypeOptionsSuffixDoubles | PrivateMap.UpdateTypeOptions, PrivateMap.UpdateTypeOptionsKeepsLabels |
| backend/services/propertyService.js:477-483 | `_transformYoutubeLink` runs the link pattern on every save, including on its own placeholder `https://www.youtube.com/embed/TU_VIDEO_POR_DEFECTO`, which the edit form sends back unchanged (admin/js/property_form.js:318-329) | a property saved without a video, opened in the form and saved again: the pattern matches `embed/` and takes eleven characters, so the column becomes `https://www.youtube.com/embed/TU_VIDEO_PO` | saving an unchanged form leaves the video column as it was; the placeholder passes through | not executed | FieldMap.TransformYoutubeLinkAsWritten, FieldMap.PlaceholderNotKept, FieldMap.ResaveLosesPlaceholder | FieldMap.TransformYoutubeLink, FieldMap.TransformYoutubeLinkIdempotent, FieldMap.PrepareDataCorrected, FieldMap.ResaveKeepsVideo |

The write path (`FieldMap.PrepareData` and the `Sync` operations) follows the code as written. `FieldMap.PrepareDataCorrected` is the same mapper with the corrected link transform.
