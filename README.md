# TeiEditions enhancer, modelled in Dafny

TeiEditions is an Omeka plugin that publishes TEI (Text Encoding Initiative)
documents. This project models its enrichment engine, `TeiEditionsTeiEnhancer`.

For each of four entity categories the engine does three things:

1. It finds the mentions (`placeName`, `term`, `persName`, `orgName`) in the
   `creation` zone of the header and in the body.
2. It gives every mention that has no `@ref` a local anchor `#<docid>_<n>`.
   One counter numbers the anchors and is shared by all four categories.
3. It passes the resulting text-to-reference map to a data source, and merges
   each record the data source returns into the matching list under
   `teiHeader/fileDesc/sourceDesc`.

The project also models two file-selection helpers:

- `tei_editions_is_xml_file` decides whether a web path names an XML file.
- `tei_editions_get_tei_path` picks an item's first XML file.

## Modules

- `PhpBuiltins` (`php_builtins.dfy`): the PHP built-ins the code relies on.
  - `strpos` and `substr`, and string truthiness.
  - The decimal text of an integer.
  - `htmlspecialchars` with the default flags of PHP before 8.1
    (`ENT_COMPAT | ENT_HTML401`), which escape `&`, `<`, `>` and `"` only.
  - The decoding of predefined entities that libxml applies to the content given to
    `addChild`.
  - An insertion-ordered string-keyed array with `$a[$k] = $v` and `array_flip`.
- `TeiEditionsFunctions` (`tei_functions.dfy`): `IsXmlFile` and the loop `GetTeiPath`.
- `TeiModel` (`tei_model.dfy`): the document parts the engine reads and writes.
  - Mentions, header items and entity records.
  - The fixed table of the four categories, in the order `addRefs` handles them:
    place, term, person, org.
  - The data source, as three lookup functions.
- `ReferenceExtraction` (`references.dfy`): what `getReferences` computes.
  - `Mark` gives the mentions after anchoring, `Scan` the loop's locals, and
    `References` the returned map.
  - `ScanRegion` is the imperative loop, proved against `Mark` and `Scan`.
  - `MarkAll` runs several tags with the counter threaded through.
- `HeaderLists` (`header.dfy`): what `addEntity` does to a header list.
  - `Upsert` is the merge as the code writes it. It looks for the last item
    whose name equals the escaped name, or appends an item that stores the
    name itself, and describes that item with the record.
  - `UpsertByName` is the same merge with the search compared against the
    name an item stores (see "Findings").
  - Its three inner loops are `FindItem`, `BuildLinks` and `BuildNotes`.
- `Enhancer` (`enhancer.dfy`): the two objects the source updates in place.
  - `TeiDocument` is the document; `State()` views it as a `Doc` value.
  - `TeiEnhancer` has the methods `GetReferences`, `AddEntity`, `AddCategory`
    and `AddRefs`. Each is proved against a specification function (`Extract`,
    `AddEntityTo`, `RunPass`, `Enhance`).
  - The lemmas about whole runs state what the source promises: every mention
    ends with a `@ref`, and anchors are unique across categories. A second run
    changes no mention, and only the four category lists change. Each list
    keeps its names unique as long as no record name holds `&`, `<`, `>` or
    `"`.
  - It also works through two small documents end to end.

### Behaviour worth knowing

- **Category order:** `addRefs` handles places, terms, persons and then
  organisations (`TeiEditionsTeiEnhancer.php` lines 157-183).
- **Counting:** `addRefs` counts every record the data source returns, not
  the items it creates. A record that updates an existing item still counts
  (`Enhancer.ExistingPlaceStillCounted`).
- **Document identifier:** an `idno` that is absent, `""` or `"0"` falls
  back to the root `@xml:id`. When that is absent too, no exception is
  thrown: line 65 reads `[0]` of an empty result without `@`, so PHP emits
  a notice (PHP 7) or a warning (PHP 8), and the identifier is `""`
  (`Enhancer.DocId`).
- **Merging records:** a record is merged by item tag and name text alone.
  The last item found is rewritten with the new record; no other set of
  known entities is consulted.
- **Identifiers:** an item's existing `@xml:id` is overwritten without any
  check for a clash.
- **Counter restart:** `addRefs` sets its counter to 0 on every call
  (line 154). Anchors are unique within one run (`Enhancer.AddRefsAnchorsUnique`),
  but a mention added after an earlier run is numbered from 1 again and can
  receive an anchor that run already wrote (`Enhancer.ReusedAnchorAfterEdit`).

## Model

| member | source | states |
|---|---|---|
| Enhancer.TeiEnhancer.constructor | models/TeiEditionsTeiEnhancer.php:43-47 | the enhancer holds the given document and data source |
| Enhancer.TeiEnhancer.GetReferences | models/TeiEditionsTeiEnhancer.php:60-88 | the document, returned map and counter after the call are those of `Extract`, whose meaning the `Extract*` and `References*` lemmas give |
| Enhancer.TeiEnhancer.AddEntity | models/TeiEditionsTeiEnhancer.php:99-141 | only the header changes, and it becomes `AddEntityTo` of the old header: one list updated by `Upsert` (the search by the escaped name), all else kept |
| Enhancer.TeiEnhancer.AddCategory | models/TeiEditionsTeiEnhancer.php:157-162 | one block of addRefs: extraction, lookup, then every record merged in order; the count is the number of records |
| Enhancer.TeiEnhancer.AddRefs | models/TeiEditionsTeiEnhancer.php:151-186 | the document after the call and the returned count are those of `Enhance` (four blocks, counter from 0) |
| Enhancer.DocId | models/TeiEditionsTeiEnhancer.php:64-66 | the anchors use the idno unless PHP reads it as false (absent, "" or "0"), in which case they use the root @xml:id, or "" |
| Enhancer.Extract | models/TeiEditionsTeiEnhancer.php:60-88 | getReferences leaves the header and the document ids alone, keeps both regions' lengths, and advances the counter by the number of mentions of the tag without @ref in the creation zone and the body |
| Enhancer.RunPass | models/TeiEditionsTeiEnhancer.php:157-162 | one block of addRefs; its contract is stated by `RunPassEffect` and `RunPassMentions` |
| Enhancer.RunPassEffect | models/TeiEditionsTeiEnhancer.php:157-162 | a block keeps the document ids, hands the data source the map getReferences returned, merges exactly the records it got into the header it started from, and advances the counter by the number of its tag's mentions without @ref |
| Enhancer.RunAll | models/TeiEditionsTeiEnhancer.php:153-183 | consecutive blocks with one counter threaded through; stated by `RunAllMentions`, `RunAllHeaderFrame`, `RunAllKeepsNamesUnique` and `RunAllCons` |
| Enhancer.Enhance | models/TeiEditionsTeiEnhancer.php:151-186 | addRefs as a value; stated by `EnhanceOf`, `EnhanceMentions`, `AddRefsRefsEveryMention`, `AddRefsAnchorsUnique`, `AddRefsSecondRunAnchorsNothing`, `AddRefsHeaderFrame` and `AddRefsKeepsNamesUnique` |
| Enhancer.AnchorIsLocalRef | models/TeiEditionsTeiEnhancer.php:80 | every anchor getReferences writes is a local reference, whose identifier without "#" is `<docid>_<n>` |
| Enhancer.CategoryTagsDistinct | models/TeiEditionsTeiEnhancer.php:157-178 | the four blocks search four different tags, in the order placeName, term, persName, orgName |
| Enhancer.ExtractMarksRegions | models/TeiEditionsTeiEnhancer.php:67-85 | the creation zone and then the body are anchored as one sequence; the counter advances by exactly the number of anchored mentions; ids and header are untouched |
| Enhancer.ExtractReturnsReferences | models/TeiEditionsTeiEnhancer.php:62-88 | the returned map is `References` over the creation zone and the body, so the `References*` lemmas apply to it |
| Enhancer.RunPassMentions | models/TeiEditionsTeiEnhancer.php:157-162 | a block anchors its tag's mentions and advances the counter by their number, and leaves the document ids alone |
| Enhancer.RunAllMentions | models/TeiEditionsTeiEnhancer.php:153-183 | consecutive blocks anchor the mentions as `MarkAll` over their tags with one counter threaded through |
| Enhancer.EnhanceMentions | models/TeiEditionsTeiEnhancer.php:151-186 | addRefs anchors the mentions as `MarkAll` over the four tags, counter from 0 |
| Enhancer.AddRefsRefsEveryMention | models/TeiEditionsTeiEnhancer.php:76-81 | after addRefs every mention of the four tags has a @ref. A missing one becomes `#<docid>_<n>` with n >= 1. An existing @ref and any other tag's mention are left alone. Only @ref ever changes. |
| Enhancer.AddRefsAnchorsUnique | models/TeiEditionsTeiEnhancer.php:153-183 | two different mentions anchored by addRefs never share an anchor, even across categories |
| Enhancer.AddRefsSecondRunAnchorsNothing | models/TeiEditionsTeiEnhancer.php:76-81 | a second addRefs, with any data source, changes no mention of the creation zone or the body |
| Enhancer.RunAllHeaderFrame | models/TeiEditionsTeiEnhancer.php:157-183 | consecutive blocks keep every header list, change only the lists of their own categories and add no other list |
| Enhancer.CategoryListTags | models/TeiEditionsTeiEnhancer.php:160-181 | the four blocks write to listPlace, list, listPerson and listOrg |
| Enhancer.AddRefsHeaderFrame | models/TeiEditionsTeiEnhancer.php:151-186 | addRefs changes or adds no header list other than listPlace, list, listPerson and listOrg |
| Enhancer.OtherListKept | models/TeiEditionsTeiEnhancer.php:157-162 | a block leaves the lists of the other categories as they were |
| Enhancer.RunPassKeepsNamesUnique | models/TeiEditionsTeiEnhancer.php:157-162 | one block keeps every category list free of two items with the same name, when no record name holds `&`, `<`, `>` or `"` |
| Enhancer.RunAllKeepsNamesUnique | models/TeiEditionsTeiEnhancer.php:157-183 | consecutive blocks keep every category list free of two items with the same name, under the same condition on record names |
| Enhancer.AddRefsKeepsNamesUnique | models/TeiEditionsTeiEnhancer.php:151-186 | addRefs never creates a duplicate name in a list that had none, under the same condition on record names |
| Enhancer.EnhanceOf | models/TeiEditionsTeiEnhancer.php:151-186 | addRefs is the place, term, person and org blocks in that order; its count is the sum of their record counts |
| Enhancer.QuietPass | models/TeiEditionsTeiEnhancer.php:157-162 | a block whose tag occurs nowhere and whose lookup resolves nothing leaves document and counter unchanged |
| Enhancer.ReusedAnchorQuietBefore | models/TeiEditionsTeiEnhancer.php:157-169 | in that document the placeName and term blocks find nothing and leave the counter at 0 |
| Enhancer.ReusedAnchorPersonPass | models/TeiEditionsTeiEnhancer.php:154-169 | in a document "doc1" whose "A" already carries "#doc1_1", the persName block anchors the new mention "B" as "#doc1_1" too |
| Enhancer.ReusedAnchorAfterEdit | models/TeiEditionsTeiEnhancer.php:151-186 | addRefs restarts its counter at 0, so after that edit "A" and "B" carry the same @ref "#doc1_1" |
| Enhancer.JaneDoeScenario | models/TeiEditionsTeiEnhancer.php:151-186 | one unmarked persName "Jane Doe" in document "doc1" gets ref "#doc1_1"; listPerson gains one person item with that name and xml:id "doc1_1"; the count is 1 |
| Enhancer.ExistingPlaceStillCounted | models/TeiEditionsTeiEnhancer.php:157-162 | a body mention "Paris" without @ref in document "d" is anchored "#d_1"; the lookup resolves it, the listed "Paris" item takes xml:id "d_1" and no item is added, yet the count is 1 |
| ReferenceExtraction.VisitMention | models/TeiEditionsTeiEnhancer.php:74-83 | one iteration: the mention becomes what `Marked` gives and the locals change as `Visit` says |
| ReferenceExtraction.Visit | models/TeiEditionsTeiEnhancer.php:74-83 | one iteration on the locals keeps `$urls` free of repeated keys; with `VisitEffect` it states what each kind of mention does |
| ReferenceExtraction.Anchor | models/TeiEditionsTeiEnhancer.php:80 | the anchor `#<docid>_<n>`; `AnchorIsLocalRef` shows it is a local reference naming `<docid>_<n>`, and `AnchorInjective` that different numbers give different anchors |
| ReferenceExtraction.Marked | models/TeiEditionsTeiEnhancer.php:76-81 | a visited mention keeps its tag and text; a mention of the tag without @ref gets the anchor numbered one past the counter; any other mention is unchanged |
| ReferenceExtraction.VisitEffect | models/TeiEditionsTeiEnhancer.php:76-83 | a pending mention advances the counter by one and maps its text to the new anchor; a linked one records its (ref, text) pair; another tag's mention changes nothing |
| ReferenceExtraction.VisitNext | models/TeiEditionsTeiEnhancer.php:73-84 | one more iteration of the inner loop anchors that mention as `Marked` says and updates the locals by one `Visit` |
| ReferenceExtraction.ScanRegion | models/TeiEditionsTeiEnhancer.php:71-85 | the inner loop anchors exactly the region's mentions that `Mark` anchors and leaves the locals as `Scan` does |
| ReferenceExtraction.Mark | models/TeiEditionsTeiEnhancer.php:73-84 | anchoring neither adds nor removes a mention |
| ReferenceExtraction.Scan | models/TeiEditionsTeiEnhancer.php:73-84 | the counter advances by the number of mentions without @ref; `$urls` never holds a key twice |
| ReferenceExtraction.AnchorInjective | models/TeiEditionsTeiEnhancer.php:80 | two anchors of one document are equal only when their numbers are |
| ReferenceExtraction.CountAppend | models/TeiEditionsTeiEnhancer.php:71-85 | the counter's advance over two regions is the sum of the advances over each |
| ReferenceExtraction.MarkAppend | models/TeiEditionsTeiEnhancer.php:67-85 | anchoring the body with the counter the creation zone left behind is anchoring both as one sequence |
| ReferenceExtraction.ScanAppend | models/TeiEditionsTeiEnhancer.php:67-85 | the locals after both regions are those after scanning their concatenation |
| ReferenceExtraction.MarkAt | models/TeiEditionsTeiEnhancer.php:76-82 | the k-th mention, when pending, receives the anchor numbered one past the pending mentions before it; otherwise it is unchanged |
| ReferenceExtraction.CountPrefix | models/TeiEditionsTeiEnhancer.php:79 | the counter never goes back and passes every pending mention |
| ReferenceExtraction.AnchorRange | models/TeiEditionsTeiEnhancer.php:79-81 | anchors written by one call are numbered idx+1 to idx+Count |
| ReferenceExtraction.AnchorsDistinct | models/TeiEditionsTeiEnhancer.php:79-81 | two mentions anchored by one call receive different anchors |
| ReferenceExtraction.MarkCompletes | models/TeiEditionsTeiEnhancer.php:76-81 | after a call no mention of the tag is without @ref |
| ReferenceExtraction.MarkNothingPending | models/TeiEditionsTeiEnhancer.php:76-77 | with nothing pending, a call changes no mention |
| ReferenceExtraction.ScanNothingPending | models/TeiEditionsTeiEnhancer.php:76-83 | with nothing pending, a call adds no name and leaves the counter alone |
| ReferenceExtraction.ScanNoMention | models/TeiEditionsTeiEnhancer.php:71-85 | a region without a mention of the tag leaves all the locals as they were |
| ReferenceExtraction.SecondCallChangesNothing | models/TeiEditionsTeiEnhancer.php:76-81 | a second call on the same tag, with any document id and counter, changes no mention and finds nothing to count |
| ReferenceExtraction.ScanUrlsFromMentions | models/TeiEditionsTeiEnhancer.php:76-77 | every pair in `$urls` is the @ref and text of some mention that already had a @ref |
| ReferenceExtraction.ScanNameOrigin | models/TeiEditionsTeiEnhancer.php:78-82 | every entry of `$names` comes from a pending mention with that text and holds the anchor that mention received |
| ReferenceExtraction.ScanNamesComplete | models/TeiEditionsTeiEnhancer.php:82 | the text of every pending mention is a key of `$names` |
| ReferenceExtraction.ScanNamesLast | models/TeiEditionsTeiEnhancer.php:82 | for a repeated text `$names` keeps the anchor of its last pending occurrence |
| ReferenceExtraction.ScanUrlsLast | models/TeiEditionsTeiEnhancer.php:77 | for a repeated @ref `$urls` keeps the text of its last occurrence |
| ReferenceExtraction.Result | models/TeiEditionsTeiEnhancer.php:87 | array_merge with string keys: the keys of both maps, the flipped `$urls` winning over `$names` |
| ReferenceExtraction.References | models/TeiEditionsTeiEnhancer.php:67-87 | scanning the creation zone and then the body is scanning their concatenation, with one counter and one pair of maps |
| ReferenceExtraction.ReferencesPointAtMentions | models/TeiEditionsTeiEnhancer.php:87 | every key of the returned map is a matched mention's text, mapped to the @ref that mention carries after the call |
| ReferenceExtraction.ReferencesCoverAnchoredTexts | models/TeiEditionsTeiEnhancer.php:82-87 | the text of every mention that received an anchor is a key of the returned map |
| ReferenceExtraction.ExistingRefWins | models/TeiEditionsTeiEnhancer.php:77-87 | the text of the last mention carrying a given @ref maps to an existing @ref carried with that text, not to a fresh anchor |
| ReferenceExtraction.LastLinkWins | models/TeiEditionsTeiEnhancer.php:77-87 | for a text repeated among mentions with @ref, the later one wins: the text maps to the @ref of its last linked mention when that @ref is met there first and not again |
| ReferenceExtraction.ScanUrlsLatest | models/TeiEditionsTeiEnhancer.php:76-77 | a @ref first met at a mention keeps its place in `$urls`, and no pair after it carries the same text when no later linked mention does |
| ReferenceExtraction.PutKeepsLatest | models/TeiEditionsTeiEnhancer.php:77 | writing another key with another text keeps a pair in place and adds no pair with its text after it |
| ReferenceExtraction.LastAnchorWins | models/TeiEditionsTeiEnhancer.php:82-87 | a text no linked mention carries maps to the anchor of its last anchored occurrence |
| ReferenceExtraction.MarkAll | models/TeiEditionsTeiEnhancer.php:157-178 | a run over several tags neither adds nor removes a mention |
| ReferenceExtraction.MarkAllStep | models/TeiEditionsTeiEnhancer.php:157-164 | the rest of a run starts on the first tag's output with the counter it left |
| ReferenceExtraction.MarkOtherTag | models/TeiEditionsTeiEnhancer.php:68-69 | anchoring one tag changes no mention of another tag and keeps every tag |
| ReferenceExtraction.MarkPrefix | models/TeiEditionsTeiEnhancer.php:73-84 | anchoring a prefix gives the prefix of the anchored sequence |
| ReferenceExtraction.OffsetStep | models/TeiEditionsTeiEnhancer.php:157-178 | each tag's block starts where the previous block's counter ended |
| ReferenceExtraction.OffsetMonotone | models/TeiEditionsTeiEnhancer.php:157-178 | the counter at the start of a later block is never below that of an earlier one |
| ReferenceExtraction.OffsetMarkOther | models/TeiEditionsTeiEnhancer.php:157-178 | anchoring a tag that is not among the earlier tags does not change where a later block starts |
| ReferenceExtraction.MarkAllKeeps | models/TeiEditionsTeiEnhancer.php:157-178 | a mention that no tag of the run finds pending is left as it is |
| ReferenceExtraction.MarkAllAt | models/TeiEditionsTeiEnhancer.php:157-178 | a mention pending for the c-th tag receives the anchor numbered by that block's starting counter plus its rank |
| ReferenceExtraction.EarlierTagLowerNumber | models/TeiEditionsTeiEnhancer.php:154-178 | every anchor number given in an earlier block is below every anchor number given in a later block |
| ReferenceExtraction.MarkAllAnchorsUnique | models/TeiEditionsTeiEnhancer.php:154-178 | within one run over distinct tags no two mentions receive the same anchor |
| ReferenceExtraction.MarkAllCompletes | models/TeiEditionsTeiEnhancer.php:157-178 | after a run every mention of its tags has a @ref; fresh anchors are numbered past the start; nothing else changes |
| ReferenceExtraction.NoPendingNoCount | models/TeiEditionsTeiEnhancer.php:79 | with no pending mention the counter does not move |
| ReferenceExtraction.MarkAllNothingPending | models/TeiEditionsTeiEnhancer.php:157-178 | a run in which no tag has a pending mention changes nothing and moves no counter |
| ReferenceExtraction.MarkAllIdempotent | models/TeiEditionsTeiEnhancer.php:157-178 | repeating a run on its own output changes no mention and moves no counter |
| HeaderLists.LastMatch | models/TeiEditionsTeiEnhancer.php:106-110 | the search settles on the last matching child, or on none when no child matches |
| HeaderLists.FindItem | models/TeiEditionsTeiEnhancer.php:105-110 | the search loop, which never stops early, finds exactly `LastMatch` |
| HeaderLists.NewItem | models/TeiEditionsTeiEnhancer.php:112-113 | a new item has the item tag and one name field holding the given text, and no geo, @xml:id, links or notes |
| HeaderLists.IsLocalRef | models/TeiEditionsTeiEnhancer.php:121 | a reference is local when it starts with "#"; `Describe` splits on it and `AnchorIsLocalRef` shows every anchor is one |
| HeaderLists.AddEntityTo | models/TeiEditionsTeiEnhancer.php:99-141 | addEntity on the header as a value; stated by `AddEntityToFrame` and by the contracts of `Upsert` |
| HeaderLists.AddEntities | models/TeiEditionsTeiEnhancer.php:158-161 | a block's loop over its records; stated by `AddEntitiesFrame`, `AddEntitiesSnoc`, `AddEntitiesOne` and `AddEntitiesKeepNamesUnique` |
| HeaderLists.WriteEntity | models/TeiEditionsTeiEnhancer.php:116-140 | the found or new item ends up as `Describe` has it: coordinates "lat lon" when present, then the local @xml:id (ref without its "#") or else the links when there are any, then the escaped notes when there are any; anything the record lacks is kept |
| HeaderLists.BuildLinks | models/TeiEditionsTeiEnhancer.php:127-133 | one link per (type, url) pair, in the records' order |
| HeaderLists.BuildNotes | models/TeiEditionsTeiEnhancer.php:136-139 | one escaped paragraph per note, in order |
| HeaderLists.Upsert | models/TeiEditionsTeiEnhancer.php:104-114 | the merge as written adds at most one item and changes no existing item's tag or name; a new item has the item tag and stores the entity's own name, since addChild decodes the escaped name |
| HeaderLists.UpsertByName | models/TeiEditionsTeiEnhancer.php:104-114 | the corrected merge, searching by the entity's own name: at most one item added, existing tags and names kept, a new item named as the entity |
| HeaderLists.Describe | models/TeiEditionsTeiEnhancer.php:116-140 | writing a record never changes the item's tag or name. Coordinates present become the geo text "lat lon"; absent ones keep the old geo. A local ref ("#...") sets the @xml:id to the ref without its "#" and keeps the links. Any other ref keeps the @xml:id; its urls, when there are any, replace the links in their order (`LinksOf`), and otherwise the links are kept. Notes present replace the notes by their escaped paragraphs (`ParagraphsOf`); no notes keep the old ones. |
| HeaderLists.UpsertAddsAtMostOne | models/TeiEditionsTeiEnhancer.php:104-114 | the list keeps its length exactly when an item carries the escaped name. Otherwise it grows by one at the end. Only the last matching item can change. |
| HeaderLists.UpsertFindsItem | models/TeiEditionsTeiEnhancer.php:104-140 | when an item carries the escaped name, the last such item is described by the record and is still the last one; otherwise a new item named as the entity is appended, described by the record, and is the last item with that name |
| HeaderLists.AgreeOnPlainNames | models/TeiEditionsTeiEnhancer.php:104-113 | for a name without `&`, `<`, `>` or `"`, the merge as written equals the corrected merge |
| HeaderLists.UpsertByNameFindsItem | models/TeiEditionsTeiEnhancer.php:104-140 | with the corrected search, the last item with the name afterwards is the found or new item, described by the record |
| HeaderLists.LastMatchIs | models/TeiEditionsTeiEnhancer.php:106-110 | a matching item with no match after it is the one the search settles on |
| HeaderLists.UpsertTwiceSameLength | models/TeiEditionsTeiEnhancer.php:104-114 | with the corrected search, merging a record with the same name again adds no item |
| HeaderLists.UpsertByNameKeepsNamesUnique | models/TeiEditionsTeiEnhancer.php:104-114 | with the corrected search, a list with no two items of the same name keeps that property |
| HeaderLists.UpsertKeepsNamesUnique | models/TeiEditionsTeiEnhancer.php:104-114 | as written, a list with no two items of the same name keeps that property when the name has no `&`, `<`, `>` or `"` |
| HeaderLists.EscapedNameDuplicated | models/TeiEditionsTeiEnhancer.php:104-113 | as written, a name with `&`, `<`, `>` or `"` is never found again, so two calls leave two items with that name |
| HeaderLists.FishAndChipsDuplicated | models/TeiEditionsTeiEnhancer.php:104-113 | "Fish & Chips" merged twice gives two items as written and one once corrected |
| HeaderLists.AddEntityToFrame | models/TeiEditionsTeiEnhancer.php:101-102 | addEntity touches only its own list, reuses it when present and creates it with one item otherwise |
| HeaderLists.AddEntitiesFrame | models/TeiEditionsTeiEnhancer.php:158-161 | merging a category's records touches only that category's list, creates it when there is at least one record, and grows it by at most one item per record |
| HeaderLists.AddEntitiesOne | models/TeiEditionsTeiEnhancer.php:158-161 | merging a single record is one addEntity |
| HeaderLists.AddEntitiesSnoc | models/TeiEditionsTeiEnhancer.php:158-161 | merging one more record is one more addEntity on the header so far |
| HeaderLists.AddEntitiesKeepNamesUnique | models/TeiEditionsTeiEnhancer.php:158-161 | merging a category's records, none named with `&`, `<`, `>` or `"`, keeps its list free of duplicate names |
| PhpBuiltins.StrPos | helpers/TeiEditionsFunctions.php:27-28 | the position of the first occurrence, or none exactly when the character is absent |
| PhpBuiltins.DecimalString | models/TeiEditionsTeiEnhancer.php:80 | the counter's text is a non-empty string of digits |
| PhpBuiltins.ParseDecimalString | models/TeiEditionsTeiEnhancer.php:80 | reading the decimal text back gives the number |
| PhpBuiltins.DecimalStringInjective | models/TeiEditionsTeiEnhancer.php:80 | different counter values give different texts |
| PhpBuiltins.HtmlSpecialChars | models/TeiEditionsTeiEnhancer.php:104 | escaping never shortens. The result has no `<`, `>` or `"`. A text without those characters or `&` is unchanged. |
| PhpBuiltins.DecodeEntities | models/TeiEditionsTeiEnhancer.php:113 | the text addChild stores is never longer than the content given, and content without `&` is stored as it is |
| PhpBuiltins.DecodeEscapeChar | models/TeiEditionsTeiEnhancer.php:112-113 | decoding undoes the escape of one character |
| PhpBuiltins.DecodeEscaped | models/TeiEditionsTeiEnhancer.php:104-113 | the text addChild stores for an escaped name is the name itself |
| PhpBuiltins.HtmlSpecialCharsInjective | models/TeiEditionsTeiEnhancer.php:104 | different names have different escaped texts |
| PhpBuiltins.EscapedLonger | models/TeiEditionsTeiEnhancer.php:104 | a name with a character that needs escaping differs from its escaped text |
| PhpBuiltins.KeyIndex | models/TeiEditionsTeiEnhancer.php:77 | the position of the key in the array, or none exactly when no pair has that key |
| PhpBuiltins.Put | models/TeiEditionsTeiEnhancer.php:77 | `$urls[$ref] = $text` keeps keys unique. It stores the pair, keeps every other pair and adds nothing else. |
| PhpBuiltins.PutPlaces | models/TeiEditionsTeiEnhancer.php:77 | a new key is appended at the end; an existing key's pair is replaced in its place and every other pair stays where it was |
| PhpBuiltins.Flip | models/TeiEditionsTeiEnhancer.php:87 | every value of `$urls` becomes a key, mapped to a key it had; a value not repeated later maps to its own key, so the later pair wins |
| PhpBuiltins.SubstrTail | helpers/TeiEditionsFunctions.php:34 | `substr($s, -n)` is the suffix of s of length n, or all of s when s is shorter |
| TeiEditionsFunctions.StripQuery | helpers/TeiEditionsFunctions.php:27-29 | the path cut at its first `?`, except that a `?` in front is not a cut because strpos then returns 0 |
| TeiEditionsFunctions.IsXmlFile | helpers/TeiEditionsFunctions.php:22-35 | true exactly when the path without its query string ends in ".xml" |
| TeiEditionsFunctions.QueryStringIgnored | helpers/TeiEditionsFunctions.php:27-29 | appending a query string to a plain path does not change the verdict |
| TeiEditionsFunctions.LeadingQuestionMarkKept | helpers/TeiEditionsFunctions.php:27-29 | a path starting with `?` has its suffix checked whole |
| TeiEditionsFunctions.PlainPathSuffix | helpers/TeiEditionsFunctions.php:31-34 | without `?`, the verdict is whether the last four characters are ".xml" |
| TeiEditionsFunctions.CaseSensitiveSuffix | helpers/TeiEditionsFunctions.php:34 | "a.xml" is accepted and "a.XML" is not |
| TeiEditionsFunctions.QueryStringDropped | helpers/TeiEditionsFunctions.php:27-34 | "a.xml?v" is accepted |
| TeiEditionsFunctions.SuffixInQueryIgnored | helpers/TeiEditionsFunctions.php:27-34 | "a.txt?.xml" is rejected |
| TeiEditionsFunctions.LeadingQuestionMarkExample | helpers/TeiEditionsFunctions.php:27-29 | "?x.xml" is accepted |
| TeiEditionsFunctions.ShortPathRejected | helpers/TeiEditionsFunctions.php:34 | a path shorter than ".xml" once its query is cut is never accepted |
| TeiEditionsFunctions.GetTeiPath | helpers/TeiEditionsFunctions.php:118-127 | the first path that is an XML file, or null exactly when none is |

## Findings

| source | as written | input that shows it | evidently intended | confidence | as-written member | corrected member |
|---|---|---|---|---|---|---|
| models/TeiEditionsTeiEnhancer.php:104-113 | the search compares each item's stored name with `htmlspecialchars($entity->name)`, but `addChild` decodes the entities of the escaped name, so the item stores the plain name | a record named "Fish & Chips" merged twice into an empty list gives two items with that name | an existing item with the entity's name is found and updated, so merging the same record twice adds one item | medium (libxml decodes predefined entities in `addChild` content); not executed | HeaderLists.EscapedNameDuplicated | HeaderLists.UpsertTwiceSameLength |

The model of `addEntity` and `addRefs` follows the code as written
(`HeaderLists.Upsert`). The corrected search is `HeaderLists.UpsertByName`.
The two agree on every name without `&`, `<`, `>` or `"`
(`HeaderLists.AgreeOnPlainNames`).

## Left out

- The Omeka plugin around the core is not part of this model: controllers,
  views, jobs, file import and storage, and the settings.
- The File-object branch of `tei_editions_is_xml_file` (line 24) is not modelled.
  The model takes the path string that `getWebPath` would return.
- The `$length === 0` branch of `tei_editions_is_xml_file` is not modelled.
  It cannot be taken, because the suffix is the constant ".xml".
- `Item::getFiles` and `File::getWebPath` in `tei_editions_get_tei_path` are
  calls into Omeka. They become the input sequence of paths.
- XPath selection is not modelled. Each region becomes the sequence of
  mention elements its query selects, in document order, given as input. Two
  rules of the queries are therefore not checked:
  - `creation//t:tag` selects any descendant of the creation zone.
  - `body/*//t:tag` selects only elements below a child of `body`.
- A mention is its tag, its first text node and its `@ref`. A mention with
  no text node has the text `""`, PHP's `(string)null`.
- The full XML tree of a header item is not modelled. An item is its tag, its
  named text fields, the text of `location/geo`, its `@xml:id`, its `linkGrp`
  links and its `note` paragraphs.
- Removing the old `@xml:id`, `linkGrp` and `note` before rewriting them is not
  modelled separately. Each becomes a field that is replaced whole.
- SimpleXML's falsiness of an empty element is not modelled. A list
  container counts as present when the header holds that list tag, even if
  the list is empty.
- PHP's conversion of numeric-string array keys to integers is not modelled:
  `$urls["42"]`, `array_flip` and `array_merge` renumbering such keys.
  The model keeps every key a string.
- libxml decodes the predefined entities `&amp;`, `&quot;`, `&apos;`, `&lt;`
  and `&gt;` in `addChild` content, and these are modelled. Numeric
  character references and the warning for a bare `&` are not. With the
  pre-8.1 flags neither arises from `htmlspecialchars` output.
- PHP 8.1 and later are not modelled. There the default flags add
  `ENT_QUOTES | ENT_SUBSTITUTE | ENT_HTML401`, so `'` becomes `&#039;`, which
  `addChild` also decodes. A name such as "O'Brien" would then be duplicated
  like one with `&`, and the plain-name condition of the names-unique lemmas
  (`PhpBuiltins.PlainText`) would also have to exclude `'`.
- Floating-point coordinates are not modelled. An entity's latitude and
  longitude are carried as the strings PHP concatenates.
- The data source (`TeiEditionsDataFetcher`) is not modelled; it is network I/O. It
  becomes three pure lookup functions, so exceptions and partial failures of
  a lookup are not modelled.
- `error_log` calls are not modelled, because they only log.
- HeaderLists.Matches: PHP's `==` between two numeric strings compares them
  as numbers, so `"1e3" == "1000"` holds. The model compares the stored name
  and the escaped name as texts, so two different numeric names never match.
- HeaderLists.UpsertKeepsNamesUnique: holds only for a name without `&`, `<`,
  `>` or `"`. For other names the code appends a duplicate item
  (`HeaderLists.EscapedNameDuplicated`).
- HeaderLists.AddEntitiesKeepNamesUnique: requires every record name to be
  free of `&`, `<`, `>` and `"`, for the same reason.
- Enhancer.RunPassKeepsNamesUnique: requires the data source to return only
  such names (`Enhancer.PlainRecords`), for the same reason.
- Enhancer.RunAllKeepsNamesUnique: requires the same of the data source.
- Enhancer.AddRefsKeepsNamesUnique: requires the same of the data source.
- Enhancer.TeiEnhancer.AddEntity: `$entity->ref()[0]` on an empty reference
  reads as `""` in PHP and is not `'#'`. The model takes that reading and
  does not model the notice PHP raises.
