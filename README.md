# dita-refactor-tool, modelled in Dafny

This project models the core of dita-refactor-tool. The tool keeps the links
between interlinked DITA XML files consistent. It has three routines:

- `move` moves a document and rewrites the references to it and from it.
- `check-references` audits every `@href` link and offers fixes.
- `prune` sorts every document into one of four reporting buckets by who
  references it.

All three go through one document cache (`FileCache`). They resolve and
create references with two XPath extension functions. Where a map is
involved, they read the sitemap: the maps reachable from a root map, their
items, and the item hierarchy.

Documents are abstracted to a tree of elements (name, attributes, children)
and text (module `Xml`). A node is addressed by its child-index path. An
XQuery Update pending update list becomes a sequence of edits on that tree.
Parsing, serialising and fetching are functions given to the cache.

| module | file | models |
|---|---|---|
| `Results` | results.dfy | `Option` and `Result` |
| `Strings` | strings.dfy | `String.prototype.split` on one character, and its inverse |
| `PosixPath` | posix_path.dfy | Node's `path.posix` `normalize`, `join`, `dirname`, `resolve` and `relative` |
| `XPath` | xpath.dfy | src/util/xpath.ts: `isExternalReference`, `resolve-relative-reference`, `create-relative-reference` |
| `FileCacheRefs` | file_cache_refs.dfy | src/FILE_CACHE.ts: the second registration of the same two functions |
| `Xml` | xml.dfy | the document tree, `string(.)`, document order, and applying edits |
| `DomCaching` | dom_caching.dfy | src/util/dom-caching.ts: class `FileCache` over a `Storage` provider |
| `Sitemap` | sitemap.dfy | src/util/sitemap.ts: map discovery, items, item trees, the compressed tree and its decoder, class `Sitemap` |
| `CheckReferences` | check_references.dfy | src/routines/check-references.ts |
| `Move` | move.dfy | src/routines/move.ts |
| `Prune` | prune.dfy | src/routines/prune.ts |

Stateful code is modelled with classes and methods:

- The cache is a class whose methods update its two maps in place.
- `Sitemap` is a class with memo fields.
- The update handle is a class with a one-shot `executed` flag.
- The loops of the routines are methods with loop invariants.

Each such method is proved against a function of the documents the cache
serves. The cache's `Serves(docs)` says what every key loads to. The
function is the routine's result or the new stored files. The properties
the tool relies on are then proved about those functions.

## Model

| member | source | states |
|---|---|---|
| `XPath.ExternalUnchanged` | src/util/xpath.ts:4-41 | Both functions return a target that starts with `http://`, `https://` or `//` unchanged. |
| `XPath.SameDocumentReferences` | src/util/xpath.ts:19-24 | Resolving `#id` gives the referrer followed by `#id`, and resolving `.` gives the referrer itself. |
| `XPath.ResolveJoinsDirectory` | src/util/xpath.ts:26-27 | For a document key and a path, which is a key that may carry a fragment such as `c.xml#topic/elem`, resolving joins the referrer's directory segments with the target's segments. |
| `XPath.CreateOfKeys` | src/util/xpath.ts:43-45 | For a key and a path, the created reference has one `..` per directory segment the target does not share, then the rest of the target. It is empty when the target is that directory, and it does not depend on the working directory. |
| `XPath.RelativeOfSegments` | src/util/xpath.ts:43 | Take two paths that resolve to a shared base followed by their own segments. `path.posix.relative` of them is empty when the segments agree, and otherwise climbs out of the first and into the second. |
| `XPath.CreateSibling` | src/util/xpath.ts:43-45 | A target in the referrer's own directory is referenced by its last segment. |
| `XPath.ResolveCreateRoundTrip` | src/util/xpath.ts:15-46 | For a document key R and a path T, a key or a key with a fragment, `resolve(R, create(R, T)) == T`. |
| `XPath.CreateHasNoFragment` | src/util/xpath.ts:43-45 | A reference created to a key holds no `#`. |
| `PosixPath.NormalizeKey` | src/util/xpath.ts:26 | Normalising a document key, or a key with a fragment, leaves it unchanged. |
| `PosixPath.KeyFragmentPath` | src/util/xpath.ts:26-27 | `k#g` for a key `k` is a path exactly when every segment of `g` after its first is plain and does not start with `#`. |
| `PosixPath.DirnameOfKey` | src/util/xpath.ts:26 | `dirname` of a key is `.` for a top-level key, and otherwise the key without its last segment. |
| `PosixPath.FoldPlain` | src/util/xpath.ts:26 | Normalisation passes plain segments through unchanged. |
| `PosixPath.FoldUps` | src/util/xpath.ts:43 | `k` `..` segments after plain segments remove the last `k` of them. |
| `PosixPath.CommonPrefix` | src/util/xpath.ts:43 | Gives the length of the longest shared leading run of segments. |
| `FileCacheRefs.SameAsXPath` | src/FILE_CACHE.ts:13-51 | Both functions of src/FILE_CACHE.ts equal those of src/util/xpath.ts on every input. |
| `FileCacheRefs.RoundTrip` | src/FILE_CACHE.ts:13-51 | `resolve(R, create(R, T)) == T` holds for this registration too, for a key R and a path T. |
| `FileCacheRefs.FragmentForm` | src/FILE_CACHE.ts:21-23 | `#x` resolves to `R#x`, the form the auditor splits on `#`. |
| `DomCaching.Storage.Fetch` | src/util/dom-caching.ts:6-7 | A read gives the stored text, or fails when the file is absent. Every read is counted. |
| `DomCaching.Storage.Push` | src/util/dom-caching.ts:8 | A push stores the contents under the key and is recorded in order. |
| `DomCaching.Storage.Exists` | src/util/dom-caching.ts:9 | Holds exactly when the file is stored. |
| `DomCaching.Storage.Move` | src/util/dom-caching.ts:10 | Moves a file without overwriting. It fails, changing nothing, when the source is missing or the destination exists. |
| `DomCaching.FileCache.constructor` | src/util/dom-caching.ts:22-24 | Starts with both maps empty. |
| `DomCaching.FileCache.ListedAmong` | src/util/dom-caching.ts:30-34 | Keeps exactly the given keys that are known or discovered, without repeats. The result is a subsequence of the given keys, so their order is kept. |
| `DomCaching.FileCache.Keys` | src/util/dom-caching.ts:30-34 | Lists exactly the text-map keys that are known (truthy text or a cached tree) or discovered (`false`), each once. |
| `DomCaching.FileCache.SetText` | src/util/dom-caching.ts:74-76 | The text entry is set, and a new key goes to the end of the insertion order. |
| `DomCaching.FileCache.InjectString` | src/util/dom-caching.ts:74-76 | A string or `null` (`Stale`) is stored under the key, and a new key is appended to the order. |
| `DomCaching.FileCache.GetString` | src/util/dom-caching.ts:36-52 | Succeeds exactly when there is a truthy text, a cached tree that serialises to a non-empty string, or a stored file at `resolve(k)`. The result is stored as the key's text. Storage is read exactly when neither cached form is usable. Truthy text leaves the cache unchanged. |
| `DomCaching.FileCache.GetDocument` | src/util/dom-caching.ts:54-69 | A cached tree is returned with nothing changed and no read. Otherwise the text is parsed, the new tree is cached and the text entry becomes `null`. The result is what `LoadOf(k)` said before the call, and every key's `LoadOf` is unchanged. No listed key is unlisted. On success `k` is listed exactly when it has a text entry. |
| `DomCaching.FileCache.LoadDocument` | src/util/dom-caching.ts:60-68 | The uncached branch: the text of `getString` is parsed and the tree cached. It fails on unreadable or malformed text, and reads storage at most once. |
| `DomCaching.FileCache.CacheParsed` | src/util/dom-caching.ts:62-66 | On a successful parse the tree is cached and the text goes stale. On a failed parse nothing changes. |
| `DomCaching.FileCache.UpdateDocument` | src/util/dom-caching.ts:78-106 | Loads the document as `getDocument` does. The handle holds the cached tree, the pending list the query computes from it, and `executed` false. |
| `DomCaching.UpdateHandle.constructor` | src/util/dom-caching.ts:94-95 | A new handle has not been executed. |
| `DomCaching.UpdateHandle.Execute` | src/util/dom-caching.ts:97-104 | The first call applies the pending list to the tree and sets the text entry to `null`. A second call fails and changes nothing. Afterwards the key loads to the updated tree. |
| `DomCaching.FileCache.BustFile` | src/util/dom-caching.ts:108-111 | Both entries go. The key is no longer known or listed, and its next load comes from storage. No other key's load changes. |
| `DomCaching.FileCache.WriteFile` | src/util/dom-caching.ts:113-116 | Pushes the given tree, or the key's own document, serialised, and stores it under the key. With a tree given or cached it always succeeds. A failed load pushes nothing. |
| `DomCaching.FileCache.ExistsFile` | src/util/dom-caching.ts:118-120 | Holds exactly when storage holds the key. |
| `DomCaching.FileCache.MoveFile` | src/util/dom-caching.ts:122-129 | Storage moves first and may fail, and a failure changes no stored file. On success the stored text moves from the old key to the new one, both entries are copied to the new key, the old key is busted and the key order drops the old key and appends the new one if it was not cached. The old key is then unknown and the new one known exactly when the old one was. When both keys resolve to themselves, the new key loads what the old key loaded and the old key loads nothing. |
| `DomCaching.FileCache.RenameEntries` | src/util/dom-caching.ts:125-128 | The entries of `from` move to `to`. A missing entry is copied as `undefined` (for text) or as nothing (for the tree). The key order drops `from` and appends `to` unless `to` was already cached. |
| `DomCaching.FileCache.DiscoverFile` | src/util/dom-caching.ts:130-132 | The key is listed, but known only if it has a tree. The listed set grows by exactly this key. |
| `DomCaching.GetDocumentTwice` | src/util/dom-caching.test.ts:19-23 | Two `getDocument` calls for one key read storage at most once, and the second gives the first's document. A key with neither a cached tree nor a usable text, as in a new cache, is read exactly once when it loads. |
| `DomCaching.Without` | src/util/dom-caching.ts:109 | Removing a key from the insertion order keeps every other key and no repeats. |
| `Sitemap.Unseen` | src/util/sitemap.ts:52-56 | Keeps exactly the targets neither visited nor queued. |
| `Sitemap.WalkStep` | src/util/sitemap.ts:41-57 | One turn keeps the walk invariant and shrinks the measure, so the loop ends even on cyclic map graphs. |
| `Sitemap.WalkExtends` | src/util/sitemap.ts:41-60 | Maps already visited stay at the head of the result, and every listed map loaded. |
| `Sitemap.WalkCloses` | src/util/sitemap.ts:41-60 | When no mapref resolves to the empty key, every map a listed map references is listed. |
| `Sitemap.WalkDistinct` | src/util/sitemap.ts:52-57 | When no map references the same map twice, no map is listed twice. |
| `Sitemap.UniqueMapsStartAtRoot` | src/util/sitemap.ts:37-60 | A successful walk lists the root first, and lists only maps that loaded. |
| `Sitemap.UniqueMapsClosed` | src/util/sitemap.ts:37-60 | The maps found are closed under maprefs. |
| `Sitemap.UniqueMapsDistinct` | src/util/sitemap.ts:52-57 | No map is listed twice when no map repeats a mapref. |
| `Sitemap.WalkListsTwiceReferencedMapTwice` | src/util/sitemap.ts:52-57 | A root map with two maprefs to the same map gives `["r", "//s", "//s"]`, because the filter does not look at the batch itself. |
| `Sitemap.LoadMap` | src/util/sitemap.ts:43-46 | The map is busted first when refreshing, so exactly one read happens then and the map is the one in storage, whatever tree the cache held. Without refreshing it is the one the cache serves. It loads exactly when those documents hold it, and stays cached as read. |
| `Sitemap.VisitMap` | src/util/sitemap.ts:41-57 | One turn of the `while`: the walk from the new state equals the walk from the old state, and the measure shrinks. When refreshing, the map is read from storage. |
| `Sitemap.GetUniqueMapsInTree` | src/util/sitemap.ts:32-61 | Gives the same outcome as the walk over the documents the cache serves or, with `forceRefresh`, over the documents in storage, whatever trees the cache held. With `forceRefresh` there is one read per map listed. Every listed map is left cached as it was read. |
| `Sitemap.ChildrenNamed` | src/util/sitemap.ts:76 | Keeps exactly the children with the name. |
| `Sitemap.NavtitleOf` | src/util/sitemap.ts:76 | `string(./topicmeta/navtitle)` fails exactly when there is more than one navtitle. |
| `Sitemap.TopicrefPaths` | src/util/sitemap.ts:74 | Keeps exactly the paths of topicrefs and topicheads. |
| `Sitemap.ItemsAt` | src/util/sitemap.ts:72-86 | One item per topicref or topichead, in document order, or the first error. |
| `Sitemap.GetUniqueItemsFromMap` | src/util/sitemap.ts:64-87 | Gives the same outcome as the items of the map, as the cache serves it or, when refreshing, as storage holds it (the map is busted first). |
| `Sitemap.GatherAppend` | src/util/sitemap.ts:95-103 | The items of two runs of maps are those of the first run, then those of the second. |
| `Sitemap.GetUniqueItemsFromMaps` | src/util/sitemap.ts:90-104 | The concatenated items of the maps, in order and without de-duplication, or the first error. With `forceRefresh` they are the items of the maps in storage, one read per map. |
| `Sitemap.FindIndex` | src/util/sitemap.ts:185 | Gives the first index whose item has the id, or none. |
| `Sitemap.TreeOf` | src/util/sitemap.ts:112-133 | The recursion through the cache gives the same outcome as the item tree of the documents. |
| `Sitemap.GetItemTree` | src/util/sitemap.ts:107-134 | Gives the item tree of the root map, or an error when the root does not load. |
| `Sitemap.GetExpandedItemTree` | src/util/sitemap.ts:137-165 | Gives the same outcome as the tree built with the expanded box. |
| `Sitemap.GetCompressedItemTree` | src/util/sitemap.ts:169-192 | Gives the same outcome as the tree built with the compressed box, as written. |
| `Sitemap.ExtractLevel` | src/util/sitemap.ts:204-222 | The loop decodes a level: each index becomes its item, and an array right after it becomes its children. |
| `Sitemap.ExtractItemTree` | src/util/sitemap.ts:195-225 | A lone number is decoded as a level of one. |
| `Sitemap.DecodeAppend` | src/util/sitemap.ts:210-221 | Decoding two well-formed runs one after the other decodes each. |
| `Sitemap.CompressedFixedDecodes` | src/util/sitemap.test.ts:60-62 | With the corrected box, the compressed tree fails exactly when the expanded tree does, and decodes to the expanded tree. |
| `Sitemap.CompressedFlattensThroughMaps` | src/util/sitemap.ts:129-130 | As written, a topicref with children inside a map reached through a mapref comes out flattened. |
| `Sitemap.SitemapOf.constructor` | src/util/sitemap.ts:234-237 | Nothing is memoised yet. |
| `Sitemap.SitemapOf.GetMaps` | src/util/sitemap.ts:239-248 | Once memoised, the same list is returned with nothing read and `forceRefresh` ignored. Otherwise it gives the walk's outcome (over storage when refreshing) and memoises a success. |
| `Sitemap.SitemapOf.GetNodes` | src/util/sitemap.ts:253-262 | Once memoised, the same items are returned with nothing read. Otherwise it gives the items of the memoised or newly found maps (read from storage when refreshing), and memoises a success. Memoised maps stay. With nothing memoised, the maps found are memoised when they are found. |
| `Sitemap.SitemapOf.GetTree` | src/util/sitemap.ts:267-269 | Gives the expanded tree of the root map over the memoised items. Without memoised items it uses the items of the memoised maps, or, with nothing memoised, the items of the maps found now. Memoised items and maps stay. Otherwise the items, and the maps when none were memoised, are memoised on success. |
| `CheckReferences.FirstWithId` | src/routines/check-references.ts:88 | Gives the first path in document order whose element has the id, or none. |
| `CheckReferences.ElementById` | src/routines/check-references.ts:86-89 | `//*[@id=$id]` gives an element with that id, or none when no element has it. |
| `CheckReferences.CheckOne` | src/routines/check-references.ts:29-186 | The first problem that applies decides: the target does not load, else the identified element is missing, else the target's title differs from the link text. Each kind is suggested exactly when its problem is the first one and its flag is on. The result is none exactly when there is no problem or the first problem's flag is off. The options are exactly `[Skip, Unwrap]`, `[Skip, Whole, Unwrap]` or `[Skip, Update, Unwrap]` for the three kinds, and every edit is at the link. |
| `CheckReferences.TargetOfFragment` | src/routines/check-references.ts:37-47 | A resolved `file#ids` splits into the target document and its identifiers. |
| `CheckReferences.TargetOfWhole` | src/routines/check-references.ts:37-47 | A resolved reference without `#` names the whole document. |
| `CheckReferences.UpdateSettles` | src/routines/check-references.ts:158-168 | After "Update to match reference target", checking the link again finds nothing. |
| `CheckReferences.WholeDocumentSettles` | src/routines/check-references.ts:107-118 | After "Reference the whole document instead", the link refers to the same document without a fragment. The document's text is kept, and a new check finds at most a text mismatch. |
| `CheckReferences.UnwrapKeepsText` | src/routines/check-references.ts:70-80 | "Unwrap reference" replaces the link by its text and keeps the text of the document. |
| `CheckReferences.ReferencesAmong` | src/routines/check-references.ts:211-218 | Keeps exactly the paths of elements with `@href`, `@format="dita"` and a non-empty string value. |
| `CheckReferences.References` | src/routines/check-references.ts:211-218 | Gives the references of a document in document order. |
| `CheckReferences.Choose` | src/routines/check-references.ts:238-248 | The picked option is one of the suggestion's options, and the given answer picks by position. |
| `CheckReferences.ReviewOne` | src/routines/check-references.ts:224-268 | One `reduce` step checks the node as it was selected. A link with no direct text child throws first, because `formatClickableName` (check-references.ts:16-27, called at line 35) reads `.position` of a missing text node. The node is checked as selected even when an earlier fix cut it out of the document. A fix of such a node leaves the document as it is, yet marks it updated, so it is written. "Unwrap" of the document element, or of a node whose parent an "Update" replaced, throws. The step keeps the set of documents, changes only `k`, and writes only `k`'s current text. |
| `CheckReferences.CheckFiles` | src/routines/check-references.ts:209-270 | The loop over the keys ends with an error at the first key that does not load or whose review throws, and it keeps the set of documents. |
| `CheckReferences.CheckFilesLoaded` | src/routines/check-references.ts:209-210 | A successful run loaded every listed key. |
| `CheckReferences.ReviewAllHalts` | src/routines/check-references.ts:16-35 | A reference with no direct text child stops the review of its document. |
| `CheckReferences.CheckFilesEnds` | src/routines/check-references.ts:16-35 | A reference with no direct text child in any listed document makes the run fail. |
| `CheckReferences.ParentNotReference` | src/routines/check-references.ts:211-218 | When no reference lies inside another, the parent of a reference is not one. |
| `CheckReferences.ReviewAllCompletes` | src/routines/check-references.ts:224-268 | A document whose references do not nest, are not the document element and all have a text child is reviewed without throwing, whatever the answers. |
| `CheckReferences.CheckFilesCompletes` | src/routines/check-references.ts:209-270 | When every listed key loads and every listed document is like that, the run succeeds. With `CheckFilesLoaded` and `CheckFilesEnds`, this says when the run succeeds. |
| `CheckReferences.ReviewAllQuiet` | src/routines/check-references.ts:53 | With every fix flag off, a document's references change and write nothing. |
| `CheckReferences.CheckFilesQuiet` | src/routines/check-references.ts:209-270 | With every fix flag off, the whole run changes and writes nothing. |
| `CheckReferences.ReviewAllSaves` | src/routines/check-references.ts:222-265 | Once a document has been updated, it is written after every later suggestion. Its last write is its current text. No other document changes or is written. |
| `CheckReferences.ChangesSaved` | src/routines/check-references.ts:209-273 | Every document the run changes is among the keys, and its last write holds its final text. A document outside the keys is neither changed nor written. This holds when the run ends with an error too. |
| `CheckReferences.LoadTarget` | src/routines/check-references.ts:48-51 | `getDocument` of the target gives what the documents hold, or none when loading throws. |
| `CheckReferences.Commit` | src/routines/check-references.ts:254-260 | `updateDocument` then `execute` applies the edits to the cached tree, and reports whether the list was non-empty. |
| `CheckReferences.Save` | src/routines/check-references.ts:263-265 | `writeFile` pushes the serialised tree, and what the cache serves is unchanged. |
| `CheckReferences.ReviewReference` | src/routines/check-references.ts:224-268 | One `reduce` step on the cache, over the node as selected, equals the functional step, throw included. |
| `CheckReferences.ApplyPick` | src/routines/check-references.ts:250-265 | `wasUpdated` becomes "this pick's list was non-empty or it already was". The edits reach the cached tree only while the node is in it. The document is written whenever `wasUpdated` is set. |
| `CheckReferences.ReviewDocument` | src/routines/check-references.ts:209-268 | The references are selected once from the cached tree. The `reduce` over them equals the functional review, starting with `wasUpdated` false, and reports whether it threw. |
| `CheckReferences.CheckFile` | src/routines/check-references.ts:209-268 | One key: the run from it equals the functional run. A key that does not load, or a review that throws, stops the run. |
| `CheckReferences.Appended` | src/util/dom-caching.ts:130-132 | The insertion order after discovering files starts with the old order and holds exactly the old keys and the files. It has no repeats when the old order had none. |
| `CheckReferences.DiscoverOne` | src/routines/check-references.ts:204-206 | `discoverFile` of one file lists it, appends it to the order when it is new, and keeps what the cache serves. |
| `CheckReferences.Discover` | src/routines/check-references.ts:202-207 | `discoverFile` for each project file adds exactly those files to the listed keys, and the order becomes `Appended` of the old order and the files. |
| `CheckReferences.CheckAll` | src/routines/check-references.ts:209-270 | The `for await` over the keys equals the functional run, and storage receives its writes. |
| `CheckReferences.CheckReferences` | src/routines/check-references.ts:188-274 | The keys checked are the project files plus the keys already listed, each once. They come in `keys()` order: a subsequence of the old insertion order followed by the new project files in glob order. The outcome and the writes are those of the functional run over them, including its error when a link has no text child. |
| `Move.CheckTarget` | src/routines/move.ts:22-30 | The file to move is accepted exactly when it is non-empty and exists. |
| `Move.CheckDestination` | src/routines/move.ts:37-45 | The destination is accepted exactly when it is non-empty and does not exist. |
| `Move.Slashes` | src/routines/move.ts:49-50 | No backslash is left, and every other character stays where it was. |
| `Move.SlashesIdempotent` | src/routines/move.ts:49-50 | Replacing backslashes twice is the same as once. |
| `Move.AttributeEditsSelect` | src/routines/move.ts:67-73 | The pending list edits exactly the selected `@href`/`@conref` attributes, with the rule's value. |
| `Move.InboundPlanSelects` | src/routines/move.ts:65-74 | Exactly the attributes whose resolved value starts with the target are rewritten, to the reference to the destination plus the old second `#`-token. |
| `Move.OutboundPlanRewritesAll` | src/routines/move.ts:112-120 | Every `@href`/`@conref` of the moved document becomes `create(new, resolve(old, v))`. |
| `Move.FilesTouched` | src/routines/move.ts:87-88 | Counts at most one per document. |
| `Move.TouchedCounts` | src/routines/move.ts:87-92 | No more files than attributes are touched, and one count is zero exactly when the other is. |
| `Move.InboundTargetsDestination` | src/routines/move.ts:69-72 | A rewritten inbound reference resolves to the destination and keeps the old fragment token. |
| `Move.OutboundKeepsTargets` | src/routines/move.ts:116-119 | An outbound rewrite keeps an external reference as it is. A reference to a key, or to a key with a fragment such as `c.xml#topic/elem`, still resolves to the same place from the new key. |
| `Move.TopLevelRetargeted` | src/routines/move.ts:67-73 | Between top-level keys, a reference to the target becomes the destination's name. |
| `Move.MovedReferenceInMap` | src/routines/move.test.ts:29-39 | `map.xml`'s reference to `file1.xml` becomes `file1-moved.xml`. |
| `Move.InboundPrefixOverCaptures` | src/routines/move.ts:67 | As written, a reference to `a.xml.bak` is taken for one to `a.xml`. |
| `Move.InboundFixedRetargets` | src/routines/move.ts:67-73 | With the corrected selection, a reference is rewritten exactly when its document is the target, and the new one refers to the destination. |
| `Move.InboundFixedExact` | src/routines/move.ts:67 | The corrected selection leaves `a.xml.bak` alone and still takes `a.xml`. |
| `Move.OutboundSelfReferenceStaysBehind` | src/routines/move.ts:116-119 | As written, a reference of the moved document to itself still resolves to the old key. |
| `Move.OutboundFixedRetargets` | src/routines/move.ts:116-119 | With the corrected rewrite, a `#id` reference stays as it is. A reference to a key, or to a key with a fragment, resolves from the new key to where it pointed with the document moved. That includes `a.xml#t` read from `a.xml`, which follows the document. |
| `Move.OutboundFixedFollowsFragment` | src/routines/move.ts:116-119 | With the corrected rewrite, `a.xml`'s reference `a.xml#t` resolves to `b.xml#t` once `a.xml` has moved to `b.xml`. |
| `Move.CorrectedInboundRetargets` | src/routines/move.ts:65-74 | With the corrected rules, the inbound pass edits only references to the moved document, and each now refers to the destination. |
| `Move.Roots` | src/routines/move.ts:60-63 | Gives the document each listed file loads to. |
| `Move.PlansOf` | src/routines/move.ts:60-82 | Gives the plan of each listed file, in order. |
| `Move.Saves` | src/routines/move.ts:130-137 | Writes once per file with a non-empty plan: `filesTouched` writes. |
| `Move.SavesListed` | src/routines/move.ts:130-137 | The inbound pass writes listed files only. |
| `Move.SavesName` | src/routines/move.ts:131-135 | A file is written exactly when it is listed with a non-empty plan. |
| `Move.AfterPushesKeys` | src/routines/move.ts:127-135 | A file no write names keeps its content, and every written file is present. |
| `Move.CommitKeeps` | src/routines/move.ts:107-137 | A file that is neither listed, moved nor the destination keeps its content. |
| `Move.CommitMoves` | src/routines/move.ts:107-127 | The destination holds the rewritten moved document. The old key is present only when a later write names it. |
| `Move.OutcomeTouchesOnly` | src/routines/move.ts:57-137 | A failed routine writes nothing. A file that is neither listed, moved nor the destination is unchanged. |
| `Move.OutcomeMovesDocument` | src/routines/move.ts:107-137 | A successful move leaves the rewritten document at the destination. The old key comes back exactly when the moved document is listed with a non-empty inbound plan. |
| `Move.RelocateCases` | src/routines/move.ts:60-137 | The three ways past the answers: the file move fails; the moved document does not load after the move; or everything is written. |
| `Move.Stage` | src/routines/move.ts:60-82 | Every listed file is loaded with its handle and plan. The routine fails when one does not load. |
| `Move.StagedAll` | src/routines/move.ts:60-82 | Once all files are staged, the plans are those of the documents. |
| `Move.StageOne` | src/routines/move.ts:63-80 | One `updateDocument`: the handle holds the cached tree and the plan for that file. |
| `Move.RewriteMoved` | src/routines/move.ts:110-127 | The moved document, loaded under its new key, is rewritten and pushed. |
| `Move.CommitInbound` | src/routines/move.ts:130-137 | The pushes are exactly the inbound writes, in order. Storage ends as those writes make it. |
| `Move.CommitNext` | src/routines/move.ts:133-135 | One turn extends the record of writes by that file's write. |
| `Move.CommitOne` | src/routines/move.ts:133-135 | A non-empty plan is executed and written, and an empty one is skipped. |
| `Move.SavesUpToAll` | src/routines/move.ts:130-137 | The writes over the first `n` files are those of the first `n` files alone. |
| `Move.Publish` | src/routines/move.ts:110-137 | The writes after the move are the moved document, then the inbound pass. |
| `Move.Finish` | src/routines/move.ts:107-137 | The staged routine ends with the pushes and stored files of `Relocate`. |
| `Move.Relocation` | src/routines/move.ts:57-137 | After staging, the pushes and stored files are those of `Relocate`, and the two counts are those of the plans. |
| `Move.MoveDocument` | src/routines/move.ts:8-140 | The answers are checked, and the pushes and stored files are those of `MoveOutcome`. The counts are those of the staged plans. The confirmation answer is ignored: the outcome does not depend on it, so the move goes ahead even when it is declined. |
| `Prune.Targets` | src/routines/prune.ts:42-50 | One target per `@href`, none holding a `#`. |
| `Prune.FirstOccurrences` | src/routines/prune.ts:51 | Holds exactly the values of the list, each once. |
| `Prune.FirstOccurrencesOfDistinct` | src/routines/prune.ts:51 | A list without repeats is kept as it is. |
| `Prune.BelowTotal` | src/routines/prune.ts:52 | Two different strings are ordered one way by `sort()`'s code-unit order. |
| `Prune.BelowAsymmetric` | src/routines/prune.ts:52 | They are never ordered both ways. |
| `Prune.BelowTransitive` | src/routines/prune.ts:52 | The order is transitive. |
| `Prune.Insert` | src/routines/prune.ts:52 | Inserting into an ordered list keeps it ordered and adds exactly the one value. |
| `Prune.Sort` | src/routines/prune.ts:52 | The result is ordered and a permutation of the input. |
| `Prune.OrderedUnique` | src/routines/prune.ts:52 | Two ordered permutations of one list are equal, so the result does not depend on the sorting algorithm. |
| `Prune.OutboundTargets` | src/routines/prune.ts:42-52 | The outbound set names each referenced document once, in strictly ascending order, without fragments, and nothing else. |
| `Prune.ReferencesUpToAt` | src/routines/prune.ts:39-54 | The `i`th entry names the `i`th key and holds its outbound set. |
| `Prune.ReferrersExactly` | src/routines/prune.ts:57-59 | `x` is a referrer of `f` exactly when some entry for `x` holds `f`. |
| `Prune.ReferrersDistinct` | src/routines/prune.ts:57-59 | With each document named once, no referrer repeats. |
| `Prune.SelfReferenceCounts` | src/routines/prune.ts:57-59 | A document that references itself is its own referrer. |
| `Prune.BucketsPartition` | src/routines/prune.ts:61-85 | Exactly one of the four cases holds for every document, and `Bucket` names it. |
| `Prune.NoSitemapTwoBuckets` | src/routines/prune.ts:61-85 | Without a root map only buckets 1 and 0 occur. |
| `Prune.TopicTargets` | src/routines/prune.ts:33-35 | Holds exactly the non-empty targets of the items. |
| `Prune.Classify` | src/routines/prune.ts:56-86 | One line per key, in key order, each with that key's bucket. The topic targets change nothing. |
| `Prune.ReadSitemap` | src/routines/prune.ts:27-36 | No root map means none. Otherwise the outcome is `getMaps` then `getNodes`. |
| `Prune.LoadListed` | src/routines/prune.ts:44 | Loading a listed key gives its document and keeps the listed keys. |
| `Prune.KeysKept` | src/routines/prune.ts:56 | `getDocument` of a listed key keeps `keys()` as it was. |
| `Prune.CollectReferences` | src/routines/prune.ts:38-54 | Succeeds exactly when every listed key loads. The entries are the outbound sets of the keys, in key order, and the keys are unchanged. |
| `Prune.DiscoverAndIndex` | src/routines/prune.ts:24-36 | The project files are discovered and the sitemap read. When it could be read, every key listed before and every project file is listed. |
| `Prune.RunPrune` | src/routines/prune.ts:9-89 | Succeeds exactly when the sitemap can be read and every listed key loads. The lines are the report: each listed key with its bucket. On success the keys reported have no repeats and include every key listed before and every project file. |

## Left out

- Parsing, serialising and XPath/XQuery Update evaluation are foreign
  libraries. They are functions given to the cache, or written out on the
  tree where a routine uses them.
- File discovery (`getAllXmlFileNames`, the glob) is a list of keys given as
  input. Prompts are answers given as input. Console output and colouring
  are not modelled.
- `Promise.all` and un-awaited calls run one after another, in list order.
- Storage is a flat map from keys to texts. `resolve` of the default cache is
  the identity where the move routine needs it; `path.join(process.cwd(), …)`
  is not modelled.
- `DomCaching.FileCache.Serves`: it says how every key loads, so a finite
  `docs` exists only when `resolve` sends finitely many keys to each stored
  file. A `resolve` that normalises like `path.join` sends `a.xml`,
  `./a.xml`, `x/../a.xml` and so on to one file, and then no `docs` meets
  it. The routines' contracts therefore cover a `resolve` without such
  aliases, such as the identity.
- Paths are modelled for normalised, project-relative keys. For an absolute
  or denormalised path, `path.posix.relative`'s dependence on the working
  directory is a parameter `cwd`.
- JavaScript's default `sort()` compares UTF-16 code units. A Dafny `char` is
  taken as one code unit.
- `Sitemap.ItemTree`: termination across mapref cycles is bounded by a
  `fuel` parameter. A cycle of maprefs in the source recurses until the
  stack overflows, and the model stops with an error when the fuel runs out.
- `Move.MoveDocument`: move.ts uses the process-wide cache and `fs.move`,
  not `FileCache.moveFile`. It is modelled on a fresh cache (both maps empty)
  whose storage provides the move.
- `Move.MoveOutcome`: the prompts' `validate` (src/routines/move.ts:22-30,
  37-45) asks again until the answer passes, so the routine never fails
  there. The model takes the last answer given: an invalid one stands for
  a prompt that is repeated for ever, and the model fails with nothing
  changed.
- `DomCaching.FileCache.Keys`: keys that are array indices (`"0"`, `"12"`)
  are listed first by `Object.keys`, in ascending order. The model lists
  every key in insertion order, which is what the source does for document
  keys, since those end in a file extension.
- `Move.MoveDocument`: the `confirm` answer is a parameter that changes
  nothing, as in the source. The log line it prints is not modelled.
- `CheckReferences.CheckOne`: the `print` closures and the truncated error
  message are display only. The text `formatClickableName` builds is not
  modelled; only its throw on a link with no text child is, in
  `CheckReferences.ReviewOne`.
- `CheckReferences.ReviewOne`: src/util/dom-caching.ts:62 parses with
  slimdom-sax-parser's `sync` and no options. The model takes it that every
  text node of a parsed document carries a `position`, so a link with a
  direct text child never throws in `formatClickableName`. Text that an
  update creates is never a reference's direct text child when it is
  checked, since references are selected before any fix of that document.
- `CheckReferences.ReviewOne`: the two throws of "Unwrap" follow the XQuery
  Update Facility (error XUDY0009 for a node without a parent) and slimdom
  (no text under a document node). The error messages are not modelled,
  only that the run ends with an error and that earlier writes stay.
- `CheckReferences.CheckReferences`: an option with a `callback` never
  occurs in the source, so that branch is not modelled.
- `Sitemap.GetUniqueMapsInTree`: when an error is thrown, the model compares
  only whether the outcome is a failure (`SameOutcome`), not the message.
- `Prune.RunPrune`: the console lines are the returned list of
  `(bucket, key)` pairs.
- `DomCaching.FileCache.WriteFile`: when the document is pushed, the model
  says only that its loads stay the same if no other key resolves to it.
- The move of src/routines/move.test.ts has four arguments, and the one
  modelled (src/routines/move.ts:8) has two. That test is used only for its
  rewrite rule (`Move.MovedReferenceInMap`).

## Findings

| source | as written | input that shows it | evidently intended | confidence | as-written member | corrected member |
|---|---|---|---|---|---|---|
| src/util/sitemap.ts:129-130 | `flat.concat(...item)` spreads each child's result once more. A `[index, children]` pair that comes back through a mapref or an un-indexed level is split into its parts. | Root map `r` has a mapref to map `//s`. `//s` holds topicref `b` (id `b`), and `b` holds topicref `c` (id `c`). | The compressed tree decodes to the expanded tree, as sitemap.test.ts:60-62 expects. | not executed | `Sitemap.CompressedFlattensThroughMaps` | `Sitemap.CompressedItemTreeFixed` (`Sitemap.CompressedFixedDecodes`) |
| src/routines/move.ts:67 | `fn:starts-with(resolved, $target)` selects every reference whose resolved value starts with the target. | Moving `a.xml` to `b.xml` rewrites `map.xml`'s reference to `a.xml.bak`. | Only references whose document part equals the target are selected. | not executed | `Move.InboundPrefixOverCaptures` | `Move.InboundRuleFixed` (`Move.InboundFixedRetargets`) |
| src/routines/move.ts:116-119 | The moved document's references are re-created from `resolve($oldSelf, .)`, so a reference to itself keeps the old key. | `a.xml` holds `href="."` or `href="a.xml"` and moves to `b.xml`. The reference still resolves to `a.xml`. | A reference of the moved document to itself, with or without a fragment, follows it to the new key, and a `#id` reference stays as it is. | not executed | `Move.OutboundSelfReferenceStaysBehind` | `Move.OutboundRuleFixed` (`Move.OutboundFixedRetargets`) |

`Move.MoveDocument` takes the reference rules as a parameter. `AsWritten`
is the routine of src/routines/move.ts. `Corrected` is the same routine with
the corrected rules of the last two rows (`Move.CorrectedInboundRetargets`).
