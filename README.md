# ComfyUI workflow model-info editor, modelled in Dafny

This project models the core of the browser-side workflow editor in
`script.js`. The editor loads a ComfyUI workflow document and finds the nodes
that load model files. It shows one card per such node with editable
`{name, url, directory}` model entries. Each name and URL gets a validity
badge. Edits are written back into the nodes' `properties.models`.

The DOM state the script keeps is modelled as ordinary values:

- Each card's entry inputs and their two badges are an `EntryRow`.
- The cards are a `seq<seq<EntryRow>>` parallel to the `nodesToEdit` contexts.
- The parsed document is a `seq<Node>`.
- The `directoryRules` object is a `map<string, string>`.

A `class Session` (editor.dfy) holds the document, the rule table, the
contexts and the cards. Its methods are the event handlers and change those
fields in place. The loops of the script are heap-free methods beside it. Each
method is proved equal to a specification function, and the source's
promises are proved about those functions as lemmas.

Files:

- `text.dfy`: the JavaScript string operations the rules are made of (`toLowerCase`, `trim`, `includes`, `endsWith`, `split(...)[0]`, `split(...).pop()`, `replace(/[-_\.]/g, "")`).
- `rules.dfy`: the directory rule table and its handlers' effects.
- `workflow.dfy`: nodes, properties, model entries and `nodes.find`.
- `validate.dfy`: `isValidModelExtension`, the name and URL badge decisions.
- `extract.dfy`: `findNodesToEdit`.
- `reconcile.dfy`: the entry list `createNodeCard` builds and `getClosestFileName`.
- `stats.dfy`: `updateStats` and `validateAllModels`.
- `writeback.dfy`: the write-back loop of `updateJsonData`.
- `bulk.dfy`: `extractUrls`, `extractFileNameFromUrl`, the name map and `findMatchingModelEntry`, and the fill of `matchAndFillModelLinks`.
- `editor.dfy`: `updateWidgetsValue`, the URL loop with its input events, and the `Session` class.

Behaviours of the script that a reader may not expect are modelled as written and stated as lemmas:

- The extractor keeps a value when `.safetensors` or `.sft` occurs anywhere in it. The validator requires the value to end with one of them.
- The name check's extension strip runs after the dots are removed, so it never matches. The word `safetensors` therefore stays in the normalised file name.
- The known-prefix strip applies only to the URL side of the bulk matcher.
- The recovery branch of `findNodesToEdit` for a listed node with no model file never fires.
- The URL badge is always checked against the name an entry was created with, not the name typed later.

## Model

| member | source | states |
|---|---|---|
| `Rules.DirectoryFor` | script.js:1233-1235 | A listed node type gets its rule's directory and an unlisted one gets ""; a non-empty result is always the table's entry for that type |
| `Rules.Renamed` | script.js:168-177 | A new, non-empty, different type replaces the old key and takes over its directory; any other input leaves the table unchanged |
| `Rules.RenameKeepsOthers` | script.js:172-175 | A rename adds or removes no other rule and changes no other directory |
| `Rules.RenameRoundTrip` | script.js:168-177 | Renaming a listed type to an unused one and back restores the table |
| `Rules.BlankRuleListsNothing` | script.js:203-208 | The blank rule added by "Add rule" makes no node type count as listed |
| `Workflow.FindById` | script.js:1270 | The result is the position of the first node with the id, or none when no node has it |
| `Validate.IsValidModelExtension` | script.js:1560-1574 | Empty path: false. Listed type: true whatever the extension. Otherwise true iff the lower-cased path ends in `.safetensors` or `.sft` |
| `Validate.SuffixIsMention` | script.js:389-392 | Every path the validator accepts by extension also passes the extractor's substring test |
| `Validate.MentionIsNotSuffix` | script.js:389-392 | The converse fails: `a.sft.bak` passes the substring test, fails the suffix test and is rejected |
| `Validate.ExtensionRuleExamples` | script.js:1560-1574 | On the built-in table, a `.ckpt` file is rejected without a node type and accepted for `CheckpointLoaderSimple` |
| `Validate.StripModelExtension` | script.js:1077 | The result is a prefix of the input; input with no dot, or with no model extension, is returned unchanged |
| `Validate.NameValid` | script.js:1056-1098 | An empty name, or a reference file without a model extension, is invalid. Otherwise valid iff the normalised name and the normalised basename are equal or one contains the other; the basename keeps its extension word |
| `Validate.NormalizedSafetensorsFile` | script.js:1072-1077 | The normalised basename of `stem.safetensors` is the normalised stem followed by `safetensors` |
| `Validate.ExtensionWordMatchesAnyFile` | script.js:1072-1083 | Because the extension word survives normalisation, the name `safetensors` is valid for every `.safetensors` file |
| `Validate.SeparatorInsensitiveName` | script.js:1073-1083 | A name that differs from its file only in `-`/`_` separators and the extension is valid |
| `Validate.UrlValid` | script.js:1101-1129 | A blank URL is invalid; otherwise valid iff the text after the last `/` of the part before the first `?` equals the name |
| `Validate.UrlValidRoundTrip` | script.js:1111-1121 | A URL `base/name?query` is valid for `name` |
| `Validate.UrlValidShape` | script.js:1111-1121 | For a valid URL, the part before `?` ends in the name, and the name holds no `/` or `?` |
| `Validate.UrlValidOnlyExactName` | script.js:1111-1121 | A URL `base/name` is valid for a name exactly when that name is `name`; any other name, including one differing only in letter case, is invalid |
| `Text.TrimEmptyIffBlank` | script.js:1103 | `trim()` gives "" exactly for strings made of white space |
| `Text.Utf16Length` | script.js:1905 | `.length` counts UTF-16 code units: at least one and at most two per character, and exactly one per character when none lies above U+FFFF |
| `Text.AstralPairLength` | script.js:1905 | Two characters above U+FFFF already have length 4, so such a base name passes the `> 3` test |
| `Extract.CandidatesInOrder` | script.js:383-409 | A node's model files are a subsequence of its string widget values, in their original order |
| `Extract.CandidatesSound` | script.js:383-409 | Every model file is a string widget value of the node that passes the candidate test |
| `Extract.CandidatesComplete` | script.js:383-409 | Every string widget value that passes the test is a model file |
| `Extract.DottedNotStopword` | script.js:393-397 | The anchored stoplist never rejects a value that contains a dot |
| `Extract.DottedIsCandidate` | script.js:393-408 | For a listed type, every non-blank dotted string is a model file |
| `Extract.FallbackNeverFires` | script.js:425-447 | The recovery branch for a listed node with no model file picks nothing |
| `Extract.ContextFacts` | script.js:366-447 | A kept node has an array of widget values and a truthy search name. Its model files are a non-empty, in-order selection of its string values. Its file name is the first file's basename |
| `Extract.ExtractShape` | script.js:363-452 | Every context belongs to the node it names; contexts follow document order; no qualifying node is skipped |
| `Extract.ExtractSnoc` | script.js:366-449 | One more node extends the result by that node's context, if it has one |
| `Extract.ModelFiles` | script.js:383-409 | The widget scan returns exactly the node's model files |
| `Extract.NodeContext` | script.js:366-449 | The scan body returns exactly the decision for that node |
| `Extract.FindNodesToEdit` | script.js:363-452 | The scan returns exactly the specified contexts |
| `Reconcile.NewRow` | script.js:817-877 | A new entry shows the model's fields, remembers its reference file and bound name, and both badges show the current decision |
| `Reconcile.BlankRow` | script.js:681-690 | The row "Add Model" appends has empty name, URL, reference file and bound name, the node type's directory, and both badges off |
| `Reconcile.BlankRowIsNew` | script.js:681-690 | The blank row is exactly the new entry `createModelEntry` builds for an empty model with no reference file, so its badges are current |
| `Reconcile.ClosestFileName` | script.js:701-716 | "" for an empty name or list; the name when a basename equals it; otherwise the first file's basename |
| `Reconcile.ClosestIsABasename` | script.js:701-716 | The result is "" or one of the files' basenames |
| `Reconcile.MissingFilesSound` | script.js:646-649 | Every missing file is a model file's basename |
| `Reconcile.MissingFilesComplete` | script.js:646-649 | Every basename that no entry names is among the missing files |
| `Reconcile.MissingFilesInOrder` | script.js:646-649 | The missing files keep the order of the model files |
| `Reconcile.RowsKeepExisting` | script.js:633-661 | Persisted entries come first, unchanged and in order. Every later entry is fresh: named after a model file no persisted entry names, with an empty URL and the type's directory. There are exactly as many later entries as missing files; the k-th is named after the k-th missing file and checked against that basename |
| `Reconcile.MissingFilesCount` | script.js:646-649 | A basename some persisted entry names never appears among the missing files; any other basename appears there as often as among the model files |
| `Reconcile.RowsWithoutExisting` | script.js:662-673 | With no persisted entries, there is exactly one fresh entry per model file, in file order |
| `Reconcile.RowsCoverFiles` | script.js:633-673 | Every model file's basename names some entry of the card |
| `Reconcile.RowsBadgesCurrent` | script.js:633-673 | Every entry of a new card shows current badges |
| `Reconcile.SelfNamedRowValid` | script.js:637-643 | An entry named after one of the model files, with a model extension, has a valid name badge |
| `Stats.UpdateStats` | script.js:1132-1184 | The counting loop yields the specified counters |
| `Stats.TallyBalance` | script.js:1147-1175 | `total` is the number of entries and equals `valid + invalid`; `errorUrl + missingUrl <= invalid` |
| `Stats.TallyMeaning` | script.js:1163-1175 | `valid` counts entries with both badges valid. `errorUrl` counts non-blank invalid URLs. `missingUrl` counts blank URLs among the not-valid entries |
| `Stats.MissingIsBlank` | script.js:1163-1170 | With current badges, `missingUrl` is the number of entries whose URL is blank |
| `Stats.NeitherBucket` | script.js:1163-1175 | An entry with an invalid name and a valid URL is invalid but in neither URL bucket |
| `Stats.CountValidFiles` | script.js:1838-1840 | The loop counts the model files that pass the extension test |
| `Stats.CheckEachModel` | script.js:1853-1911 | The per-model loop yields the specified status |
| `Stats.CheckOneContext` | script.js:1822-1920 | One context's checks yield the specified status |
| `Stats.ValidateAllModels` | script.js:1813-1925 | The whole check yields the specified status |
| `Stats.CheckModelEffect` | script.js:1853-1911 | A model's URL counts in at most one bucket, and a blank URL is a missing link. A mismatch needs "http" in the URL without the name. Format errors grow exactly for names without a model extension. The flags stay coherent |
| `Stats.CheckModelsCoherent` | script.js:1853-1911 | The per-model checks keep the flags coherent with the counters |
| `Stats.ValidationCoherent` | script.js:1813-1925 | `hasErrors` holds exactly when a format error was counted; any counted link problem raises `hasWarnings` |
| `Stats.WarningsStay` | script.js:1853-1911 | Once `hasWarnings` is raised, the per-model checks keep it raised |
| `Stats.CountMismatchWarns` | script.js:1838-1846 | A listed node whose models array differs in length from its count of valid model files raises `hasWarnings` |
| `Stats.MissingLinksWithoutModels` | script.js:1917-1920 | A listed node without a models array adds its count of valid model files to the missing links, warns when that count is positive, and changes no other counter or flag |
| `Stats.UnlistedNotChecked` | script.js:1826-1830 | With no listed node, the status is the reset status |
| `WriteBack.CompleteIsTidy` | script.js:1253-1266 | Every persisted field is non-empty and has no white space at either end |
| `WriteBack.CompleteKeepsAll` | script.js:1253-1266 | When every entry is complete, all of them are kept, trimmed, in order |
| `WriteBack.CompleteDropsIncomplete` | script.js:1253-1266 | When no entry is complete, nothing is kept |
| `WriteBack.CompleteIsFilter` | script.js:1253-1266 | Every complete entry is kept, and the kept entries are trimmed entries in their original order |
| `WriteBack.SetModels` | script.js:1271-1283 | Only `models` changes: it is set when entries remain and removed otherwise. A node without properties gets an empty record |
| `WriteBack.TouchedExists` | script.js:1269-1270 | A node counts as written exactly when some edited node's id finds it first |
| `WriteBack.WriteUpToAt` | script.js:1245-1285 | After any prefix of the loop, with the entries per id given by any function, a node holds its id's entries exactly when a context of that prefix finds it first, and is untouched otherwise |
| `WriteBack.WriteBackAt` | script.js:1245-1285 | The same, for one node, with the entries the cards hold |
| `WriteBack.WriteBackPointwise` | script.js:1245-1285 | A node gets its id's complete entries exactly when it is the first node with the id of an edited node; every other node is unchanged |
| `WriteBack.WriteBackLastWins` | script.js:1245-1285 | Writing back twice, with edits between, gives what the second write-back alone gives |
| `WriteBack.WriteBackIdempotent` | script.js:1245-1285 | Repeating the write-back with no edit in between changes nothing |
| `WriteBack.WriteBackKeepsRest` | script.js:1270-1283 | Every node keeps its id, type, widget values, search name and other property keys. A written node with no complete entry loses `models` |
| `WriteBack.CardEntriesSingle` | script.js:1246-1249 | When a single card shows the node id, its entries are exactly the ones read |
| `WriteBack.CardEntriesNone` | script.js:1246-1249 | No card showing the id means no entries |
| `WriteBack.TrimEntry` | script.js:1254-1260 | An entry's fields, trimmed, and whether all three are non-empty |
| `WriteBack.CompleteEntries` | script.js:1253-1267 | The inner loop keeps exactly the complete entries, trimmed, in order |
| `WriteBack.CollectStep` | script.js:1246-1267 | One more card adds its complete entries to the collection exactly when it shows the node id |
| `WriteBack.CollectModels` | script.js:1246-1267 | The collection for one node id is the complete entries of every card showing it |
| `WriteBack.UpdateNodes` | script.js:1245-1285 | The loop over the edited nodes yields the specified document |
| `Bulk.UrlsFrom` | script.js:1432-1436 | Every match is `http://` or `https://` followed by at least one character, with no white space |
| `Bulk.UrlsOccur` | script.js:1432-1436 | Every extracted URL occurs in the text |
| `Bulk.SingleUrl` | script.js:1432-1436 | A lone well-formed URL is extracted whole |
| `Bulk.UrlsStopAtSpace` | script.js:1432-1436 | A match never runs past white space: scanning text followed by white space finds the URLs of the text alone first |
| `Bulk.UrlsSuffix` | script.js:1432-1436 | The scan from a position depends only on the text from there on |
| `Bulk.ExtractSplitsAtSpace` | script.js:1432-1436 | The URLs of two texts joined by a white-space character are those of the first followed by those of the second |
| `Bulk.ExtractJoined` | script.js:1432-1436 | A space-separated list of well-formed URLs is extracted exactly, whole and in order |
| `Bulk.StripLastExtension` | script.js:1519 | Only a final `.ext` with no further dot or slash is dropped, and whenever one is present it is dropped |
| `Bulk.StripExtensionOf` | script.js:1519 | `stem.ext` gives `stem` |
| `Bulk.FileNameRoundTrip` | script.js:1510-1523 | `base/stem.ext` with an optional `?` or `#` tail gives `stem` |
| `Bulk.MapSet` | script.js:1450 | `Map.set`: the key maps to the new value and no other key changes. An existing key keeps its position; a new key goes last |
| `Bulk.BuildMapLastWins` | script.js:1446-1452 | A later entry with the same lower-cased name replaces the earlier one |
| `Bulk.BuildMapFirstPosition` | script.js:1446-1452 | A key keeps the position of its first insertion |
| `Bulk.ModelMapOf` | script.js:1446-1452 | The map has unique keys and refers only to existing entries |
| `Bulk.FileCard` | script.js:1446-1452 | The scan of one card files its entries after those already in the map |
| `Bulk.BuildModelMap` | script.js:1446-1452 | The scan yields the specified map |
| `Bulk.FirstFuzzy` | script.js:1539-1554 | The first map entry, in insertion order, whose cleaned key equals, contains or is contained in the cleaned file name |
| `Bulk.FindMatch` | script.js:1526-1557 | A direct case-insensitive key hit wins. Otherwise there is a match iff some cleaned key overlaps the cleaned file name. A match is always a mapped entry |
| `Bulk.EmptyCleanMatchesFirst` | script.js:1539-1554 | A file name that cleans to "" matches the first entry unless a direct hit comes first |
| `Bulk.PrefixOnlyOnUrlSide` | script.js:1528-1540 | `lora_` is dropped from the URL side but kept, as `lora`, on the entry side |
| `Bulk.WithUrl` | script.js:1484-1485 | Only the matched entry's URL changes, and its badge is recomputed against its bound name |
| `Bulk.FillOne` | script.js:1455-1494 | A URL with no matching entry fills nothing. A matched entry is overwritten exactly when its badge is invalid or its trimmed URL differs from the pasted one (a blank URL always differs). An overwrite sets that entry's URL and re-checks its badge, and counts as a repaired error exactly when the badge was invalid. No fill leaves the entries unchanged |
| `Bulk.MatchedUrlNotEmpty` | script.js:1456-1457 | A URL that matches an entry is not empty |
| `Bulk.RefillIsNoop` | script.js:1469-1482 | Pasting a link a second time fills and counts nothing, once it is valid for the entry's bound name |
| `Bulk.FillAll` | script.js:1455-1496 | `updatedErrors <= matched <= |urls|` |
| `Bulk.FillAllOnlyUrls` | script.js:1455-1496 | Filling changes URL fields only, each to one of the pasted URLs, and keeps current badges current |
| `Bulk.BlankFillCountsAsError` | script.js:1469-1482 | With current badges, filling a blank URL counts as a repaired error link |
| `Editor.ReplaceFirst` | script.js:1628-1635 | Replaces exactly the first widget value equal to the old value; none when no value equals it |
| `Editor.ReplaceFirstRoundTrip` | script.js:1628-1635 | Putting the old value back undoes a replacement when the new value did not occur before |
| `Editor.ReplaceWidget` | script.js:1628-1638 | The loop with its early `break` replaces exactly the first equal value and reports whether it did |
| `Editor.FileTarget` | script.js:1649-1652 | The edit lands in the first context of the node, at the first position of the old value; there is no target when no context shows the node or its file list lacks the value |
| `Editor.FilesAfter` | script.js:1649-1655 | `modelFiles[index]` of the first context of the node becomes the new value. Every other context stays as it was, and nothing changes without a target |
| `Editor.RowsAfter` | script.js:1695-1712 | The entries keep their shape, and change only when the first entry is renamed |
| `Editor.RowsAfterRenames` | script.js:1695-1712 | The renamed entry is the first entry of the node's first non-empty card and takes the new basename; no other entry changes |
| `Editor.RowsAfterBadges` | script.js:1695-1712 | The rename keeps every badge current |
| `Editor.BuildCards` | script.js:480-483 | One card per context, in order, built from that context |
| `Editor.LoadedConsistent` | script.js:235-238 | A freshly loaded document and its cards are consistent: each card belongs to its node, has a main file and shows current badges |
| `Editor.WriteBackConsistent` | script.js:1245-1285 | A write-back keeps the editor consistent |
| `Editor.AddedConsistent` | script.js:681-690 | Appending an entry with current badges keeps the editor consistent |
| `Editor.AddedBlankConsistent` | script.js:681-690 | Appending the blank row of "Add Model" keeps the editor consistent |
| `Editor.EditedConsistent` | script.js:840-921 | Editing one entry into one with current badges and writing back keeps the editor consistent |
| `Editor.FilledConsistent` | script.js:1439-1507 | Filling links keeps the editor consistent, whether or not the document is written back afterwards |
| `Editor.WidgetEditConsistent` | script.js:1628-1712 | A widget edit keeps the editor consistent |
| `Editor.RedispatchName` | script.js:1678-1691 | Re-dispatching the input event of an entry whose badge is current changes no entry |
| `Editor.ReEnterCard` | script.js:1675-1692 | Re-dispatching a card's name inputs writes the document back when the card has an entry, and changes nothing otherwise |
| `Editor.FollowEdit` | script.js:1649-1713 | The file list, the entries and the written-back document follow the edit as specified |
| `Editor.EditWidgets` | script.js:1620-1714 | With no matching node or value nothing changes. Otherwise the widget value, the file list, the first entry and the document follow the edit, and the editor stays consistent |
| `Editor.FillUrl` | script.js:1455-1494 | One URL fills exactly as specified, and a repaired error implies a fill |
| `Editor.DispatchInput` | script.js:879-886 | An input event writes the document back from the current entries, whatever earlier events wrote |
| `Editor.InputAfterFill` | script.js:1478-1486 | After a fill the document is written back from the new entries; a URL that fills nothing leaves it as it was |
| `Editor.FillNext` | script.js:1455-1494 | One URL with the counters: a fill counts as a match, and a URL that fills nothing changes nothing |
| `Editor.FillStep` | script.js:1455-1494 | The loop state after `u` URLs becomes the state after `u + 1` |
| `Editor.FillLinks` | script.js:1455-1496 | The URL loop yields the specified entries and counters; when something was filled, the document is written back from the final entries |
| `Editor.Session.constructor` | script.js:226-238 | The contexts are `findNodesToEdit` of the document, each card is built from its context, and the editor is consistent |
| `Editor.Session.WriteBack` | script.js:1238-1285 | Only the document changes, to the write-back of the current entries |
| `Editor.Session.AddEntry` | script.js:681-690 | An empty entry with the node type's directory is appended to the card; the document is not written |
| `Editor.Session.RemoveEntry` | script.js:938-945 | The entry is removed and the document is written back |
| `Editor.Session.EditName` | script.js:840-847 | The name changes, its badge is recomputed against the reference file, and the document is written back |
| `Editor.Session.EditUrl` | script.js:879-886 | The URL changes, its badge is recomputed against the bound name, and the document is written back |
| `Editor.Session.EditDirectory` | script.js:916-921 | The directory changes and the document is written back |
| `Editor.Session.RenameRule` | script.js:168-177 | The rule table becomes the renamed table; nothing else changes |
| `Editor.Session.SetRuleDirectory` | script.js:183-185 | The type's directory becomes the typed value; nothing else changes |
| `Editor.Session.RemoveRule` | script.js:190-193 | The type is no longer a key; nothing else changes |
| `Editor.Session.AddRule` | script.js:203-208 | The blank key is added, no type's listing changes, and nothing else changes |
| `Editor.Session.UpdateWidgetsValue` | script.js:1620-1714 | The document, contexts and entries change exactly as `EditWidgets` specifies, and the editor stays consistent |
| `Editor.Session.EditMainPath` | script.js:528-562 | The card's current main file is replaced by the typed value in the document, file list and entries |
| `Editor.Session.MatchAndFill` | script.js:1439-1507 | The map is built from the entries before the loop; entries and counters are those of the fill; the document is written back when something was filled |
| `Editor.Session.BulkLinks` | script.js:1405-1428 | The URLs come from the trimmed text. With none, nothing changes; otherwise it is `MatchAndFill` on them |

## Left out

- DOM construction, rendering, focus, scrolling, line numbers and highlighting (`renderNodeEditor` markup, `highlight*`, `scrollToNode`, `updateLineNumbers`, `syncScroll`) are presentation. The path indicator of `updatePathWarningStatus` and the list of `updateInvalidModelsList` are presentation too.
- `findNodePositions` is an advisory line scanner used only for highlighting and is not part of this model.
- `JSON.parse` and `JSON.stringify` are foreign calls. The document is an abstract datatype: widget values other than strings are opaque tokens, and property keys other than the search name and `models` are an opaque map. A failed parse is not modelled.
- File upload, save, clipboard, `showMessage`, `setTimeout` animations and the console messages of `validateAllModels` are I/O and timers.
- `decodeURIComponent` in `validateAllModels` is a foreign call. The URL is taken as already decoded, so a URL whose decoding throws is not modelled.
- `toLowerCase` is modelled for ASCII letters only; Unicode case folding is not modelled.
- The `autoUpdateEnabled` switch is not modelled: it is set to `true` (script.js:49) and never changed, so the entry handlers always write back.
- The handlers call `updateStats`, `updateInvalidModelsList` and `validateAllModels` after each edit. The Session methods do not recompute those reports. `Stats.UpdateStats` and `Stats.ValidateAllModels` compute them from any state.
- `getModelFileName` is not called by the modelled code and is not part of this model.
- The order in which `directoryRules` lists its keys matters only for rendering and is not modelled.
- A rule renamed from a type that is no longer a key gets `undefined` as its directory. The model reads that as "", as every use of the value does.
- Node ids are modelled as integers and node types as strings. String or fractional ids, where the selectors' string match and `===` disagree (script.js:1248 against 1270, and 1673/1698 against 1624/1649), node types of other JSON types, and prototype keys of `directoryRules` such as `constructor` are not modelled. A document holding both `1` and `"1"` as ids, whose cards the script merges into one node, cannot be expressed.
- `Bulk.FillOne`: a URL whose file name is empty is skipped. The `catch` of `extractFileNameFromUrl` cannot be reached for a string and is not modelled.
- `Editor.FollowEdit`: the first entry is found among the cards as they were before the edit. The edit changes no card's node id or entries, so that is the card the script finds.
- The model follows the code as written, also where the script's intent reads differently. The name check applies an extension-strip pattern after the dots are already removed, so it never matches and `safetensors` stays in the normalised file name (script.js:1077). The widget edit handler's comment asks to force re-validation of the names (script.js:1687-1688), but each name is re-checked against the file name captured when its card was built, so the re-check changes no badge. The substring extension test of `findNodesToEdit` and the URL badge bound to the creation-time name are kept as written too.
- Malformed persisted entries are not modelled: every entry of `properties.models` is taken to have string `name`, `url` and `directory`, and `models` to be an array or absent. The script reads them untyped: an entry without a name gets a URL badge checked against `undefined` (script.js:877, 880, 957), `validateAllModels` throws on it at `model.name.toLowerCase()` (script.js:1870), and `findNodesToEdit` spreads any truthy `models` value (script.js:417-418) while `validateAllModels` needs an array (script.js:1837).
