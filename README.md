# ProSun stock metadata tool — a verified model

ProSun is a browser tool for stock photography contributors. A contributor
drops image files (JPG, PNG, WEBP) and vector files (EPS, AI) onto the page.
Files that share a base name are paired into one asset: the raster image is
the asset's primary file and the vector travels with it. Gemini writes a
title, a description, keywords and a category for each asset. The contributor
edits them on a metadata card, one asset at a time or in bulk over a
selection. At the end everything is exported as a ZIP archive holding the
files, renamed on request, and a `metadata.csv` manifest. A second screen
turns images into text-to-image prompts and exports those as a CSV.

This project models that core in Dafny and proves what it promises. One
module of the model stands for each part of the program:

- `Types` (types.dfy): the records of `types.ts`, plus `Option` and `Result`.
- `Text` (text.dfy): the string operations the program relies on:
  `toLowerCase`, `trim`, `lastIndexOf`, `substring`, `split`/`join`,
  `replace(/\s+/g, …)` and case-insensitive search and replace.
- `Csv` (csv.dfy): the quoting of manifest fields, and a reader that gets
  the records back, so the exported CSV is proved readable.
- `Pairing` (pairing.dfy): `handleFilesSelected`, which groups a batch by
  base name and merges each group into the asset list.
- `Assets` (assets.dfy): removal, selection, the pending count and
  "Generate Metadata".
- `BulkEdit` (bulk_edit.dfy): `handleBulkApply`, the keyword and title
  edits applied to every selected asset.
- `BulkModal` (bulk_modal.dfy): the bulk edit dialog, as a class.
- `Export` (export.dfy): `handleExportZip`, covering the collision-free
  naming, the paired vector name and the manifest.
- `Gemini` (gemini.dfy): the retry and fallback policy of
  `generateWithRetry`, the choice of model for metadata generation, and the
  parsing of trending keywords.
- `MetadataCard` (metadata_card.dfy): the auto-save card, as a class with
  its buffer, its last saved snapshot, its status, its pending timer and a
  log of saves.
- `PromptGenerator` (prompt_generator.dfy): the prompt screen, as a class.
- `ImageOptimizer` (image_optimizer.dfy): the resizing step of
  `optimizeImage`.

Wherever the source changes state step by step, the model does too:

- The loops of `handleFilesSelected` and `handleExportZip` are methods with
  loop invariants. Each is proved equal to a recursive definition, and the
  properties are proved about that definition.
- The collision loop of the export is a method with a loop, proved to find
  the first free name.
- `generateWithRetry`'s recursion is a loop proved equal to a recursive
  trace of attempts.
- The React components whose state changes are classes whose methods state
  their whole new state.

The world outside the program becomes parameters:

- The remote model is an oracle `respond(k, request)`, which gives the
  outcome of the k-th attempt.
- File contents are opaque handles.
- Random ids come from a counter the caller passes in.
- Timers firing are methods of their own.
- Whether an image loads, and its size, are inputs.

## Model

| member | source | states |
|---|---|---|
| Pairing.Basename | App.tsx:150 | the base name is the part of the name before its last dot; it is empty when the name has no dot |
| Pairing.ClassesDisjoint | App.tsx:151-152 | no name is both a vector (`.eps`/`.ai`) and an image (`.jpg`/`.jpeg`/`.png`/`.webp`) |
| Pairing.GroupByBasename | App.tsx:154-161 | the loop over the batch yields the base names in first-seen order and, for each, the group the recursive definition gives: the last vector and the last image with that base name |
| Pairing.GroupFile | App.tsx:155-160 | one file added to the map keeps the key order and the group invariant |
| Pairing.BatchKeysAreBasenames | App.tsx:154-161 | the keys of the map are exactly the base names of the batch, each once |
| Pairing.LastVectorIsLast | App.tsx:159 | a later vector with the same base overwrites an earlier one: the group's vector is the last one in the batch |
| Pairing.LastImageIsLast | App.tsx:160 | a later image with the same base overwrites an earlier one: the group's image is the last one in the batch |
| Pairing.FindByBase | App.tsx:168 | `findIndex`: the first asset whose primary file has that base name, or -1 when none has it |
| Pairing.Merged | App.tsx:170-191 | no contract of its own: Pairing.MergedFacts states what it does |
| Pairing.MergeGroup | App.tsx:166-215 | no contract of its own: Pairing.MergeGroupCases, Pairing.MergeGroupExtends and Pairing.MergeStep state what it does |
| Pairing.PairFiles | App.tsx:146-219 | no contract of its own: Pairing.HandleFilesSelected computes it, and Pairing.PairingExtends and Pairing.PairingKeepsIdsUnique state what it promises |
| Pairing.MergeGroupCases | App.tsx:166-215 | a matched group changes only the matched slot: it promotes an image over a non-image primary, and otherwise attaches the group's vector when the slot has none and leaves the slot as it was when it has one; an unmatched image appends an idle entry with the next id; an unmatched vector alone appends an ERROR entry "Missing Preview Image"; an empty group changes nothing |
| Pairing.MergedFacts | App.tsx:170-191 | the merge changes the vector only by attaching the group's vector to an entry without one, or by demoting the old primary in a promotion; a promotion rewrites the entry as a re-queued image asset; without a promotion the entry is itself with the group's vector attached when it had none, and unchanged otherwise |
| Pairing.MergeStep | App.tsx:167-214 | the two sequential slot writes of the source compute the merge of one group |
| Pairing.HandleFilesSelected | App.tsx:146-219 | the grouping loop and then the merge loop compute the recursive pairing of the batch into the previous list |
| Pairing.PairingExtends | App.tsx:163-219 | pairing only appends entries and rewrites existing ones in place; every entry keeps its id, metadata and base name; a replaced primary file is an image of the batch; a changed companion vector is a file of the batch or the demoted old primary; every new entry holds files of the batch only |
| Pairing.PairingKeepsIdsUnique | App.tsx:196 | when the previous ids are distinct and below the counter, all ids after pairing are distinct and below the new counter |
| Pairing.UnsupportedFilesIgnored | App.tsx:159-160 | a batch with no image and no vector leaves the list and the id counter unchanged |
| Pairing.ImageAlone | App.tsx:194-202 | a lone image with no matching asset becomes a new idle asset without vector |
| Pairing.VectorAlone | App.tsx:203-213 | a lone vector with no matching asset becomes an orphan in the ERROR state |
| Pairing.ImageThenVector | App.tsx:170-177 | an image dropped first and its vector dropped afterwards end in one idle asset holding both |
| Pairing.VectorThenImage | App.tsx:179-191 | a vector dropped first and its image afterwards also end in one idle asset with the image primary and the vector companion |
| Text.FilterCount | App.tsx:404 | `filter` keeps every copy of an element that passes and none of one that does not |
| Text.FilterLength | App.tsx:479 | `filter(...).length` is the number of positions whose element passes |
| Text.ReplaceAllCI | App.tsx:432-443 | a text in which the pattern occurs nowhere, ignoring case, is left unchanged; Text.RemoveAllIsSubsequence states that removing it leaves a subsequence |
| Assets.RemoveFile | App.tsx:243-256 | removing an id keeps every other asset in order and drops the id from the selection |
| Assets.RemoveUnique | App.tsx:249 | with distinct ids, removal deletes exactly that one position |
| Assets.RemoveAbsent | App.tsx:249 | removing an id no asset has changes nothing |
| Assets.ToggleSelect | App.tsx:368-378 | the id becomes selected exactly when it was not, and no other id changes |
| Assets.ToggleTwice | App.tsx:368-378 | toggling twice restores the selection |
| Assets.SelectAll | App.tsx:380-386 | when as many ids are selected as there are assets the selection is cleared; otherwise every asset is selected; only ids of assets are ever selected |
| Assets.AllIdsCount | App.tsx:381-384 | distinct ids make the "select all" set as large as the list, so a second click clears it |
| Assets.SelectAllTwice | App.tsx:380-386 | with distinct ids, two clicks on "select all" from a partial selection leave nothing selected |
| Assets.Pending | App.tsx:228 | the assets processed are exactly the IDLE and ERROR ones, in order |
| Assets.PendingCount | App.tsx:479 | the count shown is the number of positions of the list holding an IDLE or ERROR asset, at most the list's length |
| Assets.PendingSkipsCompleted | App.tsx:228 | a list of completed assets has nothing pending |
| Assets.PendingAllFresh | App.tsx:228 | a list of fresh assets is pending in full |
| Assets.GenerateAll | App.tsx:223-230 | without a stored or environment key the key dialog opens; otherwise the pending assets are processed, as many as the count shows |
| BulkEdit.AddKeywords | App.tsx:396-402 | the push loop computes the addition of keywords |
| BulkEdit.AddProperties | App.tsx:396-402 | adding keeps the old keywords at the front and appends, in input order, exactly the inputs whose lower-case form was not already present, each as often as it occurs among the inputs |
| BulkEdit.AddIdempotent | App.tsx:396-402 | adding the same keywords twice is adding them once |
| BulkEdit.RemoveProperties | App.tsx:403-405 | removing keeps, in order and with every copy, exactly the keywords whose lower-case form is not among the inputs', so no kept keyword equals an input up to case |
| BulkEdit.RemoveUndoesAdd | App.tsx:396-405 | removing what was added gives the same list as removing from the original |
| BulkEdit.KeywordEdit | App.tsx:392-410 | ADD keeps the old keywords in front and adds exactly the inputs new up to case; REMOVE keeps, in order, exactly the keywords equal to no input up to case; REPLACE_ALL gives the inputs; CLEAR_ALL gives nothing; any other action keeps the list |
| BulkEdit.RawTitleEdit | App.tsx:419-447 | REPLACE_ALL gives the text; APPEND and PREPEND give a trimmed title; REMOVE and REPLACE_TEXT with a non-empty search give a clean title (no boundary, doubled or non-blank white space) and with an empty search the title itself; other actions keep the title |
| BulkEdit.TitleEdit | App.tsx:419-455 | the new title is the edited title cut to 150 characters: a prefix of it, all of it when it fits, and exactly 150 characters of it when it is longer |
| BulkEdit.AppendJoins | App.tsx:424-425 | appending text to a trimmed title joins them with one space |
| BulkEdit.PrependJoins | App.tsx:426-427 | prepending text joins them with one space |
| BulkEdit.RemoveCleans | App.tsx:428-437 | removing text leaves a title without doubled or boundary white space |
| BulkEdit.EmptySearchKeepsTitle | App.tsx:431 | removing or finding an empty text leaves the title alone, apart from the length cut |
| BulkEdit.ReplaceAbsentKeepsTitle | App.tsx:438-446 | replacing a text that does not occur leaves a clean title alone |
| BulkEdit.NormalizeClean | App.tsx:436 | white-space clean-up leaves a title that is already clean unchanged |
| BulkEdit.ApplyBulk | App.tsx:388-460 | only selected assets with metadata change, each in the targeted field alone, which becomes the keyword edit or the title edit of its old value; ids and order are kept; titles stay within 150 characters |
| BulkEdit.ApplyAddTwice | App.tsx:396-402 | a bulk add applied twice equals applying it once |
| BulkModal.ParseKeywords | components/BulkKeywordModal.tsx:45 | every parsed keyword is non-empty, trimmed and free of commas |
| BulkModal.ParseKeywordsJoin | components/BulkKeywordModal.tsx:45 | typing well-formed keywords separated by commas gives back exactly that list |
| BulkModal.ParseExample | components/BulkKeywordModal.tsx:45 | `" a , ,b "` lists `a` and `b` |
| BulkModal.Submission | components/BulkKeywordModal.tsx:35-63 | clearing sends an empty list; adding or removing with no keyword sends nothing; replacing sends even an empty list; find and replace go as typed; other title text goes trimmed |
| BulkModal.SubmittedKeywords | components/BulkKeywordModal.tsx:45-47 | every keyword a submission sends is well formed |
| BulkModal.Modal.constructor | components/BulkKeywordModal.tsx:15-21 | the dialog opens on keywords, on "add", with empty inputs |
| BulkModal.Modal.FieldChange | components/BulkKeywordModal.tsx:25-33 | changing the field clears the inputs and picks "add" for keywords and "replace all" for titles |
| BulkModal.Modal.SelectAction | components/BulkKeywordModal.tsx:113-192 | an action button of the current field becomes the action, and nothing else changes |
| BulkModal.Modal.Submit | components/BulkKeywordModal.tsx:35-63 | the call made is the submission's; the inputs are cleared and the dialog closed only when a call was made |
| Export.CompletedFiles | App.tsx:275 | the assets exported are exactly the completed ones with metadata, in list order, each copy of them kept |
| Export.Extension | App.tsx:290 | the extension is never empty and never holds a dot; Export.ExtensionOf and Export.ExtensionNoDot state which text it is |
| Export.ExtensionOf | App.tsx:290 | `split('.').pop()`, else the fallback: the text after the last dot, or the fallback when that text is empty |
| Export.ExtensionNoDot | App.tsx:290 | a name without a dot is its own extension, since `pop()` returns the whole name |
| Text.SplitLast | App.tsx:290 | the last part of a split is the text after the last separator, the whole string when it has none |
| Export.SafeTitle | App.tsx:297-302 | the renamed base is the title with unsafe characters dropped, trimmed and with white-space runs turned into `_`, cut to 100 characters, or `image` when that leaves nothing; it holds 1 to 100 letters, digits, `-` or `_` |
| Export.SafeTitleFixed | App.tsx:297-302 | a title of one to a hundred letters, digits and hyphens is its own renamed base |
| Export.RenamedBaseSafe | App.tsx:295-316 | in rename mode every attempted base, suffix included, is a safe file name |
| Export.FirstFree | App.tsx:309-316 | the collision search stops at the first counter whose image name is unused |
| Export.FreeBase | App.tsx:309-316 | the while loop finds the first free base, and its image name is unused |
| Export.ExportAsset | App.tsx:288-340 | one asset gets an unused image name; its vector gets the same base with the vector's extension; its row is image name, title, description, keywords joined by ", ", category |
| Export.ExportStep | App.tsx:288-340 | one loop turn records the image name, writes the entries and adds the row |
| Export.HandleExportZip | App.tsx:274-344 | the export loop builds the archive the recursive definition gives, and nothing when no asset is exportable |
| Export.ExportAll | App.tsx:288-341 | one exported asset per completed asset; Export.ImageNamesDistinct, Export.SharedBase and Export.ManifestRows state the rest |
| Export.ExportZip | App.tsx:275-277 | there is an archive exactly when some asset is completed with metadata |
| Export.ImageNamesDistinct | App.tsx:312-319 | no two image entries of an export share a name |
| Export.SharedBase | App.tsx:318-328 | each asset's image and vector share the base the collision search chose |
| Export.ManifestRoundTrip | App.tsx:286-344 | reading `metadata.csv` back gives the header and one row per exported asset, in order |
| Export.ManifestRows | App.tsx:331-340 | row i names the image entry and carries the asset's title, description, joined keywords and category |
| Export.ExportSingle | App.tsx:309-319 | the first asset keeps its candidate base unchanged |
| Export.VectorNamesCollide | App.tsx:312-328 | two assets with one base, different image extensions and the same vector extension write two vector entries with the same name |
| Export.ExportAssetPaired | App.tsx:309-328 | with vector names reserved too, an asset's image and vector names are both unused |
| Export.PairedNamesDistinct | App.tsx:309-328 | in the paired export no two entries share a name, as long as each asset's vector extension differs from its image's |
| Export.ExportZipPaired | App.tsx:274-344 | the paired archive exists exactly when some asset is exportable; its entry names are distinct whenever every exported asset's vector extension differs from its image extension |
| Csv.DocumentRoundTrip | App.tsx:332-344 | a document of quoted rows under a plain header parses back to the header and the rows |
| Csv.QuoteRoundTrip | App.tsx:332 | a field quoted with doubled inner quotes reads back as the field |
| Csv.QuotedLinesRoundTrip | App.tsx:344 | quoted lines joined by newlines read back as the rows |
| Csv.Quote | App.tsx:332 | the quoted field starts and ends with a double quote and is at least two characters longer than the field; Csv.QuoteRoundTrip is its inverse |
| Csv.Document | App.tsx:344 | no contract of its own; Csv.DocumentRoundTrip states that it reads back as its header and rows |
| Gemini.Decide | services/geminiService.ts:44-86 | only a retry that still has retries left is retried |
| Gemini.DecideCases | services/geminiService.ts:44-86 | an invalid key is fatal first; a quota or server error is retried while retries last, by falling back on quota in pro mode and by backing off otherwise; on exhaustion a quota error becomes the quota error and others are rethrown |
| Gemini.Run | services/geminiService.ts:32-88 | a call makes at most retries + 1 attempts, one retry step between each two, starting with the given request |
| Gemini.GenerateWithRetry | services/geminiService.ts:32-88 | the loop produces exactly the trace of the recursive policy |
| Gemini.IsInvalidKey | services/geminiService.ts:45 | no contract of its own (a predicate on the message); Gemini.DecideCases states its effect |
| Gemini.IsQuota | services/geminiService.ts:50 | no contract of its own (a predicate on the status and message); Gemini.DecideCases states its effect |
| Gemini.IsServer | services/geminiService.ts:51 | no contract of its own (a predicate on the status); Gemini.DecideCases states its effect |
| Gemini.Fallback | services/geminiService.ts:59-67 | the fallback request asks the flash model without thinking and keeps the contents, the JSON flag and the search switch |
| Gemini.BackoffDelay | services/geminiService.ts:74 | no contract of its own; Gemini.BackoffSchedule states its values |
| Gemini.BackoffSchedule | services/geminiService.ts:74 | the delay waited before a retry is 1, 2, 4 or 8 seconds with 4, 3, 2 or 1 retries left; the formula's 16 seconds for 0 retries left is never waited, since nothing is retried then |
| Gemini.OnlyRetriableRetried | services/geminiService.ts:45-53 | every attempt but the last failed with a quota or server error that was not an invalid key |
| Gemini.ResultOfLastAttempt | services/geminiService.ts:44-86 | the call's result is decided by the last attempt alone |
| Gemini.RetriesExhausted | services/geminiService.ts:53 | a retriable error ends a call only after every retry was used |
| Gemini.FallbackAtMostOnce | services/geminiService.ts:56-71 | a call falls back at most once, and never outside pro mode |
| Gemini.StepsLinkAttempts | services/geminiService.ts:56-77 | after a fallback the flash request without thinking is sent; after a backoff the same request, after 2^(4 - retries) seconds |
| Gemini.DefaultPolicy | services/geminiService.ts:32-77 | with the default three retries, a call makes at most four attempts and backs off 2, 4, then 8 seconds |
| Gemini.NoFallbackSameRequest | services/geminiService.ts:56 | outside pro mode every attempt repeats the first request |
| Gemini.MetadataRequest | services/geminiService.ts:105-141 | QUALITY asks the pro model with a 2048-token thinking budget, FAST the lite model without; both request JSON |
| Gemini.GenerateImageMetadata | services/geminiService.ts:90-147 | without a key nothing is sent; otherwise the requests are those of the retry policy starting with the mode's request, at most four, and the result is what the last attempt reports: its error, "no response text" for an empty text, or the text |
| Gemini.EmptyTextFails | services/geminiService.ts:145-147 | an empty response text is the "no response text" error |
| Gemini.ModelsUsed | services/geminiService.ts:105-106 | FAST only ever asks the lite model; QUALITY asks the pro model until it falls back to flash |
| Gemini.TrendQueryFirstFive | services/geminiService.ts:168 | only the first five keywords enter the trend query |
| Gemini.StripNumbering | services/geminiService.ts:183 | no contract of its own; Gemini.StripNumberingPrefix states what it cuts off |
| Gemini.StripNumberingPrefix | services/geminiService.ts:183 | a leading run of digits and hyphens, the dot after it and the white space after that are cut off the line |
| Gemini.KeptTrends | services/geminiService.ts:182-184 | a line is kept exactly when it is the cleaned form of an answer line and is non-empty and begins with neither "Source" nor "http"; every copy of such a line is kept, none of the others, in answer order; each kept line is trimmed |
| Gemini.ParseTrends | services/geminiService.ts:181-186 | the first ten kept lines, or all of them when there are fewer: each trimmed, non-empty and not a citation, in answer order |
| Gemini.NumberedListRoundTrip | services/geminiService.ts:181-186 | an answer written as a numbered list `1. x` … gives back its first ten items |
| Gemini.EmptyAnswer | services/geminiService.ts:181 | an empty answer gives no trends |
| Gemini.GetTrendingKeywords | services/geminiService.ts:158-192 | no key or a failed call give the empty list; a successful answer gives its parsed trends: at most ten clean lines |
| MetadataCard.ApplyEdit | components/MetadataCard.tsx:99 | an edit sets exactly its field |
| MetadataCard.EditChangesOneField | components/MetadataCard.tsx:99 | the three other fields keep their values |
| MetadataCard.Merge | components/MetadataCard.tsx:52-70 | a field takes the incoming value exactly when it differs from the last saved one |
| MetadataCard.MergeWithoutLocalEdits | components/MetadataCard.tsx:58-70 | without unsaved edits the merge is the incoming data |
| MetadataCard.MergeUnchanged | components/MetadataCard.tsx:58-70 | an update equal to the last save keeps the local buffer |
| MetadataCard.MergeKeepsLocalEdit | components/MetadataCard.tsx:58-70 | a local edit of a field the update left alone survives it |
| MetadataCard.MergeIdempotent | components/MetadataCard.tsx:58-70 | merging an update twice is merging it once |
| MetadataCard.RemoveAt | components/MetadataCard.tsx:156 | the keyword at the index is removed, and an index out of range removes nothing |
| MetadataCard.Dedup | components/MetadataCard.tsx:163 | the same keywords, each once |
| MetadataCard.DedupKeepsOrder | components/MetadataCard.tsx:162-163 | each keyword keeps its first occurrence: the result is a subsequence of the list, and its keywords appear in the order of their first occurrences |
| MetadataCard.HasDuplicatesIffDedupShorter | components/MetadataCard.tsx:164 | deduplication shortens the list exactly when the duplicate warning shows |
| MetadataCard.DedupIdempotent | components/MetadataCard.tsx:163 | deduplicating twice is deduplicating once |
| MetadataCard.Card.constructor | components/MetadataCard.tsx:31-34 | buffer and snapshot start as the item's metadata; nothing is pending or saved |
| MetadataCard.Card.ExternalUpdate | components/MetadataCard.tsx:37-74 | an absent update is ignored; a first update is adopted; a differing one is merged, becomes the snapshot and sets the status to saved |
| MetadataCard.Card.SaveNow | components/MetadataCard.tsx:86-94 | the timer is cancelled, the data committed and recorded as saved |
| MetadataCard.Card.LocalChange | components/MetadataCard.tsx:96-109 | the edit goes into the buffer, the status becomes saving and the pending timer carries the edited data |
| MetadataCard.Card.TimerFired | components/MetadataCard.tsx:106-108 | the timer saves the data captured when it was set |
| MetadataCard.Card.TimerFiredCurrent | components/MetadataCard.tsx:106-108 | a timer that reads the buffer when it fires saves what the card shows |
| MetadataCard.Card.Blur | components/MetadataCard.tsx:111-116 | with an edit pending, the buffer is saved at once; otherwise nothing changes |
| MetadataCard.Card.ImmediateUpdate | components/MetadataCard.tsx:118-121 | the data becomes the buffer and is saved |
| MetadataCard.Card.AppendTrend | components/MetadataCard.tsx:145-152 | a trend already among the keywords changes nothing; otherwise it is appended and saved |
| MetadataCard.Card.RemoveKeyword | components/MetadataCard.tsx:154-158 | the keywords without that position are saved |
| MetadataCard.Card.RemoveDuplicates | components/MetadataCard.tsx:160-167 | the deduplicated keywords are saved only when there was a duplicate |
| MetadataCard.Card.SavedTimerFired | components/MetadataCard.tsx:77-84 | the saved message returns to idle, and nothing else changes |
| MetadataCard.Card.ShowsDuplicateWarning | components/MetadataCard.tsx:179-183 | the warning shows exactly when the displayed keywords repeat: the buffer's when there is one, otherwise the item's metadata, and never when there is neither |
| MetadataCard.StaleAutoSave | components/MetadataCard.tsx:59-108 | an edit, then a new title from outside (a regeneration finishing) before the timer fires and with no blur in between: the timer saves the old title while the card shows the new one |
| MetadataCard.CurrentAutoSave | components/MetadataCard.tsx:59-108 | the same events with a timer that reads the buffer save both the edit and the new title |
| PromptGenerator.NewItems | components/PromptGenerator.tsx:26-32 | one idle item with an empty prompt per picked file, in order |
| PromptGenerator.GenerateAllTargets | components/PromptGenerator.tsx:97-110 | without a key nothing starts; otherwise exactly the pending items start, as many as the count shows |
| PromptGenerator.PendingCount | components/PromptGenerator.tsx:118 | the count shown is the number of positions of the list holding a pending item, at most the list's length |
| PromptGenerator.ExportCsv | components/PromptGenerator.tsx:49-63 | there is a CSV exactly when some item is completed with a non-empty prompt |
| PromptGenerator.ExportCsvRoundTrip | components/PromptGenerator.tsx:54-63 | the CSV reads back as the header and (file name, prompt) for every exportable item |
| PromptGenerator.Generator.constructor | components/PromptGenerator.tsx:22 | the list starts empty |
| PromptGenerator.Generator.AddFiles | components/PromptGenerator.tsx:25-34 | the new items are appended |
| PromptGenerator.Generator.Remove | components/PromptGenerator.tsx:36-42 | the items with the id are dropped |
| PromptGenerator.Generator.ClearAll | components/PromptGenerator.tsx:44-47 | the list is emptied |
| PromptGenerator.Generator.BeginGenerate | components/PromptGenerator.tsx:76-82 | without a key nothing changes; otherwise the item is marked loading with its error cleared |
| PromptGenerator.Generator.FinishGenerate | components/PromptGenerator.tsx:88-94 | the item becomes completed with the prompt, or an error with the message |
| PromptGenerator.NewItemsPending | components/PromptGenerator.tsx:25-34 | added items raise the pending count by their number and are not exported yet |
| PromptGenerator.RemoveProperties | components/PromptGenerator.tsx:40 | no item keeps the id, and all others stay in order |
| PromptGenerator.UpdateOnlyTarget | components/PromptGenerator.tsx:82-93 | a generation touches only its item, and keeps ids, files and positions |
| PromptGenerator.GenerateSuccess | components/PromptGenerator.tsx:82-91 | success leaves the pending list, and is exportable exactly when the prompt is non-empty |
| PromptGenerator.GenerateFailure | components/PromptGenerator.tsx:82-93 | failure keeps the old prompt and puts the item back on the pending list with the message |
| ImageOptimizer.RoundDiv | services/imageOptimizer.ts:32 | `Math.round(n / d)`: the nearest whole number, halves rounding up |
| ImageOptimizer.Scaled | services/imageOptimizer.ts:27-38 | within the bound nothing changes; otherwise the longer side (the height on a tie) becomes the bound and the other is scaled and rounded |
| ImageOptimizer.ScaleDimensions | services/imageOptimizer.ts:27-38 | the reassignments compute the scaled size |
| ImageOptimizer.ScaledWithinBound | services/imageOptimizer.ts:30-38 | neither side exceeds the bound, and neither grows |
| ImageOptimizer.ScaledKeepsRatio | services/imageOptimizer.ts:29-37 | the aspect ratio is kept to within half a pixel |
| ImageOptimizer.Optimize | services/imageOptimizer.ts:13-68 | a non-image type, a failed load and a missing context each reject with their message; otherwise the WebP result has exactly the scaled size, within the bound |
| ImageOptimizer.VectorRefused | services/imageOptimizer.ts:13-18 | PostScript and PDF files are refused |
| ImageOptimizer.ThinImageVanishes | services/imageOptimizer.ts:30-33 | with the default 2048 bound a 5000 by 1 image is drawn 2048 by 0 |
| ImageOptimizer.ScaledNonEmpty | services/imageOptimizer.ts:30-37 | the corrected scaling never rounds a non-empty side to zero, and agrees with the original otherwise |
| ImageOptimizer.ScaledNonEmptyProperties | services/imageOptimizer.ts:30-37 | the corrected scaling draws every non-empty image on a non-empty canvas within the bound |

## Left out

- `processFile` (App.tsx:106-144) is not modelled. It uploads, optimizes and analyses a file, all of which is asynchronous I/O. Its parts (`optimizeImage` and `generateImageMetadata`) are modelled on their own.
- `handleRegenerate` (App.tsx:232-241) is not modelled. It is the key check of `handleGenerateAll` followed by `processFile` on one asset.
- `handleUpdateMetadata`, `handleAddTrending` and `handleClearAll` (App.tsx:258-272) are not modelled. They are one-line state writes that the card's save log stands for.
- `generateImagePrompt` (services/geminiService.ts:197-249) is not modelled. The prompt screen receives its outcome as an input.
- `JSON.parse` of the metadata answer is not modelled. The model returns the response text.
- Object URLs are not modelled: neither their creation and revocation, the clipboard, alerts, nor the download link.
- Canvas drawing and WebP/base64 encoding are not modelled. Whether an image loads, its size, and whether a drawing context exists are inputs of `ImageOptimizer.Optimize`.
- Timers and concurrent generations are not modelled. The asynchrony of React state updates becomes explicit methods for "timer fired", run in one order.
- BulkEdit.TitleEdit and BulkEdit.ApplyBulk count title lengths in Unicode scalar values, not in the UTF-16 code units of `substring(0, 150)` (App.tsx:453): a title of astral characters such as emoji is cut at 150 characters rather than 150 code units, and a cut through a surrogate pair, which leaves a lone half in the source, cannot be represented.
- Character handling is ASCII only: lower-casing and white space as `trim` and `\s` treat them. Unicode case folding and Unicode spaces are left out.
- Replacement patterns are not modelled. `String.replace` with a replacement such as `$&` is read literally here; JavaScript would expand it.
- The random ids of `Math.random()` become a counter `nextId`, so uniqueness of new ids is by construction.
- Gemini.GenerateWithRetry requires `retries <= 4`. The source would compute a fractional backoff beyond that, and every caller passes the default 3.
- The Gemini request body (prompt text and response schema) is reduced to the model, contents, JSON flag, thinking budget and search switch.
- An incoming group matches an existing asset only by the base name of its primary file (App.tsx:168); an existing asset's companion vector is never matched.

## Findings

| source | as written | input that shows it | evidently intended | confidence | as-written member | corrected member |
|---|---|---|---|---|---|---|
| App.tsx:312-328 | only image names are reserved when choosing a base; the vector takes the same base without any check | rename mode; two completed assets titled alike, images `a.jpg` and `b.png`, both with `.eps` vectors: both vectors are written as `<title>.eps` | every entry of the archive has its own name | not executed | Export.VectorNamesCollide | Export.ExportZipPaired |
| components/MetadataCard.tsx:106-108 | the auto-save timer saves the data captured when it was set | regenerate an asset (App.tsx:232-240), click into its description and keep typing; the generation finishes (App.tsx:124-128) with a new title less than three seconds after the last keystroke, with no blur in between: the card shows the new title, but the timer saves the old one and overwrites it | the timer saves what the card currently shows | not executed | MetadataCard.StaleAutoSave | MetadataCard.CurrentAutoSave |
| services/imageOptimizer.ts:30-33 | the shorter side is rounded and may become 0 | a 5000 by 1 image, default bound 2048: the canvas is 2048 by 0 | every non-empty image is drawn on a non-empty canvas | not executed | ImageOptimizer.ThinImageVanishes | ImageOptimizer.ScaledNonEmptyProperties |
