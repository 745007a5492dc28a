# Writing studio core, modelled in Dafny

This project models the data logic of the METIS writing studio ("Schreib-Studio"). The
studio keeps the chapter modules of a book as markdown files with front matter (chapter `kapitel`, subchapter
`unterkapitel`, status, importance, urgency, tags). It also keeps a library of research
sources in a JSON index. The model covers these parts:

- **Module statistics** (`lib/modules.ts`, module `ModuleStats`):
  - the status filter;
  - the importance/urgency (Eisenhower) matrix;
  - the rounded progress percentage;
  - the word-count statistics.
- **Module loading** (`lib/markdown.ts`, module `Markdown`):
  - the recursive walk for markdown files, including its error handling;
  - the exclusion of templates;
  - the record built from a file and its front matter;
  - the stable sort by chapter and subchapter with a numeric-aware comparison.
- **Source store** (`lib/sources.ts`, module `Sources`): a class whose field is the parsed
  index. Its methods find, upsert and delete sources.
- **Source route** (`app/api/research/sources/route.ts`, module `SourcesRoute`): the
  validation and status codes of GET, POST and DELETE.
- **Pomodoro timer** (`hooks/usePomodoro.ts`, module `Pomodoro`):
  - the clock display `formatTime`;
  - the timer state as a class whose methods are the hook's callbacks and its one-second
    tick.
- **Knowledge graph** (`components/KnowledgeGraph.tsx`, module `KnowledgeGraph`): the
  nodes, and the nested loops that link every pair of modules sharing a tag.
- **Module table** (`components/ModuleList.tsx`, module `ModuleList`):
  - the grouping by chapter;
  - the numeric-aware chapter order;
  - the download guard;
  - the chapter label.

Shared modules hold the JavaScript building blocks that these parts rely on:

- `Text`: `toString`, `padStart`, `trim`, `split(/\s+/)`, `startsWith`/`endsWith`.
- `JsValues`: truthiness, `||` and `String()` on front-matter values.
- `Seqs`: `Array.prototype.filter`.
- `Order`: total orders, lexicographic comparison, a stable sort.
- `Natural`: the numeric-aware string comparison.
- `Types`: the module and source records.

## Model

| member | source | states |
|---|---|---|
| ModuleStats.FilterModulesByStatus | lib/modules.ts:3-5 | the result is a subsequence of the input whose every module has the status; each module with the status occurs as often as in the input, every other module not at all |
| ModuleStats.QuadrantOf | lib/modules.ts:9-12 | a module is in "do first" exactly when importance and urgency are both high, in "schedule" when only importance is, in "delegate" when only urgency is, and in "eliminate" when neither is |
| ModuleStats.QuadrantFilter | lib/modules.ts:9-12 | one quadrant's filter keeps exactly the modules of that quadrant, in order, with their multiplicities |
| ModuleStats.GetEisenhowerMatrix | lib/modules.ts:7-14 | each of the four quadrants is a subsequence of the input holding exactly the modules of that importance/urgency combination |
| ModuleStats.EisenhowerPartition | lib/modules.ts:7-14 | the four quadrants together hold every module exactly as often as the input, and their lengths add up to the input length |
| ModuleStats.QuadrantsCover | lib/modules.ts:9-12 | four per-quadrant selections add up to the whole input, as multisets and in length |
| ModuleStats.CountFinal | lib/modules.ts:20 | the number of completed modules is the length of the status filter for `final`, at most the module count |
| ModuleStats.DivisionByBounds | lib/modules.ts:21 | integer division is fixed by the bounds `d*p <= x < d*p + d` (used to pin the rounded percentage) |
| ModuleStats.RoundingFacts | lib/modules.ts:21 | half-up rounding of `100*completed/total` lies in 0..100, is 100 when all are completed and 0 when none are |
| ModuleStats.RoundPercent | lib/modules.ts:21 | `Math.round(completed/total*100)`: the integer nearest to `100*completed/total` (halves up), between 0 and 100 |
| ModuleStats.CalculateProgress | lib/modules.ts:16-28 | no modules give 0/0/0; otherwise total is the module count, completed the number of `final` modules, and the percentage is their rounded ratio (100 when all are final, 0 when none are) |
| ModuleStats.TotalWords | lib/modules.ts:31-33 | the summed word counts are at least one per module |
| ModuleStats.GetStats | lib/modules.ts:30-45 | total and completed module counts, a total word count equal to the sum of the per-module word counts (TotalWords), a progress of at most 100, and at least one word per module |
| ModuleStats.StatsAgreeWithProgress | lib/modules.ts:35-37 | the statistics' counts and progress equal the progress computation's |
| Text.TrimStart | lib/modules.ts:32 | `trimStart` removes exactly a whitespace prefix, and what is left starts with non-whitespace or is empty |
| Text.TrimStartKeepsLast | lib/modules.ts:32 | trimming the start keeps a last character that is not whitespace |
| Text.Trim | lib/modules.ts:32 | `trim` returns a slice of the input with only whitespace before and after it, which neither starts nor ends with whitespace |
| Text.TrimKeepsNonWhitespace | lib/modules.ts:32 | trimming keeps every non-whitespace character |
| Text.Split | lib/modules.ts:32 | `split(/\s+/)` gives at least one piece, none containing whitespace |
| Text.SplitGlue | lib/modules.ts:32 | the pieces, glued back with the non-empty whitespace runs between them, give the text back; only the first and last piece can be empty |
| Text.SplitUnique | lib/modules.ts:32 | any way of writing the text as whitespace-free pieces separated by non-empty whitespace runs, with only the first and last piece possibly empty, is exactly the split |
| Text.SplitLosesOnlyWhitespace | lib/modules.ts:32 | the pieces glued back together are the input without its whitespace |
| Text.SplitPiecesNonEmpty | lib/modules.ts:32 | a string that neither starts nor ends with whitespace splits into non-empty pieces |
| Text.WordCountPieces | lib/modules.ts:32 | the pieces counted per module are exactly its words: non-empty unless the content is blank, whitespace-free, and together all of its non-whitespace text |
| Text.WordCount | lib/modules.ts:32 | the per-module count is at least 1, and exactly 1 for blank content |
| Text.WordCountWords | lib/modules.ts:32 | when the trimmed content is non-empty words separated by whitespace runs, the count is the number of words |
| Text.NatToString | hooks/usePomodoro.ts:10 | `toString` of a natural number writes digits whose value is the number, without a leading zero |
| Text.IntToString | hooks/usePomodoro.ts:10 | `toString` of an integer: the digits of its magnitude, after a '-' when negative |
| Text.PadStart2 | hooks/usePomodoro.ts:10 | `padStart(2, '0')` keeps the string as its suffix and fills up to length 2 with '0' |
| Text.DigitsInjective | hooks/usePomodoro.ts:10 | two digit strings of equal length and value are equal |
| Text.LeadingZeroValue | hooks/usePomodoro.ts:10 | a leading '0' does not change the value of a digit string |
| Pomodoro.Duration | hooks/usePomodoro.ts:3-5 | a focus session lasts 1500 s, a short break 300 s, a long break 900 s |
| Pomodoro.JsRem | hooks/usePomodoro.ts:9 | JavaScript's `%` takes the sign of the dividend: the usual remainder for non-negative input, in `(-60, 0]` for negative input |
| Pomodoro.FormatTime | hooks/usePomodoro.ts:7-11 | the display is at least 5 characters; for a non-negative time it is digits, ':', two digits; below 6000 s it is exactly 5 characters |
| Pomodoro.FormatTimeParts | hooks/usePomodoro.ts:8-10 | the minute and second halves are padded digit strings whose values are `seconds / 60` and `seconds % 60` |
| Pomodoro.ParseClock | hooks/usePomodoro.ts:10 | a display built from minute and second digits is read back as the number of seconds |
| Pomodoro.FormatTimeRoundTrip | hooks/usePomodoro.ts:7-11 | reading the display of a non-negative time gives that time back |
| Pomodoro.FormatTimeShape | hooks/usePomodoro.ts:7-11 | below 100 minutes the display is two minute digits, ':', two second digits |
| Pomodoro.Timer.constructor | hooks/usePomodoro.ts:13-17 | a fresh timer is a stopped, unpaused focus session holding the initial time |
| Pomodoro.Timer.Settle | hooks/usePomodoro.ts:49-50 | the effect stops a running timer once no time is left and otherwise leaves it running or stopped as it was |
| Pomodoro.Timer.StartTimer | hooks/usePomodoro.ts:19-22 | starting clears the pause and runs the timer unless the time is already 0; time and session are unchanged |
| Pomodoro.Timer.PauseTimer | hooks/usePomodoro.ts:24-27 | pausing sets paused and stops the timer; time and session are unchanged |
| Pomodoro.Timer.ResetTimer | hooks/usePomodoro.ts:29-33 | resetting stops the timer and restores the full duration of the current session |
| Pomodoro.Timer.SetSession | hooks/usePomodoro.ts:35-40 | switching session stops the timer and loads the full duration of the new session |
| Pomodoro.Timer.Tick | hooks/usePomodoro.ts:42-57 | while running with time left, one second goes, and otherwise the time stays; the timer keeps running exactly when it was running and time is left; the range and the run/pause exclusion are preserved |
| Pomodoro.Session | hooks/usePomodoro.ts:13-57 | from the default start, any sequence of operations keeps the time within the session and never has the timer running and paused at once |
| Sources.IndexOf | lib/sources.ts:36 | `findIndex` returns the first position holding the id, or -1 when there is none |
| Sources.FindById | lib/sources.ts:30 | the lookup (`find`, falling back to null) is null exactly when no source has the id, and otherwise returns a source of the index |
| Sources.Upsert | lib/sources.ts:35-45 | the index keeps its length exactly when the id is present (replacement), and otherwise grows by one; every record with another id stays where it was |
| Sources.IndexOfFirst | lib/sources.ts:36 | the first position holding the id is what `findIndex` returns |
| Sources.UpsertExisting | lib/sources.ts:38-39 | saving a present id replaces the first record with it in place, keeping the caller's `createdAt` and stamping `updatedAt`; every other record is unchanged |
| Sources.UpsertNew | lib/sources.ts:40-46 | saving an unseen id appends exactly one record, with both timestamps set to now |
| Sources.UpsertKeepsIdsDistinct | lib/sources.ts:33-50 | saving keeps the ids pairwise distinct |
| Sources.SaveThenFind | lib/sources.ts:33-50 | after a save the id is found, and the record found is the caller's source up to its timestamps, updated now |
| Sources.RemoveId | lib/sources.ts:55 | the filter keeps, in order, exactly the records with another id, as often as they occur |
| Sources.RemoveIdShrinksIffPresent | lib/sources.ts:55-59 | deleting removes something exactly when the id is present |
| Sources.RemoveAbsentIsIdentity | lib/sources.ts:55-59 | deleting an absent id leaves the index as it was |
| Sources.SourceStore.GetAllSources | lib/sources.ts:18-26 | returns the stored index |
| Sources.SourceStore.GetSourceById | lib/sources.ts:28-31 | returns the first source with the id, or none |
| Sources.SourceStore.SaveSource | lib/sources.ts:33-50 | writes the upserted index and returns the caller's source; a failed write changes nothing and reports the failure |
| Sources.SourceStore.DeleteSource | lib/sources.ts:52-63 | false and no write when nothing matches; otherwise the filtered index is written and true returned; a failed write changes nothing |
| SourcesRoute.GetOutcome | app/api/research/sources/route.ts:5-13 | a GET always answers 200 with the stored index |
| SourcesRoute.PostOutcome | app/api/research/sources/route.ts:15-29 | a POST answers 200, 400 or 500; only 200 changes the index, to the upsert of the posted source, which is echoed back; every other answer carries an error message |
| SourcesRoute.DeleteOutcome | app/api/research/sources/route.ts:31-49 | a DELETE answers 200, 400, 404 or 500; only 200 changes the index, removing at least one record with the given id; every other answer carries an error message |
| SourcesRoute.Get | app/api/research/sources/route.ts:5-13 | answers 200 with the stored index |
| SourcesRoute.Post | app/api/research/sources/route.ts:15-29 | response and new index are those of the POST decision table |
| SourcesRoute.PostValidation | app/api/research/sources/route.ts:19-21 | 400 exactly when the body lacks an id or a title, and then the index is untouched |
| SourcesRoute.PostSavesAndEchoes | app/api/research/sources/route.ts:23-24 | a valid POST upserts the source and answers 200 with it as sent |
| SourcesRoute.FailuresBecome500 | app/api/research/sources/route.ts:25-28 | an unparsable body or a failed write answers 500 with the error message and leaves the index unchanged |
| SourcesRoute.Delete | app/api/research/sources/route.ts:31-49 | response and new index are those of the DELETE decision table |
| SourcesRoute.DeleteDecisions | app/api/research/sources/route.ts:35-44 | 400 without an id, 404 for an unknown id with the index untouched, 200 with every record of the id removed otherwise |
| Markdown.Join | lib/markdown.ts:80 | the joined path ends with the entry name |
| Markdown.JoinKeepsSuffix | lib/markdown.ts:80 | joining keeps a suffix of the name, such as ".md" |
| Markdown.Collect | lib/markdown.ts:73-98 | every path found ends in ".md"; an unreadable directory gives nothing |
| Markdown.Walk | lib/markdown.ts:79-92 | every path gathered by the walk of one directory ends in ".md" |
| Markdown.FilesRecursively | lib/markdown.ts:73-98 | the loop with its recursion returns exactly the walk's result |
| Markdown.WalkStaysFailed | lib/markdown.ts:76-95 | once an entry's stat throws, the rest of the directory is skipped |
| Markdown.FailureKeepsGathered | lib/markdown.ts:76-95 | a failing entry leaves exactly what the entries before it gave |
| Markdown.WalkGrows | lib/markdown.ts:85-89 | paths gathered are never lost, later entries only append |
| Markdown.CollectSound | lib/markdown.ts:73-98 | every path returned is a markdown file of the tree |
| Markdown.WalkSound | lib/markdown.ts:79-92 | every path gathered by a walk is a markdown file below one of its entries |
| Markdown.CollectComplete | lib/markdown.ts:73-98 | when nothing fails, every markdown file of the tree is returned |
| Markdown.WalkComplete | lib/markdown.ts:79-92 | when every entry can be examined, a markdown file at any entry is found |
| Markdown.WalkHealthy | lib/markdown.ts:79-92 | a walk over entries that can all be examined completes |
| Markdown.StripMd | lib/markdown.ts:24 | `replace(/\.md$/, '')` removes one trailing ".md" and otherwise leaves the path unchanged |
| Markdown.StripMdOnce | lib/markdown.ts:50 | only the last ".md" is removed, and ".mdx" is kept |
| Markdown.ModuleRecord | lib/markdown.ts:49-54 | the record has slug, file path, content and the front-matter keys; a front-matter field wins over the derived one of the same name |
| Markdown.ModuleData | lib/markdown.ts:23-29 | the same record plus the rendered HTML, front matter again winning |
| Markdown.NotTemplate | lib/markdown.ts:43 | a file is dropped exactly when its path ends in the 11 characters "template.md" |
| Markdown.Records | lib/markdown.ts:42-55 | the records are exactly those of the non-template files found |
| Markdown.SortKey | lib/markdown.ts:59-67 | the sort key has exactly two parts, the chapter text and then the subchapter text |
| Markdown.SourceCmp | lib/markdown.ts:58-70 | the comparator ties exactly when chapter and subchapter texts are the same |
| Markdown.SourceCmpIsKeyCmp | lib/markdown.ts:58-70 | the two-step comparator is the lexicographic comparison of `[kapitel, unterkapitel]` text |
| Markdown.KeyCmpIsTotalOrder | lib/markdown.ts:58-70 | that comparison is a strict total order |
| Markdown.GetAllModules | lib/markdown.ts:32-71 | no content directory gives no modules; otherwise a permutation of the non-template records |
| Markdown.GetAllModulesSorted | lib/markdown.ts:58-70 | the modules come out in the order the comparator asks for |
| Markdown.GetAllModulesStable | lib/markdown.ts:58-70 | modules with the same chapter and subchapter keep the order of the walk |
| Markdown.GetAllModulesMembers | lib/markdown.ts:42-55 | a record is among the modules exactly when it belongs to a non-template markdown file of the tree |
| Markdown.TemplateSuffixExcluded | lib/markdown.ts:43 | any file whose name ends in "template.md" is excluded, "template.mdx" is not |
| Natural.Compare | lib/markdown.ts:63 | the numeric-aware comparison ties exactly when the two strings are the same: digit runs compare by value and then by length, so "01" and "1" still differ |
| Natural.DigitRun | lib/markdown.ts:63 | the digit run at the start of a string is maximal |
| Natural.TokenizeRoundTrip | lib/markdown.ts:63 | splitting a string into digit runs and characters loses nothing |
| Natural.TokenizeDigits | lib/markdown.ts:63 | a non-empty digit string is one run |
| Natural.TokenizeAppend | lib/markdown.ts:63 | no token crosses from a non-digit into what follows |
| Natural.TokenCmpIsTotalOrder | lib/markdown.ts:63 | comparing tokens is a strict total order |
| Natural.CompareIsTotalOrder | lib/markdown.ts:63 | the numeric-aware string comparison is a strict total order |
| Natural.CompareFlip | lib/markdown.ts:63 | swapping the arguments flips the comparison's sign |
| Natural.CompareNumbers | lib/markdown.ts:63 | decimal numbers compare by value: "2" before "10" |
| Natural.ComparePrefixThenNumber | lib/markdown.ts:63 | equal text followed by different numbers compares by the numbers |
| Order.LexIsTotalOrder | lib/markdown.ts:58-70 | lexicographic comparison over a total order is a total order |
| Order.Insert | lib/markdown.ts:58 | one insertion step adds exactly one element |
| Order.SortBy | lib/markdown.ts:58 | the sort is a permutation |
| Order.SortBySorted | lib/markdown.ts:58 | the sort orders the elements by key |
| Order.SortByStable | lib/markdown.ts:58 | the sort keeps the input order of elements with equal keys |
| Seqs.Filter | lib/modules.ts:4 | `filter` keeps, in order, exactly the elements passing the test |
| Seqs.FilterMultiset | lib/modules.ts:4 | `filter` keeps each passing element as often as it occurs and drops the rest |
| Seqs.FilterShrinksIff | lib/sources.ts:55-57 | filtering shortens the sequence exactly when some element fails the test |
| JsValues.Or | lib/markdown.ts:59 | JavaScript's logical or of `a` and `b` is `a` when it is truthy and `b` otherwise |
| KnowledgeGraph.Group | components/KnowledgeGraph.tsx:37 | group 1 exactly for `final`, 2 exactly for `überarbeitung`, 3 otherwise |
| KnowledgeGraph.Color | components/KnowledgeGraph.tsx:38 | green for `final`, amber for `überarbeitung`, red otherwise |
| KnowledgeGraph.ToNode | components/KnowledgeGraph.tsx:33-39 | a module's node has its id and title, a size of at least 1, and the group and colour of its status |
| KnowledgeGraph.Nodes | components/KnowledgeGraph.tsx:33-39 | one node per module, in order, with its id and title and a size of at least 1 |
| KnowledgeGraph.GroupColorAgree | components/KnowledgeGraph.tsx:37-38 | each node's colour belongs to its group and to no other |
| KnowledgeGraph.SharedTags | components/KnowledgeGraph.tsx:50 | the shared tags are tags of both modules, at most as many as the first has |
| KnowledgeGraph.SharesIffCommonTag | components/KnowledgeGraph.tsx:50-51 | a link is made exactly when the tag lists have a tag in common, whichever module comes first |
| KnowledgeGraph.SharedCountNotSymmetric | components/KnowledgeGraph.tsx:50-55 | the link weight counts the first module's repeated tags, so it depends on the order |
| KnowledgeGraph.ToLink | components/KnowledgeGraph.tsx:52-56 | a link runs from the first module's id to the second's |
| KnowledgeGraph.BuildLinks | components/KnowledgeGraph.tsx:41-59 | the nested loops produce one link per linked index pair, in the loops' order |
| KnowledgeGraph.LinkRow | components/KnowledgeGraph.tsx:45-58 | the inner loop adds module i's row of links |
| KnowledgeGraph.LinkPairs | components/KnowledgeGraph.tsx:44-59 | every linked pair joins an earlier module to a later one |
| KnowledgeGraph.LinkPairsMembers | components/KnowledgeGraph.tsx:44-59 | a pair `i < j` is linked exactly when the two modules share a tag |
| KnowledgeGraph.LinkPairsDistinct | components/KnowledgeGraph.tsx:44-59 | the links come in row-major order, so no pair is linked twice |
| KnowledgeGraph.LinkCountBound | components/KnowledgeGraph.tsx:44-59 | there are at most `n(n-1)/2` links |
| KnowledgeGraph.LinksWellFormed | components/KnowledgeGraph.tsx:51-57 | every link runs from an earlier module to a later one and weighs at least 1 |
| ModuleList.ChapterKey | components/ModuleList.tsx:66 | the group of a module is its chapter's text when the chapter is truthy, and "Andere" otherwise |
| ModuleList.AndereGroup | components/ModuleList.tsx:66 | a module is grouped under "Andere" exactly when its chapter is falsy or is the text "Andere"; otherwise under its chapter's text |
| ModuleList.FirstAppearance | components/ModuleList.tsx:64-71 | every key is the chapter of some module |
| ModuleList.FirstAppearanceOnce | components/ModuleList.tsx:64-71 | every chapter present appears exactly once among the keys |
| ModuleList.GroupByChapter | components/ModuleList.tsx:64-71 | the `forEach` builds, for each chapter, its modules in input order, with the keys in order of first appearance |
| ModuleList.GroupsPartition | components/ModuleList.tsx:64-71 | each module is in the group of its chapter as often as in the input and in no other group; every group keeps input order |
| ModuleList.SortedChapters | components/ModuleList.tsx:73-75 | sorting the chapters is a permutation of the keys |
| ModuleList.SortedChaptersOrdered | components/ModuleList.tsx:73-75 | the chapters are in numeric-aware order |
| ModuleList.NumberedChaptersInOrder | components/ModuleList.tsx:73-75 | numbered chapters are listed by value: chapter 2 before chapter 10 |
| ModuleList.TableListsEveryModule | components/ModuleList.tsx:104-127 | the table lists every module exactly as often as the input holds it |
| ModuleList.ShowsDownload | components/ModuleList.tsx:113 | the download button is shown for every group but "Andere" |
| ModuleList.DownloadOnlyForChapters | components/ModuleList.tsx:113 | the download button shows exactly for groups of modules with a truthy chapter other than "Andere" |
| ModuleList.ChapterLabel | components/ModuleList.tsx:133-137 | the chapter cell as written: with both parts, and a subchapter text that does not start with the chapter's text, the label starts with "chapter."; with neither part it is empty |
| ModuleList.ChapterLabelCases | components/ModuleList.tsx:133-137 | with chapter and a numeric or text subchapter the label starts with the chapter's text; with only one it is that one; with neither it is empty |
| ModuleList.ChapterLabelExamples | components/ModuleList.tsx:133-137 | chapter 3 with subchapter 1 reads "3.1", with subchapter "3.2" reads "3.2" |
| ModuleList.ChapterLabelPrefixClash | components/ModuleList.tsx:133-137 | as written, chapter 1 subchapter 12 and chapter 12 both read "12" |
| ModuleList.IntendedLabelPrefix | components/ModuleList.tsx:133-137 | the corrected label always starts with "chapter." |
| ModuleList.IntendedLabelNamesChapter | components/ModuleList.tsx:133-137 | with the corrected label, two modules that both have a chapter and a numeric or text subchapter, and whose chapter texts differ and contain no '.', never share a label |
| ModuleList.IntendedLabelNeedsChapter | components/ModuleList.tsx:133-137 | the corrected label still shows a subchapter alone when there is no chapter: no chapter with subchapter "1.2" reads like chapter 1, subchapter 2 |

## Left out

- The rest of the repository: the AI routes, the git backup, the settings, PDF extraction and
  the React rendering beyond the values listed above.
- File-system and network effects become values:
  - the directory tree is a `Listing`;
  - the front-matter parser (gray-matter) is the parameter `read`;
  - the markdown-to-HTML renderer is the parameter `html`;
  - the outcome of each index write is the parameter `writeOk`;
  - the clock is the parameter `now`.
- The two `new Date()` calls made when a source is inserted are taken as one instant.
- `ensureDir`, and an unreadable or corrupt `index.json` (which `getAllSources` turns into an
  empty list), are not modelled: the store starts from a given parsed index.
- A missing field of a posted source is the empty string here (both are falsy in the route's
  check).
- `fs.existsSync` of the content directory is the parameter `exists_`.
- A `readFileSync` that throws inside `getAllModules` is not modelled; it would propagate out of
  the function.
- Paths are relative: `path.join`/`path.relative` against the content directory are the
  relative join. Symbolic links are not modelled.
- Markdown.GetAllModules: the comparator stands for `localeCompare(..., { numeric: true })`
  through a numeric-aware comparison of ASCII digit runs and character codes. ICU collation
  (case and accent weights, locale tailoring) is not modelled. The comparison here is
  antisymmetric, so the sorted order is unique.
- ModuleList.SortedChapters: the same simplification of `localeCompare`.
- ModuleList.GroupByChapter: the source collects the groups in a plain `{}` object
  (components/ModuleList.tsx:64-71). For a chapter named after an inherited `Object.prototype`
  member (`constructor`, `toString`, `valueOf`, `hasOwnProperty`, `__proto__` and the like) the
  lookup finds that truthy member, no array is created and `.push` throws a TypeError, so the
  component fails to render. The model treats such names as ordinary chapters and groups their
  modules normally; ModuleList.GroupsPartition is stated for that model.
- Object-key ordering of `groupedModules` for integer-like keys is not modelled (the keys are
  sorted before use).
- ModuleStats.RoundPercent: `Math.round` on floating point is modelled as exact half-up
  rounding of the rational `100 * completed / total`.
- KnowledgeGraph.Nodes: the node size is a real number (`content.length / 1000 + 1`); floating-
  point rounding is not modelled. The model measures the content in characters (Unicode scalar
  values), while `content.length` counts UTF-16 code units, so a character outside the Basic
  Multilingual Plane (an emoji, say) counts 2 in the source and 1 here.
- Pomodoro.FormatTime: only integer seconds are modelled; the hook never produces another
  value.
- Pomodoro.Timer.Tick: the one-second `setInterval` scheduling is a method called once per
  elapsed second.
- Pomodoro.Timer.Settle: React's batched state updates and the re-run of the effect are
  modelled by one settling step at the end of each operation.
- JsValues: front-matter values are integers, strings, booleans, arrays or missing; floats,
  dates and nested objects are not modelled.
- `saveSource` keeps whatever `createdAt` the caller sent (lib/sources.ts:39), not the stored
  one; the model does the same (Sources.UpsertExisting).

- Console logging is not modelled: the warning for a missing content directory
  (lib/markdown.ts:35), the error for an unreadable directory (lib/markdown.ts:94) and the
  error logs of the route handlers (app/api/research/sources/route.ts:10, :26 and :46).
- IntendedLabelNamesChapter: distinct labels are proved only for two modules that both have a
  chapter and a numeric or text subchapter, with chapter texts that contain no '.'. Without
  these conditions the corrected rule can still repeat a label: a module with no chapter and
  subchapter "1.2" reads like chapter 1, subchapter 2 (ModuleList.IntendedLabelNeedsChapter).

## Findings

| source | as written | input that shows it | evidently intended | confidence | as-written member | corrected member |
|---|---|---|---|---|---|---|
| components/ModuleList.tsx:133-137 | the subchapter is shown alone when its text starts with the bare chapter text | chapter 1 with subchapter 12 shows "12", the same label as chapter 12 | a subchapter is shown alone only when it already starts with "chapter."; otherwise "1.12" | medium, not executed | ModuleList.ChapterLabelPrefixClash | ModuleList.IntendedLabelNamesChapter |
