# Stackarr: a verified model of its interpreters, its import pipeline and its shared state

Stackarr manages a media library. This project models the parts of it in which the behaviour is
hardest to see from one function, and proves what they promise:

- **The Cardigann template engine** (`Template*.dfy`). Indexer definitions contain templates such as
  `{{ if .Query.Year }}...{{ else }}...{{ end }}`. The engine works directly on strings: a cursor loop
  calls itself on block bodies, two hand-written matchers find the end of a block, a splitter cuts
  arguments, and `range` writes each item into the *text* of its body and expands the result. The
  model has the loops as methods, each proved equal to a function on strings, and proves that
  function against trees: a template syntax, its printer and its value. Expanding a printed template
  gives its value, for every well-formed template whose ranges run over items without `{`. What a path
  yields is fixed by laws on setting one value (`LookupExact`), and errors by `TemplateErrors.dfy`. Expansion
  ends although substitution makes texts longer. For `range` below `if` (in one branch, or at any depth of
  blocks without `else`), for misread literals and for panics there are exact conditions.
- **Imports and disk scans** (`Import*.dfy`, `Scan*.dfy`). The four tables are state, every SQL statement
  is one atomic step, and any statement may be the last one. The imports and scans are methods on a
  `Database` object, proved to issue exactly the statements of a plan in order; integrity of references
  is proved for every prefix of every plan and for whole runs, and for completed ones what stands in every
  row afterwards (`ImportedSeries`, `ScanAdds`).
- **Rewriters of text** (`Html*.dfy`, `Date*.dfy`, `Placeholders.dfy`, `Sql*.dfy`).
  Chains of textual replacements are proved equal to one-pass maps, and the conversion of SQL
  placeholders to preserve the meaning of a query exactly when the literal passes the audit and has
  no `?` of its own.
- **Shared state and protocols** (`LogBuffer.dfy`, `Login*.dfy`, `Dispatch.dfy`, `Categories.dfy`,
  `Json*.dfy`, `ArchiveFiles.dfy`). The log ring buffer and its polling clients, the login protocol
  under any interleaving of calls, dispatch with fallback, the category index, rows from JSON answers,
  and the archive of .nzb files.

Where the code does not do what it seems to promise, the exact condition is proved, or an input is
given on which it fails:

- A `range` in a branch of an `if` loses its `end` to the `if`, because the matcher of `if` does not count
  `range` as an opener; the branch is cut at the first `end` of a `range` in it. The template still has its
  value if and only if the branch is not taken and what follows that `end`, in the branch and in every
  `range` around it, comes to nothing (`RangeUnderIfMeaning`, `RangeUnderElseMeaning`). In a nest of `if`
  blocks of any depth the first ends close the blocks; `RangesUnderIfs` is the exact condition there, and
  `RangeInInnerIf` spells it out for two blocks and one `range`.
- Inside a group the splitter counts the parentheses of a literal, and outside of it the quotes. A list of
  arguments is read as written if and only if each argument passes a scan of its parentheses and
  quotes (`SplitExact`); an `and` of simple conditions that can hold has its meaning in all contexts
  if and only if its arguments pass (`MeantIffScanned`).
- A category that spells out the template listing it makes the expansion recurse without end
  (`BracesDiverge`).
- A lone quote as an operand makes the evaluator panic; whether an `eq` panics can be told from its text
  (`EqPanics`), and a condition panics if and only if its first argument that is not true is one that does
  (`ConditionPanics`).
- Decoding HTML undoes encoding only for texts that contain none of six entities (`HtmlRoundTrip`), and an
  entity whose ampersand is encoded is decoded twice (`DecodedTwice`).
- The date-format rewriter misreads tokens that stand side by side in nine cases, such as `yy` before `yyyy` or
  `MM` before `mm`, and in no others (`ChainExact`).
- The placeholder audit does not look for a `?` that a literal already has (`AuditIsExact`).
- A series import stopped between its first two cleanup statements leaves an episode whose file pointer
  has no `episode_files` row, and at no other point (`SeriesImportLinked`).
- An import records the path below the series folder, a scan looks for the path below the library
  root; an imported file is recognised only if both are the same (`ImportedFileIsRecognised`,
  `ImportedMovieIsRecognised`).
- The log page resumes after `latestSeq`, which is 0 both for an empty buffer and after the first entry, and
  is read after the entries. It loses nothing if and only if nothing is pushed between two reads, every
  answer can hold what is new, and the first answer is not read from an empty buffer (`PageLosesNothing`);
  a client that resumes from its last entry needs only the second (`NothingLost`).
- A search can report no releases without having logged in again when another search clears the flag
  under it. An empty result is always fresh if and only if at most one of the calls is a search
  (`FreshIffOneSearch`).

## Model

| member | source | states |
|---|---|---|
| TemplateArguments.ParseFunctionArgs | crates/stackarr-cardigann/src/template.rs:313-359 | the loop over the characters returns what the splitting automaton returns |
| TemplateArguments.SplitInvertsPrint | crates/stackarr-cardigann/src/template.rs:313-359 | any list of bare words, quoted strings and balanced groups, joined by one or more spaces, is split back into exactly that list |
| TemplateArguments.SplitExact | crates/stackarr-cardigann/src/template.rs:313-359 | for any list of trimmed words and any gaps: splitting gives the list back if and only if every word but the last, scanned on its own, ends outside of quotes and groups, and the last is not cut |
| TemplateArguments.SplitOfPrinted | crates/stackarr-cardigann/src/template.rs:313-359 | a list whose words pass the scan is split back exactly, also when the last one is a group that is never closed |
| TemplateConditions.StrippedWord | crates/stackarr-cardigann/src/template.rs:279-286 | stripping all leading and trailing parentheses from a printed argument leaves the condition inside it, cut at its end |
| TemplateConditions.WordsSplitExact | crates/stackarr-cardigann/src/template.rs:279-359 | for any arguments of an `and`, nested to any depth and with any literals, stripped at the end or not: the splitter makes the printed words of them if and only if each passes the scan |
| TemplateConditions.CondEvaluates | crates/stackarr-cardigann/src/template.rs:254-286 | such a condition is evaluated to its value whether or not its closing parentheses have been stripped |
| TemplateConditions.ConditionMeaning | crates/stackarr-cardigann/src/template.rs:254-310 | for `and` trees of any depth over variables, `not`, `eq` and `or`, with any literals whose groups pass the scan, the evaluator computes the value of the tree and does not panic |
| TemplateConditions.EqEvaluates | crates/stackarr-cardigann/src/template.rs:302-384 | `eq` of paths and quoted literals, whatever the literals contain besides their quote, compares their values |
| TemplateConditions.OrEvaluates | crates/stackarr-cardigann/src/template.rs:289-299 | the result of `or` is truthy exactly when one of the variables is |
| TemplateBlocks.CloseIndexExact | crates/stackarr-cardigann/src/template.rs:175-251 | a block closes at tag k if and only if the tags before k never close more than they open and k closes the block itself |
| TemplateBlocks.ParseIfBlock | crates/stackarr-cardigann/src/template.rs:175-217 | the loop finds a block exactly when there is one, returns its bodies and the text after it, and moves the position forward |
| TemplateBlocks.ParseRangeBlock | crates/stackarr-cardigann/src/template.rs:221-251 | likewise with `if` and `range` both as openers |
| TemplateBlocks.IfBlockText | crates/stackarr-cardigann/src/template.rs:175-217 | the text consumed is exactly body, `else` tag and body if there is one, and `end` tag |
| TemplateBlocks.RangeBlockText | crates/stackarr-cardigann/src/template.rs:221-251 | the text consumed is exactly body and `end` tag |
| TemplateBlocks.LastElse | crates/stackarr-cardigann/src/template.rs:190-206 | the `else` chosen belongs to the block itself, and no later one does |
| TemplateBlocks.IfBlockReturn | crates/stackarr-cardigann/src/template.rs:190-203 | at the closing tag, the search for the end of the remembered `else` tag succeeds before that tag, and the two slices are the bodies |
| TemplateExpand.ExpandTemplate | crates/stackarr-cardigann/src/template.rs:99-172 | the cursor loop with its recursive calls computes the expansion function, errors and panics included, on every string |
| TemplateExpand.NoOverflow | crates/stackarr-cardigann/src/template.rs:99-172 | if no value contains `{`, a call stack half as deep as the template has `{` is enough, for any template string |
| TemplateExpand.Terminates | crates/stackarr-cardigann/src/template.rs:99-172 | then the expansion has one result, reached on that stack and on every deeper one |
| TemplateExpand.IfBlockCount | crates/stackarr-cardigann/src/template.rs:175-217 | both bodies of an `if` block and the text after it have at least two `{` fewer than the text the block is cut from |
| TemplateExpand.RangeBlockCount | crates/stackarr-cardigann/src/template.rs:221-251 | likewise for a `range` block |
| TemplateExpand.WithItemCount | crates/stackarr-cardigann/src/template.rs:127-135 | writing an item without `{` in place of the dot adds no `{` |
| TemplateContext.ResolveWithout | crates/stackarr-cardigann/src/template.rs:46-85 | a lookup never yields a character that none of the values has |
| TemplateLookup.OneReading | crates/stackarr-cardigann/src/template.rs:48-49 | every string is a path with exactly one reading: blanks around it, dots in front, a head, and a field after the first dot if there is one |
| TemplateLookup.LookupExact | crates/stackarr-cardigann/src/template.rs:46-91 | for every context and every string: after setting one value of config, keywords, query, result or today, the paths that name it in any letter case yield it, and every other string yields what it did |
| TemplateLookup.CategoriesExact | crates/stackarr-cardigann/src/template.rs:46-54 | the same for the list of categories, which are joined by commas |
| TemplateLookup.UnknownIsEmpty | crates/stackarr-cardigann/src/template.rs:57-88 | a path that names no value is empty, but for the two constants `true` and `false` |
| TemplateLookup.MissingKeyIsEmpty | crates/stackarr-cardigann/src/template.rs:52-56 | a key that config or result does not have is empty |
| TemplateLookup.JoinConcat | crates/stackarr-cardigann/src/template.rs:54 | joining two lists is joining each, with one separator between |
| TemplateLookup.IterableExact | crates/stackarr-cardigann/src/template.rs:398-411 | `range` and `join` run over the list for the one word `Categories`, and otherwise over the value of the path, if it is not empty |
| TemplateLookup.TagOfPath | crates/stackarr-cardigann/src/template.rs:112-170 | the tag of a path expands to the value that was set for it |
| TemplateLookup.IfOfPath | crates/stackarr-cardigann/src/template.rs:93-97 | `if` takes its first branch for every value other than the empty string, `false` and `0` |
| TemplateLookup.RangeOfCategories | crates/stackarr-cardigann/src/template.rs:127-135 | `range` over the categories repeats its body with each item, in order |
| TemplateMeaning.ScanTemplate | crates/stackarr-cardigann/src/template.rs:175-251 | wherever a well-formed template is printed, its tags leave the nesting depth as it was and close nothing outside |
| TemplateMeaning.IfBlockPrinted | crates/stackarr-cardigann/src/template.rs:175-217 | the matcher cuts a printed `if` into exactly the printed bodies |
| TemplateMeaning.RangeBlockPrinted | crates/stackarr-cardigann/src/template.rs:221-251 | the matcher cuts a printed `range` into exactly the printed body |
| TemplateMeaning.WithItemPrinted | crates/stackarr-cardigann/src/template.rs:127-135 | the two textual replacements of the dot are, on trees, writing the item into every dot of the body, inner ranges included |
| TemplateMeaning.EvalWritten | crates/stackarr-cardigann/src/template.rs:127-135 | once written in, the item is what every dot means: an inner `range` does not rebind it |
| TemplateMeaning.ExprMeaning | crates/stackarr-cardigann/src/template.rs:112-170 | every tag other than `if` and `range` stands for the value of its expression, over the lookup that `LookupExact` describes |
| TemplateMeaning.ExpandPrinted | crates/stackarr-cardigann/src/template.rs:99-172 | whatever text follows a printed template, the expansion is the value of the template and then the expansion of that text |
| TemplateMeaning.MeaningOfTemplates | crates/stackarr-cardigann/src/template.rs:99-251 | for every well-formed template and every context in which the items of its ranges are free of `{`, expanding the printed template succeeds and gives the value of the tree |
| TemplateErrors.UnclosedTagFails | crates/stackarr-cardigann/src/template.rs:99-110 | after any well-formed template and text, a tag that is not closed is an error |
| TemplateErrors.UnterminatedIfFails | crates/stackarr-cardigann/src/template.rs:175-217 | an `if` without an `end` of its own is an error, whatever its condition |
| TemplateErrors.UnterminatedRangeFails | crates/stackarr-cardigann/src/template.rs:221-251 | a `range` without an `end` of its own is an error, whatever its items |
| TemplateErrors.JoinWithoutSeparatorFails | crates/stackarr-cardigann/src/template.rs:387-395 | a `join` of a path without a separator is an error |
| TemplateErrors.StrayTagIsSkipped | crates/stackarr-cardigann/src/template.rs:160-163 | an `else` or `end` of no block contributes nothing |
| TemplateLimits.BracesDiverge | crates/stackarr-cardigann/src/template.rs:127-135 | with a category that spells out the template itself, no call stack is deep enough |
| TemplateLimits.RangeUnderIf | crates/stackarr-cardigann/src/template.rs:175-251 | a branch of an `if` with ranges, nested to any depth, and any text after it: an unterminated range if the condition holds, and otherwise the expansion of what follows the first `end` of a `range` |
| TemplateLimits.RangeUnderIfMeaning | crates/stackarr-cardigann/src/template.rs:99-251 | for every branch that is well formed but for its ranges, with or without an `else`: the value if and only if the condition does not hold and what follows the first `end`, at every level, comes to nothing; and what it expands to otherwise |
| TemplateLimits.RangeUnderElseMeaning | crates/stackarr-cardigann/src/template.rs:99-251 | likewise for the `else` branch, if and only if the condition holds and what follows comes to nothing |
| TemplateNests.NestExpands | crates/stackarr-cardigann/src/template.rs:99-251 | a nest of `if` blocks with ranges anywhere in its templates: the branches taken, as they are cut at the first ends that come, and then all that follows the last of these |
| TemplateNests.RangesUnderIfs | crates/stackarr-cardigann/src/template.rs:99-251 | for a nest of any depth: it has its value if and only if no piece read between those ends leaves a `range` open and what they bring in front comes to nothing, told from which conditions hold and from the templates |
| TemplateNests.RangeInInnerIf | crates/stackarr-cardigann/src/template.rs:99-251 | for two blocks and one `range` in the inner one: the value if and only if the outer condition holds, the inner one does not and nothing comes after the `range`, or the outer one does not hold and nothing comes after the inner block |
| TemplateMisread.LiteralScan | crates/stackarr-cardigann/src/template.rs:313-359 | the group of a path and a literal is closed if and only if the literal, read at depth one, is not cut and ends at depth one outside of quotes; and not cut if and only if the literal is not |
| TemplateMisread.MisreadValue | crates/stackarr-cardigann/src/template.rs:279-384 | what the splitter makes of any group that fails the scan, whatever follows it: false, or a panic when only the opening mark is left, or whether the left operand is empty |
| TemplateMisread.TrueIffScanned | crates/stackarr-cardigann/src/template.rs:254-384 | in every context in which an `and` of simple conditions holds, the evaluator finds it true if and only if each argument passes the scan |
| TemplateMisread.MeantIffScanned | crates/stackarr-cardigann/src/template.rs:254-384 | an `and` of simple conditions that holds in some context has its value in all contexts if and only if each argument passes the scan |
| TemplateMisread.FirstLiteralMisread | crates/stackarr-cardigann/src/template.rs:254-384 | for every first literal that fails the scan and any further arguments: a panic if only its mark is left, false if the path is not empty, and otherwise what the leftover arguments come to |
| TemplateMisread.ParenthesisInGroup | crates/stackarr-cardigann/src/template.rs:279-359 | `and (eq P "B)") Q` is true exactly when P is empty; so it has its meaning if and only if P is not empty and the condition does not hold |
| TemplatePanics.EqPanics | crates/stackarr-cardigann/src/template.rs:302-384 | `eq` panics, in whatever context, if and only if one of its first two arguments is a lone quote or a parenthesised `eq` with such an argument |
| TemplatePanics.ConditionPanics | crates/stackarr-cardigann/src/template.rs:254-286 | a condition panics if and only if the first argument of its `and` that is not true is one that panics |
| TemplatePanics.TagPanics | crates/stackarr-cardigann/src/template.rs:145-155 | a tag that stands for a text panics exactly when its `eq` or its `and` does |
| TemplatePanics.CheckedTag | crates/stackarr-cardigann/src/template.rs:112-170 | a tag without a lone quote in any `eq`, which can be told from its text alone, panics in no context, neither in its condition nor in its value |
| TemplatePanics.LoneQuotePanics | crates/stackarr-cardigann/src/template.rs:362-369 | a lone quote as second operand of `eq` panics |
| ImportTables.Database.Execute | crates/stackarr-import/src/lib.rs:404-416 | a statement takes effect as a whole or, once the connection fails, not at all |
| ImportTables.SafePrefixes | crates/stackarr-import/src/lib.rs:404-416 | a plan of safe statements keeps reference integrity wherever it is cut short |
| Imports.ImportSeriesFile | crates/stackarr-import/src/lib.rs:291-660 | the statements executed are a prefix of the import's plan, the whole of it unless the connection failed, and the result is the decision's; what a whole plan does to the tables is `ImportedSeries` |
| Imports.ImportMovieFile | crates/stackarr-import/src/lib.rs:663-922 | likewise for movies |
| Imports.SeriesImportKeepsIntegrity | crates/stackarr-import/src/lib.rs:404-622 | after every prefix of a series import, upgrade or not, every reference names an existing file of the right type |
| Imports.SeriesImportLinked | crates/stackarr-import/src/lib.rs:404-622 | pointers and `episode_files` agree at a stopping point if and only if it is not the one between the first two cleanup statements |
| Imports.MovieImportKeeps | crates/stackarr-import/src/lib.rs:735-881 | after every prefix of a movie import, integrity and agreement are kept |
| ImportEffects.SeriesDecided | crates/stackarr-import/src/lib.rs:291-404 | an import goes ahead exactly for the target of a known series, named by the queue or by the first number of the file; it replaces the target's file if there is one, and then needs the better quality and the root folder |
| ImportEffects.SeriesOutcome | crates/stackarr-import/src/lib.rs:291-404 | when a job is refused, skipped or done, in terms of the tables, each if and only if |
| ImportEffects.ImportedSeries | crates/stackarr-import/src/lib.rs:404-622 | after a complete import the target points to the new file and is linked to it; every further episode of the file is linked, and points to it if and only if its pointer is free after the cleanup; every other pointer and link is the old one without the replaced file |
| ImportEffects.SeriesRecords | crates/stackarr-import/src/lib.rs:404-635 | one line of history, one more for a replaced file, and an entry of the recycle bin exactly for a replaced file with a bin |
| ImportEffects.MovieDecided | crates/stackarr-import/src/lib.rs:663-735 | the decision and the result for a movie, each if and only if |
| ImportEffects.ImportedMovie | crates/stackarr-import/src/lib.rs:735-881 | after a complete import the movie points to the new file, and every other movie to what it did, without the replaced file |
| ImportEffects.MovieRecords | crates/stackarr-import/src/lib.rs:735-895 | likewise for the history and recycle bin of a movie |
| Scans.BuildIndex | crates/stackarr-import/src/lib.rs:1133-1151 | the loop over the library rows builds the index that `LastRowWins` describes |
| Scans.LastRowWins | crates/stackarr-import/src/lib.rs:1133-1151 | under every title and every lower-case folder the tables hold the id of the last row that has it, and nothing if no row has it |
| ScanMatching.MediaExtensions | crates/stackarr-import/src/lib.rs:157-162 | media files are those with one of nine extensions, in any letter case |
| ScanMatching.FolderNameExact | crates/stackarr-import/src/lib.rs:1143-1148 | the folder name of a row is the last segment of its path, without slashes after it |
| ScanMatching.OwnerExact | crates/stackarr-import/src/lib.rs:1201-1211 | a file belongs to the last row with its clean title; without one, to the last row whose folder has the name of its directory in any letter case; and otherwise to none |
| ScanMatching.ClassExact | crates/stackarr-import/src/lib.rs:1170-1258 | whether a file is no media file, below no root, without a row, tracked or new, each if and only if |
| Scans.ScanSeries | crates/stackarr-import/src/lib.rs:1118-1378 | counters, groups and statements of the walk are those of the specification, or a prefix of the statements if the connection failed; what they mean and do is `SummaryExact` and `ScanAdds` |
| Scans.ScanMovies | crates/stackarr-import/src/lib.rs:1381-1568 | likewise for movies |
| Scans.ScanConserves | crates/stackarr-import/src/lib.rs:1122-1128 | found = matched + unmatched + already tracked, and one entry per unmatched file |
| ScanMatching.SummaryExact | crates/stackarr-import/src/lib.rs:1122-1128 | each counter is the number of the files it stands for, and the unmatched paths are those of the files without a row, in the order of the walk |
| ImportEffects.ScanAdds | crates/stackarr-import/src/lib.rs:1267-1325 | after a complete scan of series or movies each new file has a row under its id; every episode it names, or the movie it belongs to, is linked to that id; a free pointer becomes the id of the first new file that stands for its row, and every other pointer, link and row is as it was |
| ScanProperties.ScanKeepsIntegrity | crates/stackarr-import/src/lib.rs:1269-1322 | after every prefix of a scan, integrity and agreement are kept |
| ScanProperties.ScanIsIdempotent | crates/stackarr-import/src/lib.rs:1152-1162 | a second scan of the same entries issues no statement and reports as tracked what the first matched or found tracked |
| ScanProperties.GroupsAreExact | crates/stackarr-import/src/lib.rs:1224-1251 | there is a group for a folder exactly when it has files without a match, and count, size, year, seasons and paths are those of these files |
| ScanProperties.GroupsConserve | crates/stackarr-import/src/lib.rs:1236-1237 | counts and sizes of all groups add up to those of all files without a match |
| ImportRuns.RunsKeepIntegrity | crates/stackarr-import/src/lib.rs:291-1568 | after any sequence of imports and scans, each stopped anywhere, every reference names an existing file of the right type |
| ImportRuns.CompletedRunsKeepLinks | crates/stackarr-import/src/lib.rs:291-1568 | in runs whose operations complete, every file pointer of an episode has its `episode_files` row |
| ImportRuns.MediaAfterImport | crates/stackarr-import/src/lib.rs:404-575 | a complete series import removes exactly the replaced row of `media_files` and adds exactly the new one |
| ImportRuns.ImportedFileIsRecognised | crates/stackarr-import/src/lib.rs:1152-1162 | a scan recognises an imported file if and only if the path the import stored is the one the scan looks for |
| ImportRuns.MediaAfterMovieImport | crates/stackarr-import/src/lib.rs:735-867 | a complete movie import removes exactly the replaced row of `media_files` and adds exactly the new one |
| ImportRuns.ImportedMovieIsRecognised | crates/stackarr-import/src/lib.rs:1415-1424 | a scan recognises an imported movie file if and only if the path the import stored is the one the scan looks for |
| HtmlEntities.EncodeIsMap | crates/stackarr-cardigann/src/filters.rs:171-179 | the five chained replacements are one map of characters |
| HtmlEntities.DecodeOfEncode | crates/stackarr-cardigann/src/filters.rs:157-179 | decoding what was encoded is decoding the original without its first replacement, that of `&amp;` |
| HtmlEntities.HtmlRoundTrip | crates/stackarr-cardigann/src/filters.rs:157-179 | decoding undoes encoding if and only if the text contains none of the six entities decoded later |
| HtmlPieces.DecodeMeans | crates/stackarr-cardigann/src/filters.rs:157-167 | a text written with the seven entities is decoded entity by entity, if no encoded ampersand stands right before a character that another entity goes on with |
| HtmlPieces.DecodedTwice | crates/stackarr-cardigann/src/filters.rs:157-167 | an entity whose ampersand is encoded is decoded twice: `&amp;lt;` gives `<` |
| DateFormats.ChainIsOnePass | crates/stackarr-cardigann/src/filters.rs:304-321 | on every format of multi-letter tokens and separators in which no tokens in conflict stand side by side, the fifteen chained replacements are one pass of a token map |
| DateFormats.ChainExact | crates/stackarr-cardigann/src/filters.rs:304-321 | on every format of multi-letter tokens and separators, the chain is the one-pass map if and only if no tokens in conflict (`yy` before a year, `MMM` or `MM` before a month, `MM` before `mm`) stand side by side |
| DateSingles.TokenConverts | crates/stackarr-cardigann/src/filters.rs:304-317 | each of the twelve tokens, on its own, becomes what a table says |
| DateSingles.SinglesConvert | crates/stackarr-cardigann/src/filters.rs:304-321 | in formats with `d`, `M` and `h` between blanks, each becomes the number without a leading zero, and every other token what the table says |
| Placeholders.BindingsAgree | scripts/convert_sql_placeholders.py:45-52 | for one list of arguments, binding by occurrence equals binding by number exactly when each placeholder takes the same argument |
| SqlScans.PiecesExact | scripts/convert_sql_placeholders.py:20 | the placeholders of a text are its only reading in which no digit is left behind a `$` or a placeholder |
| Placeholders.InOrderIsExact | scripts/convert_sql_placeholders.py:29-42 | for a literal without `?`, the numbers are 1 to n in order if and only if both bindings give the same query for all arguments |
| Placeholders.AuditIsExact | scripts/convert_sql_placeholders.py:29-52 | for any literal: the query is kept for all arguments if and only if the audit accepts it and it has no `?` of its own |
| SqlLiterals.LiteralsKeepTheirPlaces | scripts/convert_sql_placeholders.py:45-52 | the converted text has the same segments, text outside SQL literals unchanged, each SQL literal converted |
| SqlScans.LiteralExact | scripts/convert_sql_placeholders.py:21 | the literal at the start of a text is quoted, up to the next quote that no backslash takes along, or raw with at least one hash, up to the next quote with as many hashes |
| SqlScans.SegmentsExact | scripts/convert_sql_placeholders.py:21 | there is one way to read a text as literals and single characters |
| SqlScans.SqlExact | scripts/convert_sql_placeholders.py:22 | a literal counts as SQL if and only if one of five words stands in it, in any letter case, with no letter, digit or underscore beside it |
| SqlLiterals.ConvertIsIdempotent | scripts/convert_sql_placeholders.py:45-52 | converting twice is converting once |
| SqlLiterals.Issues | scripts/convert_sql_placeholders.py:29-42 | the loop reports exactly the flagged literals, in order, with their lines |
| SqlScans.FlaggedExact | scripts/convert_sql_placeholders.py:29-41 | a literal is flagged if and only if it is SQL and some placeholder is not numbered by its place |
| SqlScans.IssuesExact | scripts/convert_sql_placeholders.py:29-42 | every flagged literal is reported with the line on which it starts |
| SqlLiterals.ConvertSources | scripts/convert_sql_placeholders.py:55-89 | with one flagged literal no file changes; otherwise every file is converted and every query without its own `?` keeps its meaning for all arguments |
| LogBuffer.SharedBuffer.Push | crates/stackarr-core/src/log_buffer.rs:58-67 | the new state is the old one with the entry numbered and added, and the oldest dropped when full |
| LogBuffer.BufferHoldsNewest | crates/stackarr-core/src/log_buffer.rs:58-67 | after any pushes the buffer holds the newest entries, at most 20,000, each with the number of its push |
| LogBuffer.Consecutive | crates/stackarr-core/src/log_buffer.rs:58-67 | the numbers are consecutive and end at the last one given out |
| LogBuffer.AcceptsExact | crates/stackarr-core/src/log_buffer.rs:70-98 | the filters let through later numbers, levels equal but for letter case, and targets that begin with the one asked for |
| LogBuffer.EntriesExact | crates/stackarr-core/src/log_buffer.rs:70-106 | the result is ascending, matches the filters, and leaves a matching entry out only for `limit` newer ones |
| LogBuffer.Answer | crates/stackarr-core/src/log_buffer.rs:70-106 | an unfiltered answer holds the newest entries the client does not have, as many as fit |
| LogBuffer.NothingLost | crates/stackarr-core/src/log_buffer.rs:58-106 | over a whole run, a client resuming from its last entry receives every entry once and in order if and only if no round pushes more than an answer holds |
| LogBuffer.PageResumes | ui/src/pages/Logs.tsx:68-92 | a client resuming from `latestSeq` continues without a gap if and only if nothing was pushed between the two reads, the answer is large enough and the first entry is not among the new ones |
| LogBuffer.PageLosesNothing | ui/src/pages/Logs.tsx:68-92 | over a whole run, the page has received everything pushed before its last read, once and in order, if and only if nothing was pushed between two reads of an earlier answer, every round fits into an answer, and the first answer is not read from an empty buffer unless nothing is pushed before any read |
| LoginProtocol.Indexer.PerformLogin | crates/stackarr-cardigann/src/search.rs:118-279 | when a login is made or skipped, what it does to the flag, and when it fails |
| LoginProtocol.Indexer.Search | crates/stackarr-cardigann/src/search.rs:282-303 | flag, result and requests of a search are those of the protocol run without interruption, and the result is that of the last request |
| LoginProtocol.Indexer.FetchTorrentBytes | crates/stackarr-cardigann/src/search.rs:305-322 | likewise for a fetch |
| LoginResults.ResultIsLastReply | crates/stackarr-cardigann/src/search.rs:282-322 | for every login method, in every interleaving: a call that has ended reports releases, no releases, bytes or an error if and only if its last request was answered so, or its last login was refused |
| LoginResults.RepliesAreHeard | crates/stackarr-cardigann/src/search.rs:282-322 | every reply that is logged is that of a request of the same call |
| LoginResults.SearchOutcome | crates/stackarr-cardigann/src/search.rs:282-303 | result, flag and search requests of an uninterrupted search in terms of the method, the flag and the replies alone |
| LoginResults.FetchOutcome | crates/stackarr-cardigann/src/search.rs:305-322 | likewise for a fetch |
| LoginProtocol.Protocol | crates/stackarr-cardigann/src/search.rs:118-322 | for form logins, under any interleaving of any calls: no search or fetch before a login has succeeded, at most two logins and two searches per call, and no empty result without a fresh login unless another call cleared the flag |
| LoginProtocol.EmptyAfterFreshLogin | crates/stackarr-cardigann/src/search.rs:282-303 | without interruption, an empty result always comes from a search right after a forced login of the same call |
| LoginProtocol.CookieNeverCached | crates/stackarr-cardigann/src/search.rs:254-274 | under any interleaving with cookies, the flag stays unset, and every call that has ended has made exactly one login attempt and searched at most once |
| LoginProtocol.AloneIsARun | crates/stackarr-cardigann/src/search.rs:282-322 | the uninterrupted call is one of the interleavings, from any state of the others |
| LoginProtocol.ClearedByTheOtherSearch | crates/stackarr-cardigann/src/search.rs:290-303 | for any two searches among any calls, there is an interleaving in which one reports no releases and has not logged in again |
| LoginProtocol.FreshIffOneSearch | crates/stackarr-cardigann/src/search.rs:282-322 | for any calls: in every interleaving each empty result comes from a call that has logged in afresh, if and only if at most one of the calls is a search |
| Dispatch.OrderExact | crates/stackarr-download/src/manager.rs:70-88 | the candidates are exactly the enabled clients of the protocol, by priority and then by registration |
| Dispatch.OrderUnique | crates/stackarr-download/src/manager.rs:70-88 | there is only one such order |
| Dispatch.Manager.RemoveClient | crates/stackarr-download/src/manager.rs:43-51 | the clients of the id go, and the answer says whether there were any |
| Dispatch.Manager.SetEnabled | crates/stackarr-download/src/manager.rs:54-64 | the first client of the id changes, and nothing else |
| Dispatch.Manager.Grab | crates/stackarr-download/src/manager.rs:125-150 | for any answers: the clients tried are a prefix of the candidates, the result is the first success, and the grab fails only if all failed |
| Dispatch.AddKeepsOrder | crates/stackarr-download/src/manager.rs:31-40 | a new client comes in without changing the order of the others |
| Dispatch.DisableTakesOneOut | crates/stackarr-download/src/manager.rs:54-64 | disabling takes one client, and nothing else, out of the order |
| Dispatch.RemoveTakesItsOwnOut | crates/stackarr-download/src/manager.rs:43-51 | removing an id takes its clients, and nothing else, out of the order, the others at their new places |
| Categories.FromCaps | crates/stackarr-cardigann/src/categories.rs:18-62 | both tables hold exactly the declarations, in order, under either key |
| Categories.TablesAgree | crates/stackarr-cardigann/src/categories.rs:18-67 | c is listed under k as often as k under c |
| Categories.DeclaredInOrder | crates/stackarr-cardigann/src/categories.rs:18-62 | the lists under a key hold the declarations of that key, each once per declaration, in their order |
| Categories.FromNewznab | crates/stackarr-cardigann/src/categories.rs:70-80 | the loop collects, sorts and removes duplicates |
| Categories.LookupExact | crates/stackarr-cardigann/src/categories.rs:70-80 | the result is strictly sorted and holds exactly the categories listed under some of the ids |
| Categories.LessExact | crates/stackarr-cardigann/src/categories.rs:77-78 | one string is before another if it is a proper beginning of it, or has the smaller character where they first differ |
| Categories.LookupIsInverse | crates/stackarr-cardigann/src/categories.rs:65-80 | a category is found for a set of ids exactly when one of its own ids is in the set |
| JsonRows.FollowPath | crates/stackarr-cardigann/src/selector.rs:344-368 | the loop over the segments computes the path function, which leads where the steps of the path do (`PathExact`) |
| JsonSteps.PathExact | crates/stackarr-cardigann/src/selector.rs:344-368 | a path leads to a value if and only if the steps that its segments write do: fields of objects by name, and elements of arrays by position |
| JsonSteps.PrintedPath | crates/stackarr-cardigann/src/selector.rs:344-368 | likewise for the path printed from any steps |
| JsonSteps.EveryPath | crates/stackarr-cardigann/src/selector.rs:344-368 | every string is a path: there are steps that it follows in every value |
| JsonSteps.ParseIndexExact | crates/stackarr-cardigann/src/selector.rs:358 | an index is digits, perhaps after a plus sign, within the width of the type; leading zeros do not matter (`LeadingZeros`) |
| JsonSteps.BaseRowsExact | crates/stackarr-cardigann/src/selector.rs:198-210 | an array gives its items, any other value one row, and a path that leads nowhere none |
| JsonSteps.FieldExact | crates/stackarr-cardigann/src/selector.rs:252-260 | `..f` reads f of the parent that the row has, and of the row itself if it has none; any other path is read from the row |
| JsonRows.PathsCompose | crates/stackarr-cardigann/src/selector.rs:344-368 | path `p.q` is p followed by q |
| JsonRows.SelectRows | crates/stackarr-cardigann/src/selector.rs:198-233 | the nested loops compute the expanded rows |
| JsonRows.RowsInOrder | crates/stackarr-cardigann/src/selector.rs:215-230 | child j of parent i stands after all children of earlier parents, and is that child with its parent |
| JsonRows.ParentField | crates/stackarr-cardigann/src/selector.rs:252-260 | on an expanded object `..f` reads f of that row's own parent; on any other row it reads f of the row itself |
| ArchiveFiles.TitleIsSafe | crates/stackarr-download/src/embedded_usenet.rs:303-314 | the title part has at most 120 characters, all allowed |
| ArchiveFiles.SanitizedExact | crates/stackarr-download/src/embedded_usenet.rs:301-310 | a character that is allowed stays, and any other becomes an underscore |
| ArchiveFiles.TitleExact | crates/stackarr-download/src/embedded_usenet.rs:303-314 | the title part is the first 120 characters of what is left between blanks and dots |
| ArchiveFiles.MatchExact | crates/stackarr-download/src/embedded_usenet.rs:300-367 | for any two ids, a file is matched exactly when the id is the stem or ends it after a dash |
| ArchiveFiles.ArchiveIsOwn | crates/stackarr-download/src/embedded_usenet.rs:300-367 | for ids of equal length the lookup matches a file if and only if it is the job's own |
| ArchiveFiles.FindArchive | crates/stackarr-download/src/embedded_usenet.rs:353-371 | the first matching file of the directory is found, and none only if none matches |
| ArchiveFiles.GetItems | crates/stackarr-download/src/embedded_usenet.rs:143-262 | the items are the queue followed by the recent, finished entries of the history that are first of their id and not queued |
| ArchiveFiles.ReportedExact | crates/stackarr-download/src/embedded_usenet.rs:143-262 | the entries reported of the history are, in its order, exactly the recent and finished ones whose id neither the queue nor an earlier recent entry has |
| ArchiveFiles.NoDuplicates | crates/stackarr-download/src/embedded_usenet.rs:143-262 | no id is reported twice if and only if the ids of the queue are distinct |

## Left out

- TemplateConditions.ConditionMeaning: the arguments of each `and` have to pass the scan; when an argument that is itself an `and`, or an `eq` of a literal and a path in this order, fails it, the list is split differently (`WordsSplitExact`), but the evaluator may still come to the right value, and which of these do is not characterised.
- TemplateMisread.MeantIffScanned: an `and` that holds in no context is left open when its arguments fail the scan; it may be evaluated to false all the same.
- TemplateMeaning.MeaningOfTemplates: a well-formed template has tags spelled `{{x}}` or `{{ x }}`, conditions and expressions of the shapes of `Cond` and `Expr`, and no `range` below an `if`; a separator of `join` is in double quotes; the tags of one block are spelled alike; other spellings of blanks and an `eq` nested as an operand of `eq` are expanded by the model but given no tree.
- TemplateNests.RangesUnderIfs: blocks of the nest have no `else`, and an `if` with ranges in it does not stand after a `range` of the same branch; in these the tags of an inner block can become the `else` or the end of an outer one, and when the value is kept is not characterised.
- TemplateExpand.Terminates: asks for values without `{` even where no `range` runs over them, because in an arbitrary text an item can be written into the path of another `range`; which values with `{` still let the expansion end is not characterised.
- TemplatePanics.CheckedTag: speaks of one tag; an arbitrary template with items written into it can come to have tags that its text does not show.
- HtmlPieces.DecodeMeans: an encoded ampersand right before a character that another entity goes on with is covered only where a whole entity follows (`DecodedTwice`).
- DateSingles.SinglesConvert: the formats between the single letters have no tokens in conflict side by side; with one, `ChainExact` says what fails for formats without single letters.
- Placeholders.AuditIsExact: the script itself accepts literals with a `?` of their own; the lemma states what follows from it.
- LoginProtocol.Protocol: for form and post logins only; with cookies or an unsupported method there is no cached session to protect.
- LogBuffer.PageResumes: one poll of the page; the limit of 500 or 5,000 entries that the route applies is the parameter `limit`.
- ScanProperties.ScanIsIdempotent: library rows and files on disk are the same for both scans.
- Case mapping outside ASCII in `to_lowercase` and `to_uppercase`, and Unicode digits, words and letters in the Python script's regular expressions.
- Integer widths: ids, sizes and counts are unbounded, and so is the parenthesis depth of the argument splitter.
- The clock: `.Today` is part of the context, and whether a history entry is recent is an input.
- The upgrade check's quality decision, the release parser, naming, file moves and ffprobe are inputs of an import; a failure of any of them is a stop between two statements.
- Foreign keys of the schema and their actions: the statements alone are shown to leave no dangling reference, so the keys are never needed.
- History and recycle bin rows are statements without effect on the modelled tables; rows of `import_candidates` are not written.
- Concurrent imports: runs are sequences of operations.
- The order in which a hash map is traversed: the plain categories of an indexer are taken in any given order.
- Newznab names and their numbers: the table is a parameter of `FromCaps`.
- HTTP requests, HTML parsing and CSS selectors, and filters driven by regular expressions: replies are arbitrary inputs.
- Field filters and case maps of JSON rows.
- Logging, web routes, the user interface apart from how the log page resumes, other download clients, configuration and authentication.
