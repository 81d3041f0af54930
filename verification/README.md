# hms-nhs-scripts in Dafny

This project models the data pipeline of the HMS NHS crowd-transcription project. Volunteers
transcribe pages of the Dreadnought Seamen's Hospital admission registers on Zooniverse.
The scripts turn the exports into a table and then a text file, in these steps:

- **extract.py** drives the extraction. It reads workflow versions and chooses the phases
  to run. It patches one task-label file. It checks that the configuration files of
  different versions agree. It concatenates the per-version extractions. Finally it checks
  that no register page is transcribed under two subject ids.
- **subjects.py** builds the subjects table from the subjects export. It reads volume and
  page from the scan file name, and the image location. It reports missing pages, adds
  supplementary subjects, and warns about numbers below 1 and about pages that several
  subjects claim.
- **strip_processed.py** drops the classifications of tasks that an earlier tranche
  already completed.
- **pick_volumes.py** keeps the classifications of a range of volumes.
- **clean_extraction.py** tidies transcribed place names. It logs the admission numbers
  found in them.
- **aggregate.py** decodes dropdown answers and joins the per-field columns. It then
  stamps each row with volume and page.
- **explicit_blanks.py** writes `BLANK` for an empty consensus.
- **mimsify.py** writes the joined table in the "mimsy" text format. It writes one line
  per register page, normalises dates, and flattens or refuses unresolved fields.
- **misc_scripts/redact.py** gives each user a stable 6-digit pseudonym.
- **misc_scripts/unguess.py** removes the "no best guess" marker from cells.

There is one Dafny module per script: `Extract`, `Subjects`, `StripProcessed`,
`PickVolumes`, `CleanExtraction`, `Aggregate`, `ExplicitBlanks`, `Mimsify`, `Redact` and
`Unguess`. Shared modules model what the scripts take from Python and pandas:

- `Strs`: string and character functions;
- `Seqs`: `drop_duplicates`, boolean masks and the stable `sort_values`;
- `Tables`: CSV frames, and the sort on task number that two scripts share;
- `ScanNames`: the scan-name regular expression `.*_(\d+)-(\d+)(?: \d)?\.jpg`, which
  aggregate.py and subjects.py both use;
- `Wrappers`: `Option` and `Result`.

Each regular expression is modelled as a scanner that follows Python's `re` for that
pattern: leftmost match, greedy repetition, non-overlapping `re.sub`, and `$` matching at
the end or before a final line feed. An exception, a `sys.exit` with an error, or an
unhandled pandas error becomes an `Err` or a failure value. Warnings written to standard
error become values that the functions return, with three exceptions (see "## Left out"):
the two warnings of aggregate.py:157 and aggregate.py:161, and the label diagnostics of
extract.py:152 and extract.py:155 when they are written during the configuration check.

Where the code loops and updates variables, the model is a method with a loop. The loop
is proved equal to a specification function, and the properties are proved about that
function:

- `DecodeDropdown` and `StampPages` in aggregate.py;
- `Normalize` and `Run` in mimsify.py;
- `DropdownLabelTransformer`, `ConfigCheckIdentity`, `ConcatenateExtractions` and
  `CheckDuplicates` in extract.py;
- `DumpMissing` and `MergeSupplements` in subjects.py;
- the in-place `replace` of explicit_blanks.py, on an array.

The module-level state of clean_extraction.py (`adminrefs`) and redact.py
(`redact.identities`) becomes a class whose methods update its field.

## Model

| member | source | states |
|---|---|---|
| `Extract.GetVersion` | extract.py:63-68 | A text that is not `major.minor` raises the "not in major.minor format" error for that text. |
| `Extract.GetVersionSound` | extract.py:65-68 | Every accepted text is two digit runs around a dot, and the result is their two integer values. |
| `Extract.GetVersionComplete` | extract.py:65-68 | Every text of the `major.minor` shape is accepted, with the integer values of its two parts. |
| `Extract.VersionRoundTrip` | extract.py:63-68 | A version written as `major.minor` is read back as the same pair. |
| `Extract.MinorIsNotAFraction` | extract.py:64-65 | "19.60" reads as (19, 60) and "19.6" as (19, 6): they are different versions, not one float. |
| `Extract.ParseAll` | extract.py:256-257 | A list of versions maps element-wise; the list fails exactly when some element fails. |
| `Extract.SelectOne` | extract.py:258-259 | A single `version` value gives the one-element list of its version, or the error it raises. |
| `Extract.SelectDetected` | extract.py:260-266 | With no `version` entry, the versions are read from the exported version strings, each distinct string once, in first-seen order. |
| `Extract.AllPhasesListed` | extract.py:24-33 | `DEFAULT_PHASES` lists every phase exactly once. |
| `Extract.IsFullMeaning` | extract.py:315 | A run counts as full exactly when every phase is requested, whatever the order or repetition. |
| `Extract.ReportedFacts` | extract.py:321 | The reported phases are exactly the requested ones, each once, in canonical phase order. |
| `Extract.ReportIgnoresOrder` | extract.py:321 | Two requests that name the same phases report the same list. |
| `Extract.StartRun` | extract.py:315-322 | A full run creates the output directory. Any other run reports its phases, and some phase is then missing from them. |
| `Extract.ReplaceAbsent` | extract.py:138 | A line without the pattern is written back unchanged. |
| `Extract.ReplaceWhole` | extract.py:138 | The pattern on its own becomes the replacement. |
| `Extract.ReplaceFirst` | extract.py:138 | The first occurrence of the pattern is replaced, the text before it is kept, and the scan goes on after it. |
| `Extract.ReplaceOne` | extract.py:138 | A text with one occurrence of the pattern gets exactly that occurrence replaced, and nothing else changes. |
| `Extract.FixLines` | extract.py:137-138 | Every line is rewritten by the substitution, and the number of lines is kept. |
| `Extract.ConfigFixups` | extract.py:131-138 | Only the task-label file of version 3.1 of workflow 18624 is patched, and only when that version is selected; it must then exist. All other files are untouched. |
| `Extract.FixupOnce` | extract.py:132-138 | When that version is selected once, the result is that file with every line patched. |
| `Extract.FlattenLabel` | extract.py:150-157 | A `.label` entry becomes its first inner value. A diagnostic is written exactly when the mapping has other than one entry, and another exactly when its key is not lower-case hex. An empty mapping raises. |
| `Extract.DropdownLabelTransformer` | extract.py:147-158 | The in-place loop over the entries computes the transformer's specification. |
| `Extract.TransformStep` | extract.py:149-157 | One more loop iteration either fails or adds exactly the next transformed entry and its diagnostics. |
| `Extract.TransformPrefixErr` | extract.py:149-157 | A failure on the first entries is the failure of the whole file. |
| `Extract.TransformMeaning` | extract.py:147-158 | The transformer succeeds exactly when every `.label` entry is a non-empty mapping. It keeps every key in place, flattens the `.label` entries and keeps the others. |
| `Extract.TransformLast` | extract.py:147-158 | A successful visit of one more key keeps the key in place and flattens it exactly when it is a `.label` key, given the visits before it. |
| `Extract.HexKeysIgnored` | extract.py:140-158 | Two dropdown task-label files that differ only in the hex keys of their labels dump to the same text. |
| `Extract.ExtractionTransform` | extract.py:160-164 | The transform succeeds exactly when the dump has a `workflow_version` entry, and fails with that error otherwise. The result keeps every other key with its value and drops only `workflow_version`. |
| `Extract.VersionBumpIgnored` | extract.py:160-164 | Two configurations whose dumps differ only in `workflow_version` compare as equal. |
| `Extract.CompareEach` | extract.py:178-192 | Comparing against the base records exactly the versions whose compared form differs from the base's, in order. |
| `Extract.ConfigCheckIdentity` | extract.py:145-197 | The loop over the three kinds of file computes the identity check's specification. |
| `Extract.CheckKind` | extract.py:173-192 | One kind of file: skipped for a single version, otherwise compared against the last version's file. |
| `Extract.CompareAgainstBase` | extract.py:178-192 | The inner loop computes `CompareEach`. |
| `Extract.CompareStep` | extract.py:190-191 | One more comparison either ends the whole comparison with the unreadable file's error or appends at most one bad comparison, for that version. |
| `Extract.ComparePrefixErr` | extract.py:190-191 | A failure on the first versions is the failure of the whole comparison. |
| `Extract.ChecksPrefixErr` | extract.py:168-192 | A failure on one kind ends the check. |
| `Extract.SingleVersionSkipped` | extract.py:173 | A workflow with one version passes without reading a file. |
| `Extract.IdentityDecision` | extract.py:167-197 | With two or more versions, the check passes exactly when, for each kind, every other version's file reads as the base file. |
| `Extract.OtherFieldRefused` | extract.py:181-187 | A workflow that is neither text nor dropdown fails the check (the `assert`). |
| `Extract.ChecksOfEmpty` | extract.py:194-197 | Several kinds find nothing together exactly when each finds nothing. |
| `Extract.CompareEachEmpty` | extract.py:178-192 | Comparing against a base finds nothing exactly when every file reads as the base. |
| `Extract.KindCheckEmpty` | extract.py:173-192 | With two or more versions, a kind passes exactly when every earlier version's file reads as the last one's. |
| `Extract.ConcatenateExtractions` | extract.py:211-217 | The concatenation loop computes its specification: the first output whole, then every other output without its header line. |
| `Extract.ConcatMeaning` | extract.py:211-217 | The result starts with the first output and has one line fewer per further output than the outputs together. |
| `Extract.BodiesLength` | extract.py:215-217 | Dropping the header of every file removes exactly one line per file. |
| `Extract.SupplementReport` | extract.py:367-372 | Every supplementary subject is reported, in order, as classified exactly when its id is among the used ones. |
| `Extract.FoundIn` | extract.py:359-361 | The ids found for a page are exactly the used ids of the subjects that claim it. |
| `Extract.CheckDuplicates` | extract.py:349-365 | The duplicate check loop, with the ids written as text, computes its specification. |
| `Extract.ReportsMeaning` | extract.py:358-364 | An error line is written for exactly the pages that two or more used subjects claim, with those subjects. |
| `Extract.DuplicateDecision` | extract.py:357-365 | The run exits with status 1 exactly when some page is claimed by two or more used subjects. |
| `Extract.AsWrittenSameVerdict` | extract.py:362-365 | As written, the check fails on the same inputs, but with a TypeError at the first offending page instead of the report. |
| `Extract.DuplicateReportLost` | extract.py:364 | A page claimed by two used subjects crashes with a TypeError as written, and gives the full report when corrected. |
| `Subjects.TranslateName` | subjects.py:18-29 | A matching scan name gives its volume, and its page less the volume's front matter (21, 28, −24 for volume 20, 2 above volume 30, 3 otherwise). Volume 6 raises, and so does a name that does not match. |
| `Subjects.TranslateParsed` | subjects.py:20-28 | A name the pattern reads is translated with its two numbers, unless its volume is 6. |
| `Subjects.TranslateNoMatch` | subjects.py:29 | Every name not of the pattern's shape raises. |
| `Subjects.VariantsCompared` | subjects.py:22-28 | The translations here and in aggregate.py agree on volumes up to 30 other than 6 and 20. They give different pages for volume 20 and volumes above 30. Volume 6 raises here and gets page '?' there. |
| `Subjects.TranslateLocation` | subjects.py:32-37 | The location is the single entry's text; anything else fails the `assert`. |
| `Subjects.ApplyAll` | subjects.py:62-63 | `apply` succeeds exactly when every row translates, and then gives each row's value in order. |
| `Subjects.ReadSubjects` | subjects.py:56-63 | Exact duplicate rows are dropped first; a subject id still repeated raises. A result holds one subject per remaining row, with its translated volume, page and location, and an export whose ids are distinct and whose rows all translate does read. |
| `Subjects.RepeatedRowHarmless` | subjects.py:60 | A row repeated exactly reads as it does once. |
| `Subjects.ConflictingRowsRaise` | subjects.py:60-61 | Two different rows for one subject raise, even when each is well formed. |
| `Subjects.Volumes` | subjects.py:42 | The distinct volumes, each appearing in some row. Their order is that of each volume's first row. |
| `Subjects.PagesOf` | subjects.py:40-45 | The pages of a volume are exactly the pages of its rows. |
| `Subjects.MissingBetween` | subjects.py:45 | The gaps are exactly the numbers between the lowest and highest page that no row has, ascending. |
| `Subjects.DumpMissing` | subjects.py:39-53 | The loop over volumes, corrected for a single-page volume, computes the missing-pages report. |
| `Subjects.ReportMeaning` | subjects.py:42-47 | A volume is reported exactly when it has a gap, with that gap. |
| `Subjects.GapMeaning` | subjects.py:43-45 | A reported page lies between the volume's lowest and highest page, and no row has it. |
| `Subjects.SinglePageRaises` | subjects.py:43-45 | A volume of one subject has no gap, yet the code as written raises on it. |
| `Subjects.AsWrittenAgrees` | subjects.py:42-47 | Where every volume has at least two rows, the code as written gives the intended report. |
| `Subjects.MergeSupplements` | subjects.py:68-74 | The merge fails exactly when some supplementary subject is already present. The error names the first such supplement, in the given order. Otherwise the supplements follow the subjects, and the ids stay distinct. |
| `Subjects.BelowOne` | subjects.py:79-82 | The rows warned about are exactly those whose volume (or page) is below 1, in table order and with repeats kept: the filter of the table by that test. |
| `Subjects.DuplicatesMeaning` | subjects.py:84-88 | A subject is listed as a duplicate exactly when another row claims its (volume, page); the list is in page order. |
| `Subjects.CreateMeaning` | subjects.py:56-100 | The corrected function succeeds exactly when the export reads and no supplement is already present. Its table is then a permutation of the subjects and supplements, sorted by id, with every id once. |
| `Subjects.AsWrittenUnbound` | subjects.py:67-100 | Where every volume has two or more rows, the function as written (with the missing-pages report as written at lines 67 and 77) returns the corrected result when some page is claimed twice, and raises at the return (unbound `dups`) when none is. |
| `Subjects.UnboundDupsRaises` | subjects.py:84-100 | Two subjects on pages 9 and 10 of volume 1: corrected, the call returns them with every report empty; as written it raises at the return. |
| `Subjects.ExampleName` | subjects.py:20-28 | "HMS_1-30.jpg" is volume 1, page 9. |
| `Subjects.ReadOne` | subjects.py:56-63 | A single well-formed row reads as its own subject. |
| `ScanNames.ParseSound` | subjects.py:20 | Every accepted name has the shape of `.*_(\d+)-(\d+)(?: \d)?\.jpg`, and the values are those of its digit groups. |
| `ScanNames.ParseComplete` | subjects.py:20 | Every name of that shape is accepted, with the values of its groups. |
| `StripProcessed.StripProcessed` | strip_processed.py:15-28 | Missing `subject_id` or `task` columns, a `complete` column of the file's own, or a bad task or classification id fail. Otherwise the columns are kept. |
| `StripProcessed.StripMeaning` | strip_processed.py:19-28 | A row is kept exactly when the tranche does not mark its task complete (unknown and NaN stay), as often as it occurs, in classification and task order. |
| `StripProcessed.StripIdentity` | strip_processed.py:23-28 | An empty tranche on a file already in order writes the file back unchanged. |
| `StripProcessed.OutputName` | strip_processed.py:30 | The output name is the input name followed by the suffix. |
| `Tables.SortByTask` | strip_processed.py:25-28 | The sort fails on a task without a number or a non-integer key. Otherwise it is the stable sort on (key, task number), with the original columns restored. |
| `Tables.SortByTaskMeaning` | explicit_blanks.py:19-22 | On rows read from the file, the result is a permutation in key order, rows of equal key keep their input order, and rows already in order stay in place. |
| `Seqs.SortStable` | strip_processed.py:27 | For every key, the elements of that key come out of the sort in their input order. |
| `Seqs.InsertStable` | strip_processed.py:27 | Inserting an element puts it in front of the elements of its own key and keeps their order. |
| `Tables.TaskNumberRoundTrip` | strip_processed.py:26 | `int(x['task'][1:])` reads back the number of a task label such as "T12". |
| `Tables.RestoreAllIdentity` | strip_processed.py:28 | Restoring the columns of rows read from the file gives them back unchanged. |
| `PickVolumes.Warnings` | pick_volumes.py:45-46 | The start warning is given exactly when no row has the first volume, the stop warning exactly when no row has the final volume. |
| `PickVolumes.PickVolumes` | pick_volumes.py:35-54 | Rows without a volume raise, naming the missing ids. Otherwise a warning is given exactly when the first (or final) volume has no row, the columns are kept, and the removed count is the input less the output. |
| `PickVolumes.MissingIds` | pick_volumes.py:41-44 | The named ids are exactly those of rows without a volume, each once. |
| `PickVolumes.PickMeaning` | pick_volumes.py:36-52 | The kept rows are exactly those whose volume lies between first and final inclusive, in their original order. |
| `PickVolumes.OriginalOrder` | pick_volumes.py:36-52 | Numbering, filtering, sorting on the numbers and dropping them keeps the original order. |
| `PickVolumes.AbsentVolumeOnlyWarns` | pick_volumes.py:45-50 | A first volume that no row has only adds a warning; the rows kept do not change. |
| `PickVolumes.OutputName` | pick_volumes.py:53 | The output name is the input name up to its first dot, followed by the suffix. |
| `CleanExtraction.Title` | clean_extraction.py:20 | `str.title()` changes only case. It raises a letter that follows no letter and lowers a letter that follows one. |
| `CleanExtraction.FixWordsMeaning` | clean_extraction.py:25-45 | The word fix-ups change only case, and only inside a whole word that is one of the listed words. |
| `CleanExtraction.FixFromWholeWords` | clean_extraction.py:25-45 | From any position on, every changed character lies in a listed whole word. |
| `CleanExtraction.FixWordsWholeWord` | clean_extraction.py:25-45 | Conversely, every whole word comes out as its own fix-up: "Of" becomes "of", "Usa" becomes "USA", and a word that is not listed is kept. |
| `CleanExtraction.FixFromReaches` | clean_extraction.py:25-45 | The scan from any position passes through every later word boundary, so from there on it writes what a scan started there writes. |
| `CleanExtraction.FixRunInstances` | clean_extraction.py:27-35 | The substitutions turn the word "Of" into "of" and "Usa" into "USA". |
| `CleanExtraction.SubInMatch` | clean_extraction.py:48-53 | Under the ellipsis, bracket and hyphen rules, every character of a match is recased: lowered by the first two, raised by the last. |
| `CleanExtraction.SubUncovered` | clean_extraction.py:48-53 | A character that no match covers is kept. |
| `CleanExtraction.HyphenNoneLeft` | clean_extraction.py:53 | After the hyphen rule, no hyphen is followed by a lower-case letter. |
| `CleanExtraction.BracketNoneLeft` | clean_extraction.py:49 | After the bracket rule, no bracket or apostrophe is followed by an upper-case letter. |
| `CleanExtraction.EllipsisNoneLeft` | clean_extraction.py:48 | After the ellipsis rule, no "..." is followed by an upper-case letter. |
| `CleanExtraction.ElisionRaised` | clean_extraction.py:52 | An elision match the scan reaches is raised: "l'" or "L'" becomes "L'", and the next letter becomes upper case. |
| `CleanExtraction.ElisionExample` | clean_extraction.py:52 | "L'orient" becomes "L'Orient". |
| `CleanExtraction.HyphenExample` | clean_extraction.py:53 | "West-ham" becomes "West-Ham". |
| `CleanExtraction.CaseWords` | clean_extraction.py:19-53 | The case phase changes only case, and a text of five or more words is not touched. |
| `CleanExtraction.FirstUpper` | clean_extraction.py:56 | A lower-case first letter (after an optional quote) is raised, and nothing else changes. |
| `CleanExtraction.TrailingNumber` | clean_extraction.py:60 | A number is found exactly when the text ends in a digit, or in a digit followed by one line feed. |
| `CleanExtraction.RemoveNumbersFrom` | clean_extraction.py:63 | Removing the numbers leaves no digit and never lengthens the text. |
| `CleanExtraction.Cleaner.Clean` | clean_extraction.py:8-69 | One call returns the cleaned text and adds the logged number, if any, to `adminrefs`. |
| `CleanExtraction.Cleaner.Finish` | clean_extraction.py:60-69 | From the number search on: a trailing number is added to `adminrefs` and the result is the text after the number, "No" and comma steps. |
| `CleanExtraction.CleanIgnoresSurroundingSpace` | clean_extraction.py:12 | Surrounding whitespace changes neither the cleaned text nor the logged number. |
| `CleanExtraction.LongTextKeepsCase` | clean_extraction.py:19 | A text of five words or more only has its first letter raised. |
| `CleanExtraction.CasedOnlyRecases` | clean_extraction.py:14-56 | Before the number step, the text differs from the stripped input only in case. |
| `CleanExtraction.NumberLeavesNoDigit` | clean_extraction.py:60-67 | When a number is logged, no digit is left in the cleaned text. |
| `CleanExtraction.RemoveNumbersIdentity` | clean_extraction.py:63 | A text without digits is unchanged by the number removal. |
| `CleanExtraction.SingleLineHasNoComma` | clean_extraction.py:67 | A one-line text has no comma once cut. |
| `CleanExtraction.AdminRefValue` | clean_extraction.py:60-62 | The logged number is the value of the digits the text ends with. |
| `Aggregate.DecodeCode` | aggregate.py:121-122 | `'None'` decodes to Python's None. Any other code decodes to the first label of its option entry; a missing entry and an empty entry each fail with their own error. |
| `Aggregate.Assign` | aggregate.py:121-122 | Dict assignment: an existing key keeps its place and takes the new count, and a new key goes last. Keys stay distinct. |
| `Aggregate.DecodeDropdown` | aggregate.py:113-125 | The loop over the selection's items computes the decoding specification. |
| `Aggregate.DecodeStep` | aggregate.py:120-122 | One more item either fails or adds its decoded key with its votes. |
| `Aggregate.DecodeAllPrefixErr` | aggregate.py:120-122 | A failure on the first items is the failure of the whole selection. |
| `Aggregate.DecodeAllOk` | aggregate.py:120-122 | Decoding succeeds exactly when every code decodes, and gives each in order. |
| `Aggregate.TallyMeaning` | aggregate.py:119-122 | The dict holds each decoded key once, in first-seen order, with the last vote count given for it. |
| `Aggregate.DecodeSpecMeaning` | aggregate.py:117-125 | Decoding raises unless there is exactly one selection mapping whose codes all decode. One distinct key gives that key; otherwise the result is the printed dict. |
| `Aggregate.TaskKey` | aggregate.py:107 | The task converter drops the first character of the task label. |
| `Aggregate.OuterJoin` | aggregate.py:138-139 | The outer join has exactly the keys of any column, and each key's row holds each column's value or NaN. |
| `Aggregate.AllKeysMeaning` | aggregate.py:138-139 | A key is in the join exactly when some column has it. |
| `Aggregate.TranslateFilenameShape` | aggregate.py:151-159 | A matching name gives its volume and page less 21, 28 or 3; volume 6 gives ('6', '?'). |
| `Aggregate.TranslateFilenameNoMatch` | aggregate.py:160-162 | A name that does not match gives ('?', '?'). |
| `Aggregate.FirstRecord` | aggregate.py:149 | `query(...).iloc[0]` finds a record of the subject when there is one, and fails only when there is none. |
| `Aggregate.StampPages` | aggregate.py:148-164 | The stamping loop fails exactly when some subject lacks metadata or does not have 25 rows. Otherwise every row gets its subject's volume and page, and rows of one subject get the same. |
| `Aggregate.StampStep` | aggregate.py:163-164 | Stamping one more subject keeps the rows of the subjects done so far right and makes that subject's rows right. |
| `Aggregate.StampDone` | aggregate.py:148-164 | After all distinct subject ids every row carries its subject's pages. |
| `Aggregate.NotStampable` | aggregate.py:163-164 | A subject without metadata or without exactly 25 rows makes the stamping fail. |
| `ExplicitBlanks.ReplaceBlanks` | explicit_blanks.py:16 | The in-place replace marks the consensus cell of every row and changes nothing else. |
| `ExplicitBlanks.ExplicitBlanks` | explicit_blanks.py:11-24 | One reduction file through the script gives its specification. |
| `ExplicitBlanks.MarkBlankMeaning` | explicit_blanks.py:16 | A cell changes exactly when it is whitespace only, and then reads BLANK; marking twice is marking once. |
| `ExplicitBlanks.ExplicitBlanksMeaning` | explicit_blanks.py:13-22 | The output keeps the columns and the row count, is in subject and task order, and is a permutation of the marked rows. No blank consensus is left. |
| `ExplicitBlanks.BlankRow` | explicit_blanks.py:16 | Only the consensus cell of a row can change; its columns are kept. |
| `Mimsify.ActiveFields` | mimsify.py:119-124 | The fields written are the standard ones not skipped, in order, with `Autoresolved` last when asked for. There are no repetitions. |
| `Mimsify.FieldsDistinct` | mimsify.py:9-23 | The standard fields are distinct and do not include `Autoresolved`. |
| `Mimsify.UnresolvedHeaderRemoved` | mimsify.py:41-46 | For an unresolved value the header match always exists and removes at least the first line. |
| `Mimsify.JoinLinesNoBreaks` | mimsify.py:48 | After the ` OR ` join no line break is left. |
| `Mimsify.JoinLinesOneLine` | mimsify.py:48 | A value on one line is not touched by the join. |
| `Mimsify.Flatten` | mimsify.py:46-48 | A flattened unresolved value has no line break. |
| `Mimsify.FlattenAlternatives` | mimsify.py:46-48 | A header line, the dashes and two alternatives with vote counts flatten to the two alternatives joined by ` OR `, without counts. |
| `Mimsify.HeaderFirst` | mimsify.py:46 | The header pattern matches the first line, the dashes and the line feed after them. |
| `Mimsify.HeaderGone` | mimsify.py:46 | Removing the header leaves exactly the text after the dashes line. |
| `Mimsify.DropHeadersNoDash` | mimsify.py:46 | A text without a dash is not changed by the header removal. |
| `Mimsify.CountLineDropped` | mimsify.py:47 | A ` @N` at the end of a line is removed, and the line before it is kept. |
| `Mimsify.DropCountsNoAt` | mimsify.py:47 | A text without ` @` is not changed by the count removal. |
| `Mimsify.TwoCountsDropped` | mimsify.py:47 | Two lines ending in vote counts lose exactly their counts. |
| `Mimsify.JoinTwoLines` | mimsify.py:48 | Two lines become one, joined by ` OR `. |
| `Mimsify.MonthOf` | mimsify.py:57 | `%b` reads exactly the twelve English month abbreviations, in any case. |
| `Mimsify.ParseDate` | mimsify.py:57 | Every accepted date is a real calendar date of the years 1 to 9999. |
| `Mimsify.FormatDate` | mimsify.py:58 | `%d-%m-%Y` writes two-digit day, two-digit month and the year, separated by dashes, with those values. |
| `Mimsify.ParseWritten` | mimsify.py:57-58 | Every date written as "Apr 01 1800", with a four-digit year, is read back as itself. |
| `Mimsify.FormatDateText` | mimsify.py:58 | A formatted date is digits and dashes only. |
| `Mimsify.NormalizeField` | mimsify.py:27-74 | The run stops at a field exactly when its stripped value is unresolved and `--unresolved` is off. Any value kept has no semicolon. |
| `Mimsify.NormalizeFieldWarnings` | mimsify.py:30-39 | A blank is reported exactly when warnings are on and no blank is expected. A non-blank port is reported exactly in volume 1. |
| `Mimsify.LaterWarnings` | mimsify.py:54-74 | After the blank and port checks come only bad-date and semicolon warnings. |
| `Mimsify.NormalizeFieldValue` | mimsify.py:53-69 | Dates that parse are written DD-MM-YYYY. Dates that do not are kept and warned about, blank dates stay blank, other fields are the stripped text, and `;` becomes `:`. |
| `Mimsify.NormalizeFieldFlattened` | mimsify.py:42-49 | A permitted unresolved value is flattened onto one line. |
| `Mimsify.Normalize` | mimsify.py:25-75 | The loop over the fields computes the row's normalisation; the first failure ends it. |
| `Mimsify.NormalizeSpecFailed` | mimsify.py:50-52 | A failure at some field is the failure of the row. |
| `Mimsify.NormalizeSpecMeaning` | mimsify.py:25-75 | A row normalises exactly when every field is a column and none is refused as unresolved. It then holds each field's value. |
| `Mimsify.SplitSemisConcat` | mimsify.py:86-87 | A semicolon between two texts separates their pieces. |
| `Mimsify.RowTextSplits` | mimsify.py:84-87 | A written row, split at its semicolons, gives back its `field, value` pairs. |
| `Mimsify.EndRow` | mimsify.py:139-148 | The run ends at the first row that `--pages` stops or that fails to normalise. |
| `Mimsify.RunEndsAt` | mimsify.py:126-153 | How the run ends: a finished run ends the text with a line break, a stopped one keeps the completed lines, and a failed one keeps what it wrote before the failing row. |
| `Mimsify.RunStateStep` | mimsify.py:139-148 | Writing one more row moves the page count, the current page, the text and the warnings on by that row. |
| `Mimsify.Run` | mimsify.py:126-153 | The main loop computes the run's specification. |
| `Mimsify.RunStep` | mimsify.py:142-148 | One more row adds its warnings and, when it starts a page, one to the page count. |
| `Redact.FreshName` | misc_scripts/redact.py:60-69 | The pseudonym is one of the ten draws whose user name is not yet taken. The call raises exactly when all ten are taken. |
| `Redact.Pseudonymiser.constructor` | misc_scripts/redact.py:95 | The map of identities starts empty. |
| `Redact.Pseudonymiser.RandomName` | misc_scripts/redact.py:60-69 | The draw loop computes `FreshName` over the stored user names. |
| `Redact.Pseudonymiser.Redact` | misc_scripts/redact.py:59-94 | One call returns the replacement cells and updates the map as specified, keeping the map valid. |
| `Redact.KnownUserStable` | misc_scripts/redact.py:80-83 | A stored user gets its stored user name and pseudonym back, and the map is unchanged. |
| `Redact.SameUserSameCells` | misc_scripts/redact.py:80-92 | Two rows of the same user get the same cells. |
| `Redact.NewUserKeyed` | misc_scripts/redact.py:71-78 | A new user is keyed by its id with prefix `name:`, or, when anonymous, by its IP address with prefix `anon:`. |
| `Redact.NewPseudonymFresh` | misc_scripts/redact.py:84-87 | A new pseudonym is one of the first ten draws, and its user name was not already given. |
| `Redact.CollisionsRaise` | misc_scripts/redact.py:62-69 | Ten colliding draws raise, and nothing is stored. |
| `Redact.RedactExtends` | misc_scripts/redact.py:80-87 | The map only grows, by at most one user, and stored users keep their names. |
| `Redact.RedactKeepsValid` | misc_scripts/redact.py:59-94 | Stored user names keep their shape and stay distinct. The only failure is running out of draws (the final `raise` cannot happen). |
| `Unguess.StripMarker` | misc_scripts/unguess.py:8 | A cell starting with the marker loses exactly that marker; any other cell is kept. |
| `Unguess.StripMarkerRoundTrip` | misc_scripts/unguess.py:8 | The marker followed by a text gives back the text. |
| `Unguess.StripMarkerOnce` | misc_scripts/unguess.py:8 | The anchored pattern removes the marker once, not repeatedly. |
| `Unguess.Truncate` | misc_scripts/unguess.py:8 | `int()` on a float truncates toward zero. |
| `Unguess.UnguessRow` | misc_scripts/unguess.py:5-8 | A row keeps its length, and each cell is rewritten in its place. |
| `Unguess.UnguessCellMeaning` | misc_scripts/unguess.py:8 | Quoted cells stay text and numbers become integers. A cell without the marker is kept, and integral numbers keep their value. |

## Left out

- Input and output are not modelled: reading and writing CSV, YAML and JSON files, printed
  progress messages, `argparse`, `os.mkdir`, subprocesses (the `panoptes_aggregation`
  calls, `diff`), `multiprocessing`, `git` and the tranche bookkeeping of extract.py. The
  model starts from parsed values and returns what would be written.
- The main loop of clean_extraction.py (lines 71-77) is not modelled: the `map` over the
  `data.text` column and the print of the sorted `adminrefs`. `Cleaner.Clean` models one
  call.
- The exact wording of messages is not modelled. Warnings and errors are datatype values
  carrying the data they print, except row numbers and file names. The label diagnostics
  of extract.py:152 and extract.py:155 name `config`, the loop variable of the enclosing
  function, rather than the file being transformed. When the base task-label file is
  transformed (extract.py:189), `config` still holds the last reduction file of the
  earlier pass, so that message names the wrong file.
- Randomness in redact.py is not modelled as such. `secrets.choice` is replaced by a
  sequence of draws passed in, each of six decimal digits.
- `\s`, `str.isspace()`, `str.strip()` and `str.split()` use Python's whitespace set: the
  ASCII whitespace, the separators `\x1c`-`\x1f`, and U+0085, U+00A0, U+1680,
  U+2000-U+200A, U+2028, U+2029, U+202F, U+205F and U+3000. The other character classes
  are ASCII: `\d`, `\w` and `str.title()` know only ASCII letters and digits. Non-ASCII
  letters count as uncased, non-word characters.
- `int()` in the model accepts optional surrounding whitespace, a sign and ASCII digits. It
  does not accept underscores or non-ASCII digits.
- `drop_duplicates` in subjects.py compares parsed rows instead of raw CSV text.
- Supplementary subjects are taken as well formed: distinct ids with integer volume, page
  and location, as the workflow definitions give them.
- strip_processed.py: the tranche file is taken to hold each (subject_id, task) pair once.
  The model reads it as a map; a repeated pair would make the join repeat rows.
- pandas behaviour on an empty frame (`apply` returning a frame without columns) is not
  modelled. An empty file goes through like any other.
- A sort column holding something other than integers is an error in the model. pandas
  would sort mixed types or raise, depending on them.
- strip_processed.py and explicit_blanks.py are modelled for files without a column named
  `index` or `tmp` of their own, where `reset_index` and the `tmp` column behave as
  intended. The same holds for pick_volumes.py: its `reset_index` (line 36) assumes the
  file has no `index` column of its own.
- OuterJoin: the join of aggregate.py:139 is a map from (subject id, task) to the row, so
  the row order of joined.csv is not modelled. mimsify.py:140-141 relies on that order
  (volumes and pages in order); `Mimsify.Run` takes the rows in whatever order it is given.
- Extract.ConfigCheckIdentity: the diagnostics that the dropdown label transformer writes
  while a task-label file is compared (extract.py:152 and extract.py:155, reached from
  extract.py:189-191) are not part of its result. `Comparable` keeps only the transformed
  entries, so `CompareEach`, `IdentitySpec` and `ConfigCheckIdentity` return the
  comparison outcome and not those warnings. `DropdownLabelTransformer` and `TransformSpec`
  do return them for one file.
- TranslateFilename: the warnings "Surprisingly met volume 6" (aggregate.py:157) and
  "does not match regular expression" (aggregate.py:161) are not returned; only the
  `('6', '?')` and `('?', '?')` values they come with are.
- `Seqs.SortBy` is a stable sort. Where pandas sorts on one column with repeated values,
  its default algorithm does not promise that order; the model fixes it as the input
  order.
- unguess.py: NaN and infinite floats, on which `int()` raises, are not modelled. A cell
  is a real number or a text.
- pick_volumes.py: the informational "Volumes in dataset", "Volumes taken" and "Removed"
  lines are not modelled. The removed count is returned instead.
- extract.py:287 writes `{extraction_name}.full.csv.new` but compares `.stripped.csv`. The
  script call is outside the model; `StripIdentity` states what that check intends.
- `Extract.Comparable`: a configuration file missing for a version is an error value. The
  real script fails inside `filecmp` or `open`.
- `CleanExtraction.StripNo` is stated weaker than the regex. It states only that the
  result is the text, or a prefix of its body followed by its final line feed, if any.
- `CleanExtraction.CutComma` is stated weaker than the regex. It states that a text without
  a comma on its last line is kept, and otherwise the same prefix shape as `StripNo`.
- `CleanExtraction.RemoveNumbersFrom` is stated weaker than the regex. It states that no
  digit is left and the text does not grow, not which whitespace goes with each number.

## Findings

| source | as written | input that shows it | evidently intended | confidence | as-written member | corrected member |
|---|---|---|---|---|---|---|
| extract.py:364 | `", ".join(found)` joins integer subject ids, which raises a TypeError. The error report is lost at the first page claimed twice. | duplicates ((1, 5), 100) and ((1, 5), 101), both ids used | One error line per page, listing the ids, then exit status 1 | not executed; high | `Extract.DuplicateReportLost` | `Extract.CheckDuplicates` |
| subjects.py:100 | `dups` is bound only inside the `if` at line 85. A table where no page is claimed twice raises UnboundLocalError at the return. | two subjects, "HMS_1-30.jpg" and "HMS_1-31.jpg", ids 1 and 2 | Return an empty duplicates table | not executed; high | `Subjects.UnboundDupsRaises` | `Subjects.CreateMeaning` |
| subjects.py:43-45 | For a volume with one row, `loc[v]` is a scalar, so `set(...)` of it raises TypeError. | one subject in volume 1, page 9 | Report no gap for that volume | not executed; medium | `Subjects.SinglePageRaises` | `Subjects.DumpMissing` |
