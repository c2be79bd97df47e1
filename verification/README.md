# HarcamaTakip expense ledger, modelled in Dafny

HarcamaTakip keeps a personal ledger of credit-card expenses.

- A Python parser reads an İş Bankası statement PDF. It joins wrapped lines
  into one line per transaction and picks out the date, the description
  and the amount of each.
- An Express/Prisma backend stores the transactions as expense rows. It
  derives each row's `YYYY-MM` month bucket from its `DD/MM/YYYY` date,
  answers a per-month summary grouped by category, creates categories and
  re-categorises expenses.
- Two maintenance scripts bulk-load parsed statement files. The
  incremental import skips rows already stored and applies the merchant
  mappings. The reset deletes every expense first and loads everything
  again.
- A seed script merges the retired "Araba" category into "Araç" and then
  upserts the ten default categories.
- An Angular dashboard turns the monthly summary and the yearly overview
  into figures: totals, percentages, averages, the top category and the
  top five of a year.
- An Angular expense list filters the loaded expenses by month and by
  category, updates one expense's category and deletes expenses.

The model follows each piece in its own form:

- The parser's string functions, the month derivation, the summary reduce
  and the page helpers are datatypes and functions, with lemmas about them.
- The parser's two loops (`collapse_lines` and the amount filter of
  `extract_txn`) are methods with loop invariants, proved against those
  functions.
- The database the backend and the scripts write is a class `Store.Store`.
  Its fields are the tables. Its methods are the handlers and the scripts'
  loops, proved equal to reference functions in `Ingest`, `Catalog` and
  `Summary`.
- Each page is a class whose fields are the component's fields. The
  expense list keeps its two expense lists as arrays, since the page
  writes into the shown list in place and the loaded list can be the very
  same array.

Modules:

- `Common`: JavaScript and Python string primitives (`split`/`join`,
  `padStart`, `parseInt`, `strip`, `find`, `rfind`, `replace`), and the
  default string order.
- `Ledger`: the row types and `parseMonth`.
- `Months`: the sorted list of months and the month label.
- `Ranking`: the stable sort by a numeric key, largest first, and
  `slice(0, n)`.
- `Summary`: the monthly summary reduce.
- `Ingest`: the upload loop and the two bulk imports, as functions.
- `Catalog`: category creation and the seed script, as functions.
- `Store`: the database object and the backend handlers.
- `Statement`: `parse_number`, `collapse_lines` and `extract_txn`.
- `DashboardPage` and `ExpensePage`: the two pages.

## Model

| member | source | states |
|---|---|---|
| Ledger.ParseMonth | backend/server.js:29-32 | the month bucket is refused (the destructuring leaves `month` undefined and `padStart` throws) exactly when the date holds no '/'; otherwise it is the third '/'-field, a dash and the second field left-padded with zeros to two characters |
| Ledger.ParseMonthFields | backend/server.js:29-32 | for a date joined from three or more '/'-free fields, the bucket is `fields[2] + "-" + pad(fields[1])` |
| Ledger.ParseMonthNoYear | backend/server.js:29-32 | for a date of exactly two '/'-free fields, the year reads "undefined" and the bucket is `"undefined-" + pad(month)` |
| Ledger.ParseMonthPadding | backend/server.js:31 | the month part of a bucket is at least two characters long; a field of two or more characters is kept as it is, and a one-character field gains a leading "0" |
| Ledger.PaddedAndUnpaddedAgree | backend/server.js:29-32 | "05/03/2024" and "5/3/2024" fall in the same bucket, "2024-03" |
| Ledger.MonthOfDate | backend/server.js:29-32 | a well-formed DD/MM/YYYY date's bucket is its year, a dash and its two month digits |
| Common.Split | backend/server.js:30 | `split` on one separator gives at least one piece, and no piece holds the separator |
| Common.SplitJoin | backend/server.js:30 | splitting a join of separator-free pieces gives the pieces back |
| Common.JoinSplit | backend/server.js:30 | joining the pieces of a split gives the string back |
| Common.PadStartZero | backend/server.js:31 | `padStart(n, '0')`: the string is kept as its suffix, and the length is the larger of n and its own |
| Common.ParseIntDigits | frontend/src/app/components/dashboard/dashboard.component.ts:1123 | `parseInt` of a string starting with decimal digits is the value of those digits, unless they are a lone "0" followed by "x" or "X" |
| Common.ParseInt | frontend/src/app/components/dashboard/dashboard.component.ts:1123 | `parseInt` without a radix; its contract is stated by ParseIntDigits and ParseIntHex |
| Common.ParseIntHex | backend/server.js:193 | after "0x" or "0X", `parseInt` reads the leading hexadecimal digits, and gives NaN when there is none |
| Common.Strip | parsers/isbank.py:21 | `strip()` gives the piece of the input left after removing white space at both ends: no white space remains at either end, and everything removed before and after it is white space |
| Common.StripUnchanged | parsers/isbank.py:21 | `strip()` leaves a string with no white space at either end as it is |
| Common.StripAllSpace | parsers/isbank.py:21-23 | `strip()` of an all-white-space string is empty |
| Common.StripKeepsPrefix | parsers/isbank.py:50 | stripping a line whose first character is not white space keeps its first characters |
| Common.LastIndexOf | parsers/isbank.py:29-30 | `rfind`: -1 exactly when the character is absent; otherwise an index holding it, with none after it |
| Common.Find | parsers/isbank.py:79 | `find`: -1 exactly when the needle occurs nowhere; otherwise its first occurrence |
| Common.RemoveCharAppend | parsers/isbank.py:34 | `replace(c, '')` distributes over concatenation |
| Common.LexLeqTotal | frontend/src/app/components/dashboard/dashboard.component.ts:1061 | the default `sort()` order relates any two strings one way or the other |
| Common.LexLeqAntisymmetric | frontend/src/app/components/dashboard/dashboard.component.ts:1061 | two strings ordered both ways are equal |
| Common.LexLeqTransitive | frontend/src/app/components/dashboard/dashboard.component.ts:1061 | the default string order is transitive |
| Months.Distinct | frontend/src/app/components/dashboard/dashboard.component.ts:1060 | `[...new Set(xs)]` holds no value twice and holds exactly the values of xs |
| Months.SortStrings | frontend/src/app/components/dashboard/dashboard.component.ts:1061 | `sort()` without a comparator is a permutation of its input |
| Months.SortStringsAscending | frontend/src/app/components/dashboard/dashboard.component.ts:1061 | `sort()` orders its result in the default string order |
| Months.SortStringsNoDup | frontend/src/app/components/dashboard/dashboard.component.ts:1061 | sorting a list without repeats gives a list without repeats |
| Months.ReverseDescends | frontend/src/app/components/dashboard/dashboard.component.ts:1061 | reversing a sorted list without repeats gives a strictly descending list |
| Months.AvailableMonths | frontend/src/app/components/dashboard/dashboard.component.ts:1056-1067 | the months offered are exactly the months of the expenses, each once, newest key first |
| Months.MonthName | frontend/src/app/components/dashboard/dashboard.component.ts:1119-1123 | month numbers 1-12 name the Turkish month; any other number, or none, renders as "undefined" |
| Months.MonthNumber | frontend/src/app/components/dashboard/dashboard.component.ts:1118-1123 | `parseInt(monthNum)` of the second '-' field, NaN when there is none; stated through FormatMonthKey |
| Months.FormatMonth | frontend/src/app/components/dashboard/dashboard.component.ts:1117-1124 | the label ends with the key's year (the text before its first '-') and holds more than the year |
| Months.FormatMonthKey | frontend/src/app/components/dashboard/dashboard.component.ts:1117-1124 | a key `year-MM` with month 1-12 is labelled with that month's name and the year |
| Months.FormatParsedMonth | frontend/src/app/components/expense-list/expense-list.component.ts:455-462 | the bucket the server derives from a D/M/YYYY date is labelled with the date's month name and year, whether or not the month was zero-padded |
| Ranking.SortBy | frontend/src/app/components/dashboard/dashboard.component.ts:1098-1102 | sorting by a key is a permutation |
| Ranking.SortByDescending | frontend/src/app/components/dashboard/dashboard.component.ts:1102 | the comparator `abs(b) - abs(a)` orders the result by key, largest first |
| Ranking.SortByHead | frontend/src/app/components/dashboard/dashboard.component.ts:1183-1187 | the sort is stable: it puts first the earliest entry with the largest key |
| Ranking.SortByMembers | frontend/src/app/components/dashboard/dashboard.component.ts:1098-1102 | sorting keeps exactly the entries it was given |
| Ranking.Take | frontend/src/app/components/dashboard/dashboard.component.ts:1246 | `slice(0, n)` is the first n entries, or all of them when there are fewer |
| Ranking.TakeLargest | frontend/src/app/components/dashboard/dashboard.component.ts:1240-1247 | in a descending list, an entry left out of the first n is no larger than any entry kept |
| Summary.GroupIndex | backend/server.js:148 | the own-key part of the `acc[name]` lookup: -1 exactly when no group has the key; otherwise the group with it. The inherited part is InheritedKey |
| Summary.InheritedKey | backend/server.js:146-148 | the twelve property names `{}` inherits from Object.prototype, for which `acc[name]` is truthy before any group exists |
| Summary.LabelOf | backend/server.js:147 | the category name, or "Kategorisiz" when there is no category or its name is empty; stated through UncategorisedGroup |
| Summary.AddToSummary | backend/server.js:147-153 | one turn of the reduce; its properties are SummaryStep and SumsAfterStep |
| Summary.Summarize | backend/server.js:146-154 | the reduce; its properties are SummarizeDescribes, SummarizeOwnKeys and SummaryTotals |
| Summary.SummarizeOwnKeys | backend/server.js:148-150 | the reduce never creates a group keyed by an inherited property name |
| Summary.SummarizeDescribes | backend/server.js:146-154 | the reduce has one group per label that occurs and is not an inherited property name, with distinct keys, and no other group. Each group's count and total are the number and the signed sum of the expenses with that label, and its colour is the first such expense's category colour |
| Summary.SummaryStep | backend/server.js:147-153 | one turn of the reduce keeps the description of the summary, including the turn of an inherited key, which changes no group |
| Summary.SummaryTotals | backend/server.js:146-154 | the group counts add up to the number of expenses whose label is not an inherited property name, and the group totals to the sum of their amounts |
| Summary.AllReported | backend/server.js:146-154 | when no label is an inherited property name, that is every expense and the sum of all amounts |
| Summary.SumsAfterStep | backend/server.js:151-152 | one turn adds one to the counts and the expense's amount to the totals, and nothing for an inherited key |
| Summary.UncategorisedGroup | backend/server.js:147 | as soon as one expense has no category, the "Kategorisiz" group exists and counts at least all such expenses |
| Store.ParseIntJson | backend/server.js:194 | `parseInt` of a JSON value: a number is truncated toward zero, a string goes through `parseInt`, anything else is NaN |
| Store.TargetOf | backend/server.js:194 | a falsy `categoryId` clears the category, and nothing else does; otherwise the target is `parseInt` of the value |
| Store.CategoryById | backend/server.js:195 | `include: { category: true }` joins the category with the row's id, or none when no category has it |
| Store.RowIndex | backend/server.js:192-193 | `where: { id }`: -1 exactly when no row has the id; otherwise a row with it |
| Store.MonthJoinedTotals | backend/server.js:141-144 | the month's joined expenses are exactly as many as the month's rows, with the same amount sum |
| Store.MonthSummaryTotals | backend/server.js:138-156 | the month summary's counts add up to the number of the month's rows whose category name is not an inherited property name, at most all of them, and its totals to their amount sum. When no category has such a name, that is every row of the month and its whole amount sum |
| Store.MonthJoinedReported | backend/server.js:141-147 | when no category is named after an inherited property, every joined expense of the month lands in a group |
| Store.UploadStops | backend/server.js:76-87 | the insert loop stops at its first exception: later transactions change nothing |
| Store.AddExpense | backend/server.js:147-153 | one turn of the reduce, written as the handler does it, equals the reference turn, including the inherited-key turn that leaves the groups as they are |
| Store.Store.constructor | backend/server.js:1-26 | the store starts with no rows, categories, mappings or stored uploads |
| Store.Store.Upload | backend/server.js:35-103 | no file: 500 "Upload failed". Falsy bank: 400. Bank with no parser: 400 "Parser for … not found". In both 400 cases the stored PDF stays. Otherwise the PDF is deleted. Nonzero exit: 500 with stderr. Output that is not JSON: 500, with the message `JSON.parse` threw as details. Otherwise the rows are the upload loop's result, answered in full or 500 at the first failure. Categories and mappings never change. The tables stay valid and both foreign keys keep holding |
| Store.Store.InsertOne | backend/server.js:77-86 | one create of the upload loop is the reference turn; nothing but the expense table changes |
| Store.Store.InsertAll | backend/server.js:75-87 | the loop equals the reference upload run; nothing but the expense table changes |
| Store.Store.MonthlySummary | backend/server.js:138-156 | the answer is the reduce over the month's rows joined with their categories, so no group for a category named after an inherited property |
| Store.Store.UpdateCategory | backend/server.js:187-202 | the update is served exactly when the id parses (decimal, or hexadecimal after "0x"), names a row and the target category exists (or is cleared). Then that row, and only it, gets the new category, and the answer joins its category. Otherwise it answers 500 and nothing changes. Ids stay valid |
| Store.Store.AddCategory | backend/server.js:174-184 | creating a category follows `CreateCategory`; rows, mappings and uploads do not change, the catalog stays valid and both foreign keys keep holding |
| Store.Store.ImportOne | backend/import-existing.js:37-70 | one record of a bulk run equals the reference turn; nothing but the expense table changes |
| Store.Store.ImportFile | backend/import-existing.js:35-73 | the per-record loop equals the reference loop, and `importedCount` is its count |
| Store.Store.ImportAll | backend/import-existing.js:26-78 | the per-file loop equals the reference loop, and `totalImported` is the sum of the per-file counts |
| Store.Store.ImportExistingData | backend/import-existing.js:13-81 | the incremental import equals `ImportExisting` over the stored mappings; the tables stay valid and both foreign keys keep holding |
| Store.Store.ClearAndReimportData | backend/clear-and-reimport.js:13-67 | the reset equals `ClearAndReimport`; the tables stay valid and both foreign keys keep holding |
| Store.Store.RunSeed | backend/seed.js:5-50 | the seed script equals `Seed` on categories and rows; the store stays valid when no merchant mapping points at "Araba" |
| Store.Store.RetireMerged | backend/seed.js:22-39 | the "Araba" merge equals `Retire`; on a valid store, the store stays valid exactly when no merchant mapping points at "Araba" |
| Store.Store.UpsertDefaults | backend/seed.js:41-47 | the upsert loop equals `SeedDefaults` over the ten defaults and keeps the store valid |
| Ingest.Insert | backend/server.js:77-85 | `expense.create` appends exactly one row with the next id and keeps the ids valid |
| Ingest.UploadStep | backend/server.js:77-86 | one create of the upload loop; stated through UploadRecordsRows and UploadStops |
| Ingest.UploadRecords | backend/server.js:75-87 | the upload loop; stated through UploadRecordsRows and UploadStops |
| Ingest.ImportStep | backend/import-existing.js:37-70 | one record of a bulk run; stated through RecordsExtend and ImportExistingRows |
| Ingest.ImportRecords | backend/import-existing.js:35-73 | one file's loop; stated through RecordsExtend, and in incremental mode through IncrementalRecordsRows |
| Ingest.ImportFiles | backend/import-existing.js:26-78 | the per-file loop; stated through FilesExtend, IncrementalFilesRows, IncrementalFilesFresh, IncrementalFilesCover and FilesNoOp |
| Ingest.ImportExisting | backend/import-existing.js:13-81 | the incremental import; stated through ImportExistingIdempotent and ImportExistingRows |
| Ingest.ClearAndReimport | backend/clear-and-reimport.js:13-67 | the reset; stated through ClearAndReimportRows |
| Ingest.Selected | backend/import-existing.js:21 | the filter keeps at most the entries it was given |
| Ingest.SelectedBySuffix | backend/import-existing.js:21 | exactly the entries whose name ends in `_harcamalar.json` are processed |
| Ingest.RecordsExtend | backend/import-existing.js:37-70 | a file's loop only appends rows, as many as it counts, with consecutive ids, the bank 'isbank' and the month derived from the date |
| Ingest.FilesExtend | backend/import-existing.js:28-78 | a bulk run only appends rows, never changing an existing one, and the rows appended number `totalImported` |
| Ingest.IncrementalKeepsKeysDistinct | backend/import-existing.js:39-49 | the dedup lookup on date, description, amount and bank keeps the stored keys distinct |
| Ingest.IncrementalFilesFresh | backend/import-existing.js:39-49 | every row the incremental import adds has a key no earlier row has |
| Ingest.IncrementalFilesCover | backend/import-existing.js:37-70 | after the incremental import, every accepted record of a readable file has its key stored |
| Ingest.FilesNoOp | backend/import-existing.js:37-70 | when every well-dated record is already stored, the import changes nothing and reports zero for each readable file |
| Ingest.ImportExistingIdempotent | backend/import-existing.js:13-81 | after a run in which every create succeeded, a second run over the same files adds nothing and reports zero |
| Ingest.ImportExistingRows | backend/import-existing.js:28-78 | the new rows are exactly the new records of the selected files (`NewFiles`: accepted, with a key neither stored before nor kept earlier in the run), one each, in order, and `totalImported` is their number. They carry the mapped category of their exact description (none without a mapping), the bank 'isbank' and their derived month; earlier rows are untouched |
| Ingest.StoredAfter | backend/import-existing.js:40-47 | after the import's rows for some kept records, a key is found exactly when it was stored before or a kept record carries it |
| Ingest.KeepNewStep | backend/import-existing.js:38-66 | one record is inserted exactly when it is accepted and its key is neither stored before the run nor kept earlier in it, and then it is appended as one row |
| Ingest.KeepNewRows | backend/import-existing.js:37-70 | the record loop appends exactly the records `KeepNew` keeps, in order, and `importedCount` is their number |
| Ingest.IncrementalRecordsRows | backend/import-existing.js:35-73 | one file of the incremental import appends exactly its new records, in order, and reports their number |
| Ingest.IncrementalFilesRows | backend/import-existing.js:28-78 | the incremental import appends exactly the new records of the readable files, file after file, in order |
| Ingest.ResetFilesRows | backend/clear-and-reimport.js:33-65 | the reset path has no dedup: every accepted record of every readable file becomes one row, in order |
| Ingest.ClearAndReimportRows | backend/clear-and-reimport.js:13-67 | after the reset the ledger holds exactly the accepted records of the selected files, uncategorised and of bank 'isbank', and their number is `totalImported` |
| Ingest.UploadRecordsRows | backend/server.js:75-87 | the upload loop appends exactly the rows it answers, in order. Row j is transaction j with id `nextId + j`, the request's bank, its derived month and no category. Without an error every transaction is inserted, duplicates included. With one, the rows before it stay, and the first transaction not inserted is one whose create fails or whose date has no '/' |
| Catalog.NameIndex | backend/seed.js:23 | `findUnique({ name })`: -1 exactly when the name is absent; otherwise the first category with it |
| Catalog.UpsertByName | backend/seed.js:25-29 | an existing name returns that category unchanged; a new name is appended with the next id and the given colour; the catalog stays valid |
| Catalog.CreateCategory | backend/server.js:174-184 | creation succeeds exactly when a name is given and not yet taken; the new category has the next id, the name and the colour; a refusal changes nothing |
| Catalog.Repoint | backend/seed.js:32-35 | `updateMany` moves every row of one category to the other and touches no other row |
| Catalog.Retire | backend/seed.js:22-39 | the "Araba" merge; stated through SeedCategories and SeedRepoints |
| Catalog.Merged | backend/seed.js:25-37 | the catalog after the merge; stated through MergedDropsRetired and MergedValid |
| Catalog.SeedDefaults | backend/seed.js:41-47 | the upsert loop; stated through the SeedDefaults lemmas |
| Catalog.Seed | backend/seed.js:5-50 | the seed script; stated through SeedCategories, SeedRepoints and SeedIdempotent |
| Catalog.SeedCategories | backend/seed.js:5-50 | afterwards no category is named "Araba", every default exists, and names and ids stay unique. Every category other than "Araba" is kept with its id, name and colour. Every added category is a default with its colour |
| Catalog.SeedRepoints | backend/seed.js:31-37 | every expense row is kept; those that pointed at "Araba" now point at the id of "Araç", and no other row changes |
| Catalog.SeedIdempotent | backend/seed.js:5-50 | running the seed script a second time changes nothing |
| Catalog.SeedDefaultsPrefix | backend/seed.js:41-47 | the upsert loop keeps every category there was, in place |
| Catalog.SeedDefaultsCovers | backend/seed.js:41-47 | after the loop every default name is present |
| Catalog.SeedDefaultsAdds | backend/seed.js:41-47 | every category the loop adds is a default with its colour |
| Catalog.SeedDefaultsNoOp | backend/seed.js:41-47 | once every default name is present, the loop changes nothing |
| Catalog.MergedDropsRetired | backend/seed.js:37 | after the merge no category is named "Araba" |
| Catalog.MergedValid | backend/seed.js:25-37 | the merge keeps names and ids unique |
| Catalog.RefersGrow | backend/seed.js:41-47 | a catalog that keeps every category in place keeps the expenses' and the mappings' foreign keys |
| Catalog.MergedKeepsIds | backend/seed.js:25-37 | after the merge every category id other than the one of "Araba" still exists |
| Catalog.MergedDropsId | backend/seed.js:37 | after the merge no category carries the id "Araba" had |
| Store.AppendUncategorised | backend/server.js:77-85 | appending uncategorised rows with consecutive ids from the counter keeps the ids increasing and the expenses' foreign key |
| Catalog.RetireRows | backend/seed.js:31-37 | repointing the expenses of "Araba" before deleting it keeps every expense's category existing |
| Catalog.RetireMappings | backend/seed.js:37 | the merge does not touch the merchant mappings, so they keep naming existing categories exactly when none of them names "Araba" |
| Ingest.ExtendsValid | backend/import-existing.js:55-64 | appending bulk rows with consecutive ids from the counter keeps the ids increasing and below the counter |
| Store.UploadKeepsKeys | backend/server.js:72-85 | the upload's rows keep the ids increasing and carry no category, so the expenses' foreign key keeps holding |
| Store.ImportExistingKeys | backend/import-existing.js:49-64 | when every mapping names an existing category, every row the incremental import creates does too, and the ids stay increasing |
| Store.ClearAndReimportKeys | backend/clear-and-reimport.js:17-58 | after the reset no row carries a category, so the expenses' foreign key holds whatever the categories, and the ids stay increasing |
| Store.RetireKeys | backend/seed.js:22-39 | the merge keeps the tables valid and the expenses' foreign key; the mappings' key survives exactly when no mapping names "Araba" |
| Statement.ParseNumberBlank | parsers/isbank.py:21-23 | a blank string is refused with "Boş sayı dizesi" |
| Statement.ParseNumber | parsers/isbank.py:13-43 | `parse_number`; its contract is stated by the ParseNumber and Example lemmas |
| Statement.ParseNumberUnchanged | parsers/isbank.py:21 | surrounding white space does not change the result |
| Statement.ParseNumberDecimal | parsers/isbank.py:25-43 | a sign, digits with separators, a last separator and digits give the signed value. The digits before the last separator are read with their separators dropped; those after it are the fraction |
| Statement.ParseNumberInteger | parsers/isbank.py:25-35 | a sign and plain digits give the signed integer value |
| Statement.LastSeparator | parsers/isbank.py:29-31 | the decimal position is the last '.' or ',' |
| Statement.ExampleCommaDecimal | parsers/isbank.py:16 | "1.234,56" gives 1234.56 |
| Statement.ExamplePointDecimal | parsers/isbank.py:17 | "1,234.56" gives 1234.56 |
| Statement.ExampleTwoPoints | parsers/isbank.py:18 | "0.014.99" gives 14.99 |
| Statement.ExampleNegative | parsers/isbank.py:19 | "-32,00" gives -32.0 |
| Statement.FloatDecimal | parsers/isbank.py:43 | `float` of digits, a point and digits is that decimal value |
| Statement.AmountParses | parsers/isbank.py:5 | every text the amount pattern matches parses without error |
| Statement.AmountDecimal | parsers/isbank.py:5 | a matched amount's value is its digits before the last separator, with separators dropped, plus two decimals, and its sign |
| Statement.CentsDigits | parsers/isbank.py:5 | the cents of an amount are the value of its digits with the separators dropped |
| Statement.Blocks | parsers/isbank.py:45-54 | lines are grouped into non-empty blocks, none when there are no lines |
| Statement.BlocksPartition | parsers/isbank.py:45-54 | the blocks, concatenated, are the input lines |
| Statement.BlocksByDate | parsers/isbank.py:48 | every block after the first starts with a dated line, no other line of a block is dated, and the first block starts with the first line |
| Statement.RenderExtend | parsers/isbank.py:52 | a continuation line is appended stripped after a space |
| Statement.CollapseLines | parsers/isbank.py:45-54 | one merged line per block, each the stripped dated line followed by its stripped continuations; every merged line but possibly the first starts with a date |
| Statement.CollapsedDates | parsers/isbank.py:45-54 | every rendered block but possibly the first starts with a date |
| Statement.StripDateLine | parsers/isbank.py:50 | stripping a dated line keeps its date |
| Statement.MatchLine | parsers/isbank.py:58-61 | a line matches only when it starts with a date, and a dated line without a newline always matches; the date is its first ten characters, and the rest is what follows with leading white space removed |
| Statement.PrefixBefore | parsers/isbank.py:67 | `rest[:i]`, where i = -1 drops the last character |
| Statement.ScanLimitWords | parsers/isbank.py:81-86 | the scan is true exactly when some limit word is found before the number, less than 40 characters away |
| Statement.NearLimitExists | parsers/isbank.py:82-86 | a number is too close exactly when some limit word's first occurrence is before it and less than 40 characters away |
| Statement.KeptTokens | parsers/isbank.py:76-89 | the loop keeps exactly the reference list of valid tokens |
| Statement.ValidTokensSound | parsers/isbank.py:76-89 | every kept token is a number that no limit word disqualifies, with its parsed value |
| Statement.ValidTokensKeep | parsers/isbank.py:76-89 | every number that no limit word disqualifies is kept |
| Statement.ValidTokensEmpty | parsers/isbank.py:91-92 | no valid token exactly when every number is disqualified |
| Statement.ValidTokens | parsers/isbank.py:76-89 | the reference list of kept numbers; stated by ValidTokensSound, ValidTokensKeep and ValidTokensEmpty |
| Statement.FirstKeyAt | parsers/isbank.py:103 | the cut position is the first occurrence of any MAXIPUAN key: -1 exactly when none occurs, otherwise no later than any key's first occurrence |
| Statement.Large | parsers/isbank.py:99 | the list holds exactly the valid tokens worth at least 1 in absolute value |
| Statement.FirstLargest | parsers/isbank.py:102 | `max` by absolute value picks the first of the largest |
| Statement.Select | parsers/isbank.py:94-109 | the choice among the kept numbers gives the line's date, an empty category and the value of one kept number |
| Statement.Extract | parsers/isbank.py:57-109 | a transaction comes only from a dated line, with that date and an empty category; a line with no instalment and no number gives none |
| Statement.ExtractInstalment | parsers/isbank.py:64-68 | an instalment match always gives a transaction, whatever the other numbers. Its amount is the instalment amount, and its description is the stripped text before that amount |
| Statement.ExtractPlain | parsers/isbank.py:105-107 | on a line without MAXIPUAN keys the result is absent exactly when every number is disqualified. Otherwise the amount is the first kept number's value, and the description is the stripped text before that number's first occurrence |
| Statement.ExtractMaxipuanNone | parsers/isbank.py:97-101 | a MAXIPUAN line gives nothing exactly when no kept number is worth at least 1 |
| Statement.ExtractMaxipuanAmount | parsers/isbank.py:97-104 | a MAXIPUAN line's description is the stripped text before the first key; its amount is that of a kept number worth at least 1 |
| Statement.ExtractMaxipuanLargest | parsers/isbank.py:99-102 | every kept number worth at least 1 is present, and none is larger in absolute value than the chosen amount |
| DashboardPage.Round | frontend/src/app/components/dashboard/dashboard.component.ts:1114 | `Math.round` of a non-negative value is the nearest integer, halves rounding up |
| DashboardPage.PercentOf | frontend/src/app/components/dashboard/dashboard.component.ts:1111-1115 | 0 when the total is 0; otherwise the share of absolute amounts in percent, rounded |
| DashboardPage.PercentAtMostHundred | frontend/src/app/components/dashboard/dashboard.component.ts:1111-1115 | a share no larger than the total is at most 100, and exactly 100 when equal |
| DashboardPage.Mean | frontend/src/app/components/dashboard/dashboard.component.ts:1145-1149 | 0 for no items; otherwise the value that, times the count, gives the total |
| DashboardPage.SortKeepsTotals | frontend/src/app/components/dashboard/dashboard.component.ts:1232-1238 | sorting the groups keeps the sum of their totals |
| DashboardPage.SortKeepsCounts | frontend/src/app/components/dashboard/dashboard.component.ts:1135-1138 | sorting the groups keeps the sum of their counts |
| DashboardPage.Dashboard.constructor | frontend/src/app/components/dashboard/dashboard.component.ts:1041-1047 | the page starts with no month chosen, no summary, no months and no yearly overview |
| DashboardPage.Dashboard.LoadAvailableMonths | frontend/src/app/components/dashboard/dashboard.component.ts:1056-1067 | a response sets the months to the distinct months of the expenses, newest key first; an error changes nothing |
| DashboardPage.Dashboard.LoadYearlySummary | frontend/src/app/components/dashboard/dashboard.component.ts:1069-1078 | a response replaces the yearly overview; an error changes nothing |
| DashboardPage.Dashboard.LoadSummary | frontend/src/app/components/dashboard/dashboard.component.ts:1080-1094 | no month chosen clears the summary; otherwise a response replaces it and an error keeps it |
| DashboardPage.Dashboard.SummaryItems | frontend/src/app/components/dashboard/dashboard.component.ts:1096-1103 | the summary's groups, as a permutation, largest absolute total first; none without a summary |
| DashboardPage.Dashboard.TotalAmount | frontend/src/app/components/dashboard/dashboard.component.ts:1105-1109 | the signed sum of the group totals; 0 without a summary |
| DashboardPage.Dashboard.TotalTransactions | frontend/src/app/components/dashboard/dashboard.component.ts:1135-1138 | the sum of the group counts, equal to that of the listed items; 0 without a summary. MonthFigures ties it to the month's rows |
| DashboardPage.Dashboard.ActiveCategories | frontend/src/app/components/dashboard/dashboard.component.ts:1140-1143 | the number of groups |
| DashboardPage.Dashboard.AverageTransaction | frontend/src/app/components/dashboard/dashboard.component.ts:1145-1149 | non-negative; 0 without transactions, otherwise times the transaction count it gives the absolute total |
| DashboardPage.Dashboard.Percentage | frontend/src/app/components/dashboard/dashboard.component.ts:1111-1115 | 0 when the total is 0; otherwise within a half of the amount's share of the absolute total, in percent |
| DashboardPage.Dashboard.TopCategory | frontend/src/app/components/dashboard/dashboard.component.ts:1183-1187 | "Yok" without groups; otherwise the earliest group with the largest absolute total |
| DashboardPage.Dashboard.MostActiveCategory | frontend/src/app/components/dashboard/dashboard.component.ts:1189-1196 | "Yok" without groups; otherwise the earliest group with the largest count |
| DashboardPage.Dashboard.MonthlyAverage | frontend/src/app/components/dashboard/dashboard.component.ts:1211-1214 | 0 without an overview or months; otherwise times the number of months it gives the grand total |
| DashboardPage.Dashboard.AllCategoriesSorted | frontend/src/app/components/dashboard/dashboard.component.ts:1216-1223 | the yearly category totals, as a permutation, largest absolute total first |
| DashboardPage.Dashboard.CategoryPercentage | frontend/src/app/components/dashboard/dashboard.component.ts:1225-1230 | 0 without an overview; otherwise the rounded share of the grand total |
| DashboardPage.Dashboard.YearTotal | frontend/src/app/components/dashboard/dashboard.component.ts:1232-1238 | 0 for a year the overview lacks; otherwise the signed sum of the year's category totals, whatever their order |
| DashboardPage.Dashboard.TopCategoriesForYear | frontend/src/app/components/dashboard/dashboard.component.ts:1240-1247 | at most five of the year's groups (all when fewer), largest absolute total first; no group left out is larger than one kept |
| DashboardPage.MonthFigures | frontend/src/app/components/dashboard/dashboard.component.ts:1105-1138 | with the summary the server answers for the chosen month, the total and the transaction count are the amount sum and the number of the month's expenses whose category name is not an inherited property name; with no such name, of all the month's rows |
| DashboardPage.ActiveAtMostTransactions | frontend/src/app/components/dashboard/dashboard.component.ts:1135-1143 | there are never more active categories than transactions |
| DashboardPage.GroupShareAtMostHundred | frontend/src/app/components/dashboard/dashboard.component.ts:1111-1115 | with no refunds in the month, a group's percentage is at most 100 |
| DashboardPage.TopCategoriesWithinYear | frontend/src/app/components/dashboard/dashboard.component.ts:1232-1247 | with no refunds, the top five add up to at most the year's total |
| ExpensePage.Select | frontend/src/app/components/expense-list/expense-list.component.ts:413 | `filter` keeps exactly the elements that pass, and no more than there were |
| ExpensePage.PassesCategory | frontend/src/app/components/expense-list/expense-list.component.ts:416-427 | the category filter; stated through Filtered |
| ExpensePage.SelectSubsequence | frontend/src/app/components/expense-list/expense-list.component.ts:413 | `filter` keeps the elements in their order |
| ExpensePage.SelectTwice | frontend/src/app/components/expense-list/expense-list.component.ts:409-427 | two filters in a row are one filter by both conditions |
| ExpensePage.Filtered | frontend/src/app/components/expense-list/expense-list.component.ts:408-430 | the shown expenses are exactly the loaded ones that pass both filters; with no filter, all of them |
| ExpensePage.FilteredSubsequence | frontend/src/app/components/expense-list/expense-list.component.ts:408-430 | the shown expenses keep the loaded order |
| ExpensePage.CountsPartition | frontend/src/app/components/expense-list/expense-list.component.ts:479-485 | categorised and uncategorised counts add up to the number shown |
| ExpensePage.RemoveId | frontend/src/app/components/expense-list/expense-list.component.ts:468 | exactly the expenses with another id remain, in order |
| ExpensePage.IndexOfId | frontend/src/app/components/expense-list/expense-list.component.ts:435 | `findIndex`: -1 exactly when no expense has the id; otherwise the first with it |
| ExpensePage.BankName | frontend/src/app/components/expense-list/expense-list.component.ts:446-453 | the three known banks get their display names; any other code is shown as it is |
| ExpensePage.ExpenseList.constructor | frontend/src/app/components/expense-list/expense-list.component.ts:362-367 | the page starts with two distinct empty lists, no categories, no months and no filters |
| ExpensePage.ExpenseList.LoadCategories | frontend/src/app/components/expense-list/expense-list.component.ts:376-385 | a response replaces the categories; an error changes nothing |
| ExpensePage.ExpenseList.LoadExpenses | frontend/src/app/components/expense-list/expense-list.component.ts:387-398 | a response becomes both the loaded and the shown list, one and the same array, and the months are recomputed; an error changes nothing |
| ExpensePage.ExpenseList.ExtractAvailableMonths | frontend/src/app/components/expense-list/expense-list.component.ts:487-490 | the months are the distinct months of the loaded expenses, newest key first |
| ExpensePage.ExpenseList.ApplyFilters | frontend/src/app/components/expense-list/expense-list.component.ts:408-430 | the shown list becomes a new array of the loaded expenses that pass both filters; the loaded list is untouched |
| ExpensePage.ExpenseList.OnMonthChange | frontend/src/app/components/expense-list/expense-list.component.ts:400-402 | the chosen month is set and the filters reapplied |
| ExpensePage.ExpenseList.OnCategoryFilterChange | frontend/src/app/components/expense-list/expense-list.component.ts:404-406 | the chosen category filter is set and the filters reapplied |
| ExpensePage.ExpenseList.UpdateCategory | frontend/src/app/components/expense-list/expense-list.component.ts:432-444 | the server's expense replaces the first shown expense with that id, in place; nothing else shown changes; the loaded list changes only when it is the same array |
| ExpensePage.ExpenseList.DeleteExpense | frontend/src/app/components/expense-list/expense-list.component.ts:464-477 | once confirmed and accepted, the expense leaves the shown list while the loaded list keeps it, and the months are recomputed from the loaded list |
| ExpensePage.ExpenseList.DeleteExpenseEverywhere | frontend/src/app/components/expense-list/expense-list.component.ts:464-477 | corrected delete: the expense leaves both lists and the months are recomputed without it |
| ExpensePage.ExpenseList.CategorizedCount | frontend/src/app/components/expense-list/expense-list.component.ts:479-481 | at most the number shown |
| ExpensePage.ExpenseList.UncategorizedCount | frontend/src/app/components/expense-list/expense-list.component.ts:483-485 | added to the categorised count, it gives the number shown |
| ExpensePage.DeletedExpenseReturns | frontend/src/app/components/expense-list/expense-list.component.ts:464-477 | as written, a deleted expense comes back on the next filter change whenever it passes the filters, and its month stays offered |
| ExpensePage.DeletedStaysGone | frontend/src/app/components/expense-list/expense-list.component.ts:464-477 | with the corrected delete, no filter shows the expense again and only months of remaining expenses are offered |

## Left out

- Input and output are left out: Express routing and JSON serialisation, multer's file storage, `spawn` of the parser and its stream events, `fs` reads, `readdirSync` and `existsSync`, `JSON.parse`, and console logging. The upload's parser run (exit code, parsed output, stderr), the directory listing and each file's parsed content are parameters.
- `parse_pdf` and pdfplumber's text extraction are left out (parsers/isbank.py:111-119, and the script entry below it). The model starts from the page's lines.
- The regular expressions `NUM_RE` and `TAKSIT_RE` are not implemented. `Statement.Extract` takes the instalment match and the number matches as inputs. They must satisfy the amount shape, which `Statement.AmountText` states.
- MatchLine: Python's `\d` in a text pattern matches every Unicode decimal digit, such as the Arabic-Indic ones. The model accepts the ASCII digits '0' to '9' only, so a line dated in other digits gives None here where the parser would match it.
- StartsWithDate: the same ASCII-only digit test decides which lines open a block in `collapse_lines`, so Statement.CollapseLines and Statement.Blocks treat a line dated in other digits as a continuation line.
- ParseIntJson: a JSON number is truncated exactly. JavaScript first prints it, and prints a magnitude of at least 1e21 or below 1e-6 with an exponent, of which `parseInt` reads only the digits before the point. A `categoryId` sent as a JSON array or object is not modelled.
- Statement.Float: Python's `float` also accepts exponents, "inf"/"nan" and digit underscores. The model accepts only plain decimal text (a sign, digits and one point) and refuses the rest, so a cleaned string of those other forms is refused where Python would give a value.
- Common.LexLeq: the default `sort()` compares UTF-16 code units. The model compares code points, which differ only for characters outside the Basic Multilingual Plane.
- Amounts are exact rationals, not IEEE doubles. Rounding in `float`, in sums and in the dashboard's divisions is not modelled.
- Object key order: the summary object is an association list in insertion order. JavaScript would list integer-like keys (a category named "2024") first, in numeric order. That affects the page only in how ties are broken.
- Store failures (a failed `create`, a dropped connection) are an oracle parameter. Concurrency between requests, transactions and Prisma's schema are left out. The unique category names are modelled. The two foreign keys into the categories, from the expenses and from the merchant mappings, are part of `Store.Store.Valid`; of the handlers, only `UpdateCategory` checks one itself (`TargetExists`).
- ImportStep: the database's own foreign-key check on `expense.create` is not modelled. A mapped id that names no category is inserted as it is, where the database would refuse the create. On a valid store no such id exists, which `Store.ImportExistingKeys` uses.
- RetireMerged: deleting "Araba" while a merchant mapping names it is decided by the schema's delete rule, which is not part of this model. The model deletes the category and keeps the mapping, and its contract states that the store then stops being valid.
- The listing endpoints (backend/server.js:106-135 and 163-172) and the server start-up are not part of this model. The yearly overview the dashboard reads has no endpoint in backend/server.js, so the dashboard takes it as given.
- The statistics printout after the reset (backend/clear-and-reimport.js:69-82) is logging only.
- `formatCurrency`, `getDailyTransactionCount`, `getCategoryIcon` and `getCategoryGradient` of the dashboard are presentation only. `ngOnInit`, `showYearlyView` and the templates are Angular wiring.
- In the expense list, the `confirm()` dialog and the server's answer to a delete are boolean parameters. The request body an update sends (`categoryId || null`) and the binding writes into the shown expense before the call are left out. `getBankName`'s lookup in an object literal would also answer for inherited keys such as "constructor"; the model covers only the three own keys.
- The upload component, the debug scripts and the expense service are not part of this model.

## Findings

| source | as written | input that shows it | evidently intended | confidence | as-written member | corrected member |
|---|---|---|---|---|---|---|
| frontend/src/app/components/expense-list/expense-list.component.ts:464-477 | a successful delete filters only the shown list; the loaded list keeps the expense, and the months are recomputed from it | load expenses [e], delete e, then change the month filter to "" | the deleted expense disappears from the page for good, and its month stops being offered if no other expense has it | not executed | ExpensePage.DeletedExpenseReturns | ExpensePage.DeletedStaysGone |
