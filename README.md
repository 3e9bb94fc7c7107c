# Expense chatbot backend: statistics and replies

This project models the core of the expense chatbot's backend
(`my-react-app/smart-chatbot-backend/server.js`):

- the process-wide state `expenses` / `stats`;
- `loadExpenses`, which replaces the records with the rows of an uploaded CSV
  file and recomputes the statistics;
- `calculateStats`, which computes the total, the highest and lowest
  expense, the mean, the median of a copy sorted by amount, and the
  per-category totals, counts and averages;
- `generateResponse`, which lower-cases the user's message, picks the first
  rule of an `if`/`else` chain whose keywords occur in it, and answers from
  the statistics. The category question extracts a name from the message,
  matches it case-insensitively against the stored categories, and reports
  that category's total and average.

The modules follow the program's structure:

- `Wrappers` holds `Option` and `Result`.
- `Text` models `toLowerCase`, `includes` and `trim` on strings.
- `Expenses` holds the expense record and the statistics snapshot. The
  snapshot carries the key order JavaScript keeps for `categoryTotals`.
- `Statistics` holds the pure parts of `calculateStats`, each with a
  reference definition. It also holds the two loops over the categories, as
  methods proved against those definitions.
- `Store` is the state of the server as a class. `LoadExpenses` and
  `CalculateStats` update it in place.
- `Intents` models `generateResponse`.

A `TypeError` thrown by `generateResponse` is an `Err` value. There are three:

- `StatsMissing`: a rule reads a field of the empty `stats` object before
  anything was uploaded.
- `NoCategoryText`: `split(...)[1]` is `undefined`.
- `AverageMissing`: `categoryAverages[category]` is `undefined`.

The proofs cover:

- the folds: the first maximum and minimum, and the sum;
- the sort: sorted, a permutation, and stable (records of equal amount keep
  their input order);
- the median: its bounds, and that it is the same for every sorted
  permutation of the records;
- the tally loop: it builds exactly the grouping by original-case
  category, in first-occurrence order, and the counts and totals over the
  categories add up to the number of records and the overall sum;
- the averages;
- the keyword chain: it is exactly "first triggered rule";
- the text after the trigger phrase;
- the case-insensitive lookup, which is last-wins when several stored
  categories lower-case to the same name;
- the exact conditions under which each crash happens;
- the answers, which hold the snapshot's values;
- the lookup defect described under Findings.

## Model

| member | source | states |
|---|---|---|
| `Store.ExpenseStore.constructor` | my-react-app/smart-chatbot-backend/server.js:18-19 | the server starts with no records and no statistics, and the store is valid |
| `Store.ExpenseStore.LoadExpenses` | my-react-app/smart-chatbot-backend/server.js:22-46 | clears both globals, keeps the rows in file order, ends with no statistics for an empty upload and with the snapshot of the rows otherwise; the store stays valid |
| `Store.ExpenseStore.CalculateStats` | my-react-app/smart-chatbot-backend/server.js:49-89 | an empty list leaves `stats` untouched (early return); otherwise `stats` becomes the snapshot of `expenses`, and the records are not reordered; the store stays valid |
| `Store.ExpenseStore.Respond` | my-react-app/smart-chatbot-backend/server.js:110-114 | the `/chat` handler replies with `generateResponse` on the current statistics, and after an upload it never throws for missing statistics |
| `Statistics.SumFrom` | my-react-app/smart-chatbot-backend/server.js:52 | no contract of its own: the `reduce` left fold; `Statistics.SumFromIsSum` states what it computes |
| `Statistics.TotalExpenses` | my-react-app/smart-chatbot-backend/server.js:52 | no contract of its own: the fold from 0; `Statistics.SnapshotTotals` relates it to the reference sum |
| `Statistics.SumFromIsSum` | my-react-app/smart-chatbot-backend/server.js:52 | the `reduce` of the amounts from an accumulator equals the accumulator plus the reference sum |
| `Statistics.SumCons` | my-react-app/smart-chatbot-backend/server.js:52 | the reference sum, which adds the last record last, also splits off the first record |
| `Statistics.Highest` | my-react-app/smart-chatbot-backend/server.js:53 | no contract of its own: the maximum fold seeded with the first record; `Statistics.HighestIsFirstMaximum` states what it returns |
| `Statistics.Lowest` | my-react-app/smart-chatbot-backend/server.js:54 | no contract of its own: the minimum fold seeded with the first record; `Statistics.LowestIsFirstMinimum` states what it returns |
| `Statistics.MaxFold` | my-react-app/smart-chatbot-backend/server.js:53 | the maximum fold returns the seed or a record, no record's amount exceeds it and it is at least the seed |
| `Statistics.MinFold` | my-react-app/smart-chatbot-backend/server.js:54 | the minimum fold returns the seed or a record, no record's amount is below it and it is at most the seed |
| `Statistics.MaxFoldFirst` | my-react-app/smart-chatbot-backend/server.js:53 | the fold keeps the seed unless a strictly larger amount appears, and then returns the first record with the final amount |
| `Statistics.MinFoldFirst` | my-react-app/smart-chatbot-backend/server.js:54 | the fold keeps the seed unless a strictly smaller amount appears, and then returns the first record with the final amount |
| `Statistics.HighestIsFirstMaximum` | my-react-app/smart-chatbot-backend/server.js:53 | `highestExpense` is a record whose amount no record exceeds, and every earlier record is strictly smaller (ties go to the first) |
| `Statistics.LowestIsFirstMinimum` | my-react-app/smart-chatbot-backend/server.js:54 | `lowestExpense` is a record whose amount no record undercuts, and every earlier record is strictly larger |
| `Statistics.Insert` | my-react-app/smart-chatbot-backend/server.js:58 | no contract of its own: one insertion step of the sort; the lemmas below state what it does |
| `Statistics.InsertPermutes` | my-react-app/smart-chatbot-backend/server.js:58 | inserting a record into the sorted copy adds exactly that record |
| `Statistics.InsertSorted` | my-react-app/smart-chatbot-backend/server.js:58 | inserting into a list sorted by amount keeps it sorted |
| `Statistics.SortByAmount` | my-react-app/smart-chatbot-backend/server.js:58 | the copy is sorted ascending by amount and is a permutation of the records |
| `Statistics.SortOfSorted` | my-react-app/smart-chatbot-backend/server.js:58 | a list already in ascending order is left as it is |
| `Statistics.InsertKeepsTies` | my-react-app/smart-chatbot-backend/server.js:58 | inserting a record puts it before every record of the same amount and keeps their order |
| `Statistics.SortIsStable` | my-react-app/smart-chatbot-backend/server.js:58 | the sort is stable: the records of any one amount come out in their input order |
| `Statistics.AmountsPermute` | my-react-app/smart-chatbot-backend/server.js:58-62 | two permutations of the records have the same amounts with the same multiplicities |
| `Statistics.AscendingUnique` | my-react-app/smart-chatbot-backend/server.js:58-62 | two ascending lists of amounts with the same multiplicities are equal |
| `Statistics.SortedPermutationsAgree` | my-react-app/smart-chatbot-backend/server.js:58-62 | any two sorted orders of the same records have the same amount at every index |
| `Statistics.Median` | my-react-app/smart-chatbot-backend/server.js:59-62 | the median lies between the two middle amounts, with at least half of the records at or below it and at least half at or above it |
| `Statistics.MedianBetweenExtremes` | my-react-app/smart-chatbot-backend/server.js:53-62 | the median of the sorted copy lies between the lowest and the highest expense |
| `Statistics.MedianIndependentOfSort` | my-react-app/smart-chatbot-backend/server.js:58-62 | the median depends only on the sort being sorted and a permutation: every sorted permutation of the records gives the same median |
| `Statistics.MedianOddExample` | my-react-app/smart-chatbot-backend/server.js:59-62 | the median of [10, 20, 30] is 20 |
| `Statistics.MedianEvenExample` | my-react-app/smart-chatbot-backend/server.js:59-62 | the median of [10, 20, 30, 40] is 25, the mean of the two middle amounts |
| `Statistics.CategoriesSnoc` | my-react-app/smart-chatbot-backend/server.js:66-72 | one more record adds exactly its category to the set of categories |
| `Statistics.CountPositive` | my-react-app/smart-chatbot-backend/server.js:67-71 | a category occurs exactly when its count is positive, and an absent category has total 0 |
| `Statistics.GroupedSnoc` | my-react-app/smart-chatbot-backend/server.js:67-71 | one more record adds its amount and 1 to its category's entry (created at zero if absent) and changes no other entry |
| `Statistics.CategoryOrder` | my-react-app/smart-chatbot-backend/server.js:67-68 | no contract of its own: the order in which the loop first inserts each key; `Statistics.CategoryOrderSpec` and the two lemmas below state its properties |
| `Statistics.CategoryOrderSpec` | my-react-app/smart-chatbot-backend/server.js:67-68 | the key order holds exactly the categories that occur, each once |
| `Statistics.CategoryOrderPrefix` | my-react-app/smart-chatbot-backend/server.js:67-68 | the key order of a prefix of the records is a prefix of the key order: keys keep the position of their first insertion |
| `Statistics.CategoryOrderSnoc` | my-react-app/smart-chatbot-backend/server.js:67-68 | a record appends its category to the key order exactly when the category is new |
| `Statistics.TallyStep` | my-react-app/smart-chatbot-backend/server.js:67-71 | one loop iteration turns the grouping and key order of a prefix into those of the next prefix, in both branches of the `if` |
| `Statistics.TallyStepGrouped` | my-react-app/smart-chatbot-backend/server.js:67-71 | the two-step update (create at zero, then add) gives the reference entry |
| `Statistics.TallyCategories` | my-react-app/smart-chatbot-backend/server.js:65-72 | the `forEach` loop builds exactly the reference grouping and the first-occurrence key order |
| `Statistics.AverageCategories` | my-react-app/smart-chatbot-backend/server.js:74-77 | the `for...in` loop sets each category's average to its total over its count, for exactly the keys of the totals |
| `Statistics.SumOverUnchanged` | my-react-app/smart-chatbot-backend/server.js:65-72 | changing an entry outside the keys leaves the sum over the keys alone |
| `Statistics.SumOverReplace` | my-react-app/smart-chatbot-backend/server.js:65-72 | replacing the entry of one of several distinct keys trades the old entry for the new one in the sum |
| `Statistics.CategorySumsSnoc` | my-react-app/smart-chatbot-backend/server.js:66-72 | one more record adds its amount and 1 to the sum over all categories |
| `Statistics.CategorySums` | my-react-app/smart-chatbot-backend/server.js:65-72 | the category counts add up to the number of records and the category totals to the overall sum |
| `Statistics.GroupedCounts` | my-react-app/smart-chatbot-backend/server.js:67-71 | every category of the grouping has at least one record |
| `Statistics.Snapshot` | my-react-app/smart-chatbot-backend/server.js:80-88 | no contract of its own: the `stats` object built from a non-empty list; `Statistics.SnapshotTotals`, `Statistics.SnapshotCategories` and `Statistics.SnapshotConsistent` state its fields |
| `Statistics.SnapshotTotals` | my-react-app/smart-chatbot-backend/server.js:52-55 | the stored total is the sum of the amounts, and the average is that sum over the number of records |
| `Statistics.SnapshotCategories` | my-react-app/smart-chatbot-backend/server.js:65-88 | the stored category maps hold the exact counts, totals and averages per original-case category, with the same keys, adding up to the overall count and sum |
| `Statistics.SnapshotConsistent` | my-react-app/smart-chatbot-backend/server.js:80-88 | every snapshot keeps its key order, totals and averages in step |
| `Statistics.CaseVariantsStayApart` | my-react-app/smart-chatbot-backend/server.js:67-68 | records of "Food" and "food" give two separate keys |
| `Text.Lower` | my-react-app/smart-chatbot-backend/server.js:118 | lower-casing keeps the length, maps each character, and returns a lower-case string |
| `Text.LowerOfLower` | my-react-app/smart-chatbot-backend/server.js:133 | lower-casing a lower-case string changes nothing |
| `Text.LowerIdempotent` | my-react-app/smart-chatbot-backend/server.js:118 | lower-casing twice is lower-casing once |
| `Text.LowerSlice` | my-react-app/smart-chatbot-backend/server.js:133 | every piece of a lower-case string is lower case |
| `Text.Contains` | my-react-app/smart-chatbot-backend/server.js:120 | `includes` holds exactly when the pattern occurs at some index |
| `Text.ContainsPiece` | my-react-app/smart-chatbot-backend/server.js:120-146 | a message containing a keyword contains every piece of it |
| `Text.SkipSpaces` | my-react-app/smart-chatbot-backend/server.js:133 | the scan stops at the first non-whitespace character at or after its start |
| `Text.SkipSpacesBack` | my-react-app/smart-chatbot-backend/server.js:133 | the backward scan stops after the last non-whitespace character |
| `Text.Trim` | my-react-app/smart-chatbot-backend/server.js:133 | `trim` returns a contiguous slice with only whitespace cut away at each end and no whitespace left at either end |
| `Text.TrimOfLower` | my-react-app/smart-chatbot-backend/server.js:133 | trimming a lower-case string leaves it lower case |
| `Intents.TotalSynonyms` | my-react-app/smart-chatbot-backend/server.js:120 | the longer total keywords all contain "total" |
| `Intents.HighestSynonyms` | my-react-app/smart-chatbot-backend/server.js:122 | "highest expense" and "most expensive" are covered by "highest" and "most" |
| `Intents.LowestSynonyms` | my-react-app/smart-chatbot-backend/server.js:124 | "lowest expense" is covered by "lowest" |
| `Intents.AverageSynonyms` | my-react-app/smart-chatbot-backend/server.js:126 | the longer average keywords are covered by "average" |
| `Intents.MedianSynonyms` | my-react-app/smart-chatbot-backend/server.js:128 | "median expense" is covered by "median" |
| `Intents.FarewellSynonyms` | my-react-app/smart-chatbot-backend/server.js:146 | "goodbye" is covered by "bye" |
| `Intents.Classify` | my-react-app/smart-chatbot-backend/server.js:120-150 | the chain picks a rule whose keywords occur, and no earlier rule's keywords occur |
| `Intents.ClassifyIsFirstTriggered` | my-react-app/smart-chatbot-backend/server.js:120-150 | the first triggered rule is the only possible outcome of the chain |
| `Intents.SpentOnIsCategoryQuestion` | my-react-app/smart-chatbot-backend/server.js:120-132 | a message that says "spent on" and has no 'a', 'i' or 'l' and no "mo" (so no keyword of the six earlier rules) is a category question |
| `Intents.NextDelimiter` | my-react-app/smart-chatbot-backend/server.js:133 | the search for either trigger phrase finds the leftmost match at or after its start, or reports that there is none |
| `Intents.SecondField` | my-react-app/smart-chatbot-backend/server.js:133 | `split(...)[1]` is undefined exactly when neither phrase occurs; otherwise it is the text from the end of the first match to the next match or the end |
| `Intents.RequestedCategory` | my-react-app/smart-chatbot-backend/server.js:133 | no contract of its own: `split(...)[1].trim().toLowerCase()`; `Intents.RequestedCategoryIsTrimmedField` states what it returns |
| `Intents.RequestedCategoryIsTrimmedField` | my-react-app/smart-chatbot-backend/server.js:133 | on a lower-cased message the requested name is the trimmed second piece; the final `toLowerCase` changes nothing |
| `Intents.Normalize` | my-react-app/smart-chatbot-backend/server.js:134-136 | no contract of its own: the lower-cased copy of `categoryTotals`; `Intents.NormalizeKeys` and `Intents.NormalizeLast` state its keys and entries |
| `Intents.NormalizeKeys` | my-react-app/smart-chatbot-backend/server.js:134-136 | a name is a key of the normalised totals exactly when some stored key lower-cases to it |
| `Intents.NormalizeLast` | my-react-app/smart-chatbot-backend/server.js:134-136 | the normalised entry of a name is the entry of the last stored key that lower-cases to it |
| `Intents.LastLowerMatchExists` | my-react-app/smart-chatbot-backend/server.js:134-136 | if some key lower-cases to a name, there is a last such key |
| `Intents.FoundIffSomeKeyLowersToName` | my-react-app/smart-chatbot-backend/server.js:134-137 | on a snapshot, the name is found exactly when some category lower-cases to it, and then it carries the last such category's entry |
| `Intents.LookUpCategory` | my-react-app/smart-chatbot-backend/server.js:137-141 | as written: no match gives the not-found reply exactly when no category lower-cases to the name; the lookup crashes exactly when some category matches but no average is stored under the lower-cased name |
| `Intents.LookUpCategoryValues` | my-react-app/smart-chatbot-backend/server.js:137-138 | a found category's total is the last matching key's total, and its average is the one stored under the lower-cased name |
| `Intents.LookUpCategoryIntended` | my-react-app/smart-chatbot-backend/server.js:137-141 | corrected: never crashes, gives the not-found reply under the same condition, and otherwise reports the last matching entry's total and that entry's own average |
| `Intents.CategoryAnswer` | my-react-app/smart-chatbot-backend/server.js:132-141 | the category branch throws for missing text before it reads the snapshot, throws when nothing was uploaded, and throws on a missing average under exactly the stated condition |
| `Intents.CategoryAnswerIntended` | my-react-app/smart-chatbot-backend/server.js:132-141 | the corrected branch never throws for a missing average and throws in the other two cases as before |
| `Intents.Answer` | my-react-app/smart-chatbot-backend/server.js:120-150 | each rule's reply belongs to that rule, and each crash happens exactly where the rule reads what is missing |
| `Intents.GenerateResponse` | my-react-app/smart-chatbot-backend/server.js:117-151 | the reply comes from the first rule the lower-cased message triggers, and each of the three crashes happens exactly under its condition |
| `Intents.CaseInsensitive` | my-react-app/smart-chatbot-backend/server.js:118 | the reply does not depend on the case of the message |
| `Intents.FirstTriggeredRuleAnswers` | my-react-app/smart-chatbot-backend/server.js:120-150 | the reply is that of the first rule the message triggers |
| `Intents.TotalWins` | my-react-app/smart-chatbot-backend/server.js:120-121 | any message containing "total" gets the total, whatever else it asks, and crashes before an upload |
| `Intents.StatsIndependentReplies` | my-react-app/smart-chatbot-backend/server.js:130-150 | rules that read no statistics reply the same before and after an upload, and only a category question without a name throws |
| `Intents.RepliesOnSnapshot` | my-react-app/smart-chatbot-backend/server.js:120-129 | after an upload, no rule throws for a missing snapshot, and the replies carry the sum, the first maximum and minimum, the mean and the median of the sorted records |
| `Intents.LowerFood` | my-react-app/smart-chatbot-backend/server.js:135 | "Food" lower-cases to "food" |
| `Intents.MixedCaseCategoryCrashes` | my-react-app/smart-chatbot-backend/server.js:138 | with one record of category "Food", asking for "food" crashes in the average lookup |
| `Intents.MixedCaseMessageCrashes` | my-react-app/smart-chatbot-backend/server.js:117-138 | for any message that is classified as a category question and names "food", one record of category "Food" makes `generateResponse` throw in the average lookup |
| `Intents.HowMuchOnFoodIsCategoryQuestion` | my-react-app/smart-chatbot-backend/server.js:120-132 | "how much spent on food" triggers the category rule and no earlier one |
| `Intents.HowMuchOnFoodField` | my-react-app/smart-chatbot-backend/server.js:133 | `split(...)[1]` of "how much spent on food" is "food" |
| `Intents.HowMuchOnFoodCrashes` | my-react-app/smart-chatbot-backend/server.js:117-138 | after an upload of one record of category "Food", the message "how much spent on food" makes `generateResponse` throw in the average lookup |
| `Intents.IntendedAgrees` | my-react-app/smart-chatbot-backend/server.js:137-141 | where every matching key is the name itself and each average is its entry's mean, the corrected lookup gives the source's reply |
| `Intents.IntendedAgreesOnSnapshot` | my-react-app/smart-chatbot-backend/server.js:137-141 | on an upload whose matching categories are spelled as the name, the corrected lookup and the source agree |

## Left out

- The HTTP layer is not modelled, because it is I/O: the Express routes, CORS, JSON bodies, multer, the `.csv` extension check, the `uploads/` path, the port, and the separate chat front end.
- The CSV stream is not modelled, because it is I/O. `LoadExpenses` takes the parsed rows as a parameter. It appends them one by one, as the `data` events do, and then runs `calculateStats`, as the `end` event does.
- The asynchrony of `loadExpenses` is not modelled: the upload reply is sent before the `end` event, and a chat message in between sees empty or partial state.
- The stream's `error` path, which leaves `expenses` partly filled and `stats` empty, is not modelled.
- `fs.unlinkSync` and the console messages are not modelled.
- `new Date(row.Date)` is not modelled: a date is an opaque `int`.
- `parseFloat` is not modelled: amounts are exact reals, so NaN from an unparsable amount and floating-point rounding in the sums and averages are out of scope.
- A CSV row that lacks a column gives `undefined` fields in the source. Records here always have all fields.
- The reply text is not modelled, because it is formatting: `toFixed(2)`, `toDateString()` and the template strings. Replies are structured values holding the numbers and records they print.
- `Text.Lower` lower-cases ASCII letters only. It leaves out the full Unicode mapping of `toLowerCase`.
- `Statistics.SortByAmount` is a stable insertion sort standing in for the engine's `Array.prototype.sort`. The median depends only on the sort being sorted and a permutation (`Statistics.MedianIndependentOfSort`), so any correct engine sort gives the same statistics. The engine's algorithm itself is not modelled.
- Object keys are modelled as strings in first-insertion order. JavaScript lists integer-like keys (a category named "12") first in ascending order. That is not modelled: for such names the key order can differ from the source's, and so can which of two case variants `Normalize` keeps.
- A category that names a property every object inherits (`constructor`, `toString`, `__proto__`) is not modelled. In the source `categoryTotals[c]` at server.js:67 is already truthy for such a name, so no own key is created. Lines 70-71 then add to the inherited value's `total` and `count`, which become NaN, and those records reach neither `categoryTotals` nor `categoryAverages`: the category counts no longer add up to the number of records. For `__proto__` these writes land on `Object.prototype`, and the `for...in` at line 75 then also lists `total` and `count`. The model keeps every category as an ordinary own key, which is what `Statistics.CategorySums` relies on.
- A requested name such as "constructor" finds the inherited property at server.js:137 in the source, which then throws at line 138. The model gives the not-found reply for it.
- Every stored value is a `{ total, count }` object, and an object is truthy whatever it holds, so the tests at server.js:67 and 137 amount to key membership. The model tests membership.
- The empty object `{}` held before any upload is `None`. It reads any field as `undefined`, so every numeric rule throws; this is `StatsMissing`.
- A greeting before any upload is answered with the greeting, and so is every other rule that reads no statistics (`Intents.StatsIndependentReplies`). Nothing in `generateResponse` checks that an upload has happened: lines 121-138 read fields of `stats` unguarded, so before an upload each rule that reads a statistic throws a `TypeError`. The model follows the code. It keeps the crash as `StatsMissing` and proves exactly when it happens.
- The category name is taken only up to the next trigger phrase, not the whole text after the phrase (`Intents.SecondField`), because that is what `split(...)[1]` does. The model follows the code.
- The comments at server.js:133 (`// Normalize to lowercase`) and 135 (`// Normalize keys`) show a case-insensitive lookup is meant. The code lower-cases the keys of the totals only, and reads the average at line 138 under the lower-cased name from `categoryAverages`, whose keys keep their case. The model follows the code, and the difference is the finding below.

## Findings

| source | as written | input that shows it | evidently intended | confidence | as-written member | corrected member |
|---|---|---|---|---|---|---|
| my-react-app/smart-chatbot-backend/server.js:138 | the total is read from the case-normalised map, but the average is read from `stats.categoryAverages[category]`, whose keys keep their original case | one record of category "Food", then the message "how much spent on food": the category is found, `categoryAverages["food"]` is `undefined` and `.toFixed` throws | report the average of the entry found by the case-insensitive lookup | not executed | `Intents.HowMuchOnFoodCrashes` | `Intents.LookUpCategoryIntended` |
