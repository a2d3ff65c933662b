# Finance tracker: statement import, categorization and dashboard figures

This project models the core of a personal finance tracker (Whitekid123/finance-tracker). It is written in Dafny and proves properties of that model.

The tracker reads an exported bank statement. An export is a grid of cells from a spreadsheet or CSV reader. The tracker then does four things:
- It finds the header row and the date, debit, credit and narration columns. An OPay dump has no header row; for one of those it uses a fixed layout.
- It turns each remaining row into at most one raw transaction.
- It assigns each transaction a category by first-match keyword lookup.
- It stores the result and derives dashboard figures: income, expenses, net change, final balance, the five largest transfer recipients, and the per-category debit totals for the pie chart.

Modules follow the source files:

| module | file | source |
|---|---|---|
| `Types` | types.dfy | `src/lib/types.ts`: the enumerations, record shapes and the `CATEGORIES` table |
| `Store` | store.dfy | `src/lib/store.ts`: a class with a `transactions` sequence and the three actions |
| `Categorizer` | categorizer.dfy | `src/lib/categorizer.ts`: the ordered `KEYWORDS` table, the first-match search loop, `autoCategorize` |
| `FileUploader` | file_uploader.dfy | `processData` and `parseAmt` in `src/components/FileUploader.tsx` |
| `Dashboard` | dashboard.dfy | the `stats` and `topRecipients` memos and `finalBalance` in `src/components/Dashboard.tsx` |
| `ExpenseChart` | expense_chart.dfy | the `data` memo and the `COLORS` lookup in `src/components/ExpenseChart.tsx` |
| `Strings` | strings.dfy | the JavaScript string operations the core uses: `includes`, `toLowerCase`, `join`, `trim`, `replace(/p/i, '')`, `split(c)[0]`, `replace(/,/g, '')` |
| `Grouping` | grouping.dfy | `Record<string, number>` accumulation in key-insertion order, `Object.entries`, and the stable descending sort plus `slice(0, n)` |

The loops of the source are imperative methods, each proved against a specification function:
- the header search (`FileUploader.FindHeader`);
- the cell scan of a header row (`FileUploader.ScanHeaderCells`);
- the keyword search (`Categorizer.FindCategory`);
- the totals fold (`Dashboard.ComputeStats`);
- the `people` and `categoryTotals` accumulations (`Dashboard.TopRecipients` and `ExpenseChart.ComputeChartData`, both over `Grouping.Record`).

The pure `slice`/`map`/`filter` pipelines are functions.

The store is a class. `FileUploader.ProcessData` hands the categorized batch to the store, or leaves the store alone when it returns early.

### Where the code and its design description differ

The model follows the code in each of these cases:
- **Column indices carry over between header candidates.** The indices found in an earlier, insufficient candidate row are not reset before the next candidate row is scanned (`CarryOverExample`).
- **The "dr" and "cr" substrings also match.** "Description" therefore sets both the credit and the narration column, and a later "Description" header overrides an earlier "Credit" (`DescriptionShadowsCredit`).
- **Amounts can be negative.** A numeric cell is taken as it is, and a text such as "-5" parses to -5. For a row whose debit is not positive, the type is credit and the amount is the credit cell, which may be zero or negative. A negative debit with an empty credit cell therefore becomes a credit of 0 (`NegativeDebitBecomesZeroCredit`, `ExtractedAmountPositive`).
- **The narration column goes into `receiver`.** `description` is always "Imported OPay".
- **A grid with no header and no first row fails.** An empty grid, or a null first row, raises a `TypeError` at `firstRow[0]`. The model reports this as `Crashed`. On that path and on the early return the store is unchanged.

## Model

| member | source | states |
|---|---|---|
| Types.CategoriesInDeclarationOrder | src/lib/types.ts:28-39 | `CATEGORIES` has ten entries, lists every category once at its declaration position, and its names are pairwise distinct |
| Types.CategoryNamesDistinct | src/lib/types.ts:3-13 | the ten category literals are pairwise different strings |
| Types.CategoryColor | src/lib/types.ts:28-39 | the colour returned for a category is the one its `CATEGORIES` entry carries |
| Store.TransactionStore.constructor | src/lib/store.ts:16 | the collection starts out empty |
| Store.TransactionStore.SetTransactions | src/lib/store.ts:17 | the collection becomes exactly the given sequence, and nothing else changes |
| Store.TransactionStore.AddTransaction | src/lib/store.ts:18-20 | the new record is first, and the old collection follows unchanged and in order |
| Store.TransactionStore.ClearTransactions | src/lib/store.ts:21 | the collection becomes empty |
| Strings.ContainsJoin | src/components/FileUploader.tsx:28-30 | a space-free pattern occurs in the space-joined cells iff it occurs in one of the cells |
| Strings.Lower | src/components/FileUploader.tsx:28 | lower-casing keeps the length and maps each character separately |
| Strings.RemoveAll | src/components/FileUploader.tsx:82 | after removal no c is left, a character occurs in the result iff it occurs in the input and is not c, and the result is no longer than the input |
| Strings.RemoveAllSingle | src/components/FileUploader.tsx:82 | a single character is removed iff it is c, and kept otherwise |
| Strings.RemoveAllAppend | src/components/FileUploader.tsx:82 | removal distributes over concatenation; with the single-character case, every other character is kept in order and with its count |
| Strings.RemoveFirstSpec | src/components/Dashboard.tsx:51-52 | the first case-insensitive occurrence of the pattern is cut out; without an occurrence, the text is unchanged |
| Strings.BeforeFirst | src/components/Dashboard.tsx:53 | the result is the prefix before the first separator, or the whole text when there is no separator |
| Strings.TrimSpec | src/components/Dashboard.tsx:54 | trimming removes only white space, and only from the two ends; the result starts and ends with a non-space |
| Categorizer.KeywordLayout | src/lib/categorizer.ts:3-27 | the table has 32 entries; none maps to Salary or Uncategorized; the Internal keys sit at 27-29, before every Transfer key |
| Categorizer.FirstMatchWins | src/lib/categorizer.ts:34-41 | the category is that of the first entry whose key occurs in the text; it is Uncategorized iff no key occurs |
| Categorizer.FindCategory | src/lib/categorizer.ts:34-41 | the loop with `break` returns the first-match category |
| Categorizer.CategoryFromTable | src/lib/categorizer.ts:34-41 | the category is one the table assigns, or Uncategorized |
| Categorizer.CategoryFromEarlierEntry | src/lib/categorizer.ts:36-40 | if entry j occurs in the text, the result comes from entry j or an earlier one |
| Categorizer.NeverSalary | src/lib/categorizer.ts:3-27 | no text is categorized Salary |
| Categorizer.InternalBeforeTransfer | src/lib/categorizer.ts:22-26 | a text mentioning owealth, auto-save or saving is never categorized Transfer |
| Categorizer.SavingsIsInternal | src/lib/categorizer.ts:22-26 | "owealth auto-save transfer" is categorized Internal |
| Categorizer.SkipAvoided | src/lib/categorizer.ts:36-41 | table entries whose keys the text avoids do not affect the result |
| Categorizer.UberRideIsTransport | src/lib/categorizer.ts:8 | "uber ride" is Transport, through the earlier key "uber" |
| Categorizer.NoLettersUncategorized | src/lib/categorizer.ts:3-41 | a text without the letters a to w matches no key and is Uncategorized |
| Categorizer.UnknownReferenceUncategorized | src/lib/categorizer.ts:34 | "xyz123" is Uncategorized |
| Categorizer.ReceiverOf | src/lib/categorizer.ts:31 | the receiver when it is non-empty, else the description when that is non-empty, else "Unknown" |
| Categorizer.Categorize | src/lib/categorizer.ts:46-53 | date, amount and description are copied; the receiver follows the fallback chain; a missing type becomes debit; the category is the first-match category of the scanned text |
| Categorizer.AutoCategorize | src/lib/categorizer.ts:29-55 | one output per input, in order; output i depends only on input i and the clock reading at i |
| Categorizer.IdsDiffer | src/lib/categorizer.ts:48 | ids made for different indices differ, whatever the timestamps are |
| Categorizer.AutoCategorizeIdsDistinct | src/lib/categorizer.ts:48 | the ids of one batch are pairwise distinct |
| Categorizer.AutoCategorizeIsPointwise | src/lib/categorizer.ts:30 | equal inputs and clock readings at a position give equal outputs there |
| Categorizer.AutoCategorizeNeverSalary | src/lib/categorizer.ts:29-55 | no output is Salary, and every output has a type |
| Grouping.AddToExisting | src/components/Dashboard.tsx:55 | adding to a present key updates that entry in place |
| Grouping.AddToNew | src/components/Dashboard.tsx:55 | adding to an absent key appends a new entry at the end |
| Grouping.Record.constructor | src/components/Dashboard.tsx:47 | a new record is valid and has no entries |
| Grouping.Record.Bump | src/components/ExpenseChart.tsx:28 | adding an amount under a key keeps the record valid and updates its insertion-ordered entries as the grouping function does |
| Grouping.EntriesOfSpec | src/components/ExpenseChart.tsx:32 | `Object.entries` lists each key with its value, in insertion order |
| Grouping.GroupSumSpec | src/components/Dashboard.tsx:47-57 | grouped keys are distinct and are exactly the input keys; each value is its key's sum; keys appear in first-occurrence order |
| Grouping.GroupSumKeepsTotal | src/components/Dashboard.tsx:47-57 | grouping keeps the overall sum |
| Grouping.SortDescSpec | src/components/Dashboard.tsx:60 | the sort yields a non-increasing permutation of its input |
| Grouping.SortDescStable | src/components/Dashboard.tsx:60 | entries with equal amounts keep their relative order |
| Grouping.SortDescDistinct | src/components/Dashboard.tsx:60 | sorting keeps keys distinct |
| Grouping.TopSpec | src/components/Dashboard.tsx:60-61 | the first n entries after sorting: min(n, length) entries, non-increasing |
| Grouping.TopKeepsLargest | src/components/Dashboard.tsx:60-61 | no entry left out is larger than any entry kept |
| Grouping.TopEntries | src/components/Dashboard.tsx:60-61 | kept entries come from the input, and their keys stay distinct |
| Dashboard.ComputeStats | src/components/Dashboard.tsx:13-40 | the `forEach` fold yields the income, expenses and net change |
| Dashboard.NetChangeDecomposes | src/components/Dashboard.tsx:14-37 | net change = income - expenses + (Internal credits - Internal debits) |
| Dashboard.NetChangeWithoutInternal | src/components/Dashboard.tsx:14-37 | without Internal records, net change = income - expenses |
| Dashboard.AddTransactionEffect | src/components/Dashboard.tsx:43 | a new debit lowers the final balance by its amount, and a new credit raises it; income and expenses move only for non-Internal records |
| Dashboard.InternalOnlyMovesBalance | src/components/Dashboard.tsx:20-34 | an Internal record leaves income and expenses alone, and changes net change iff its amount is not zero |
| Dashboard.StatsExample | src/components/Dashboard.tsx:19-39 | an Internal debit of 1000, a food debit of 500 and an untyped 2000 give income 2000, expenses 500 and net change 500 |
| Dashboard.RecipientName | src/components/Dashboard.tsx:50-54 | a payee name holds no bar character and has no white space at either end |
| Dashboard.RecipientOfTransferTo | src/components/Dashboard.tsx:50-54 | "Transfer to X" names X trimmed, when X holds no bar character and no "POS Transfer-" |
| Dashboard.TopRecipients | src/components/Dashboard.tsx:46-62 | the loop over a mutable `people` record gives the top five of the grouped transfer payments |
| Dashboard.TopRecipientsSpec | src/components/Dashboard.tsx:46-62 | at most five entries, sorted non-increasing, with distinct non-empty names; each amount is the total paid to that name; each name comes from a debit Transfer record |
| Dashboard.EveryPayeeListed | src/components/Dashboard.tsx:49-55 | every debit Transfer record with a non-empty name appears among the recipients |
| Dashboard.TopRecipientsLargest | src/components/Dashboard.tsx:58-61 | the recipients left out paid no more than any recipient kept |
| Dashboard.RecipientTiesKeepOrder | src/components/Dashboard.tsx:58-60 | ties keep the first-payment order |
| Dashboard.RecipientsIgnoreOthers | src/components/Dashboard.tsx:49 | a record that is not a debit Transfer does not change the recipients |
| ExpenseChart.FillColor | src/components/ExpenseChart.tsx:59 | the `COLORS` entry for the name, else gray '#94A3B8' |
| ExpenseChart.SliceColors | src/components/ExpenseChart.tsx:8-16 | the fill is gray exactly for Entertainment, Fees, Internal and Uncategorized; otherwise it equals the `CATEGORIES` colour; Uncategorized's fill differs from its `CATEGORIES` colour |
| ExpenseChart.ComputeChartData | src/components/ExpenseChart.tsx:21-38 | the `forEach` into `categoryTotals`, then the entries that are above zero |
| ExpenseChart.ChartDataSpec | src/components/ExpenseChart.tsx:21-38 | one entry per category; a category is charted iff its debit total is above zero; its value is that total; order is first debit occurrence |
| ExpenseChart.ChartKeys | src/components/ExpenseChart.tsx:37 | a category is charted iff its debit total is positive |
| ExpenseChart.ChartAmounts | src/components/ExpenseChart.tsx:27-28 | each charted value is the sum of that category's debit amounts |
| ExpenseChart.KeepPositiveMembers | src/components/ExpenseChart.tsx:37 | the filter keeps exactly the entries above zero |
| ExpenseChart.CreditsNotCharted | src/components/ExpenseChart.tsx:26 | a non-debit record does not change the chart |
| ExpenseChart.InternalDebitCharted | src/components/ExpenseChart.tsx:24-29 | an Internal debit is charted although it counts for no expense on the dashboard |
| FileUploader.CellAt | src/components/FileUploader.tsx:86-87 | an index outside the row, -1 included, reads `undefined` |
| FileUploader.Slice | src/components/FileUploader.tsx:73 | `slice(k)` with k inside the grid is the suffix from k |
| FileUploader.Texts | src/components/FileUploader.tsx:34 | one lower-cased `String(cell)` per cell |
| FileUploader.LastMatchWins | src/components/FileUploader.tsx:33-39 | each index ends at the last cell whose label test passes, or keeps its earlier value when no cell passes |
| FileUploader.AssignColumnsStep | src/components/FileUploader.tsx:35-38 | one more cell sets exactly the indices whose test it passes |
| FileUploader.ScanHeaderCells | src/components/FileUploader.tsx:33-39 | the `forEach` over a header row computes the last-match assignment |
| FileUploader.ValueDateMatchesNothing | src/components/FileUploader.tsx:35 | "value date" is neither a date label nor any other label |
| FileUploader.WithdrawalIsDebit | src/components/FileUploader.tsx:36 | "withdrawal" is a debit label, through "dr", and no other |
| FileUploader.DescriptionIsCreditAndNarration | src/components/FileUploader.tsx:37-38 | "description" is both a credit label (through "cr") and a narration label |
| FileUploader.DescriptionShadowsCredit | src/components/FileUploader.tsx:33-39 | the header date, credit, debit, description gives credit column 3, the description column |
| FileUploader.CarryOverExample | src/components/FileUploader.tsx:16-46 | a debit index found in an insufficient candidate row survives into the next candidate row |
| FileUploader.HeaderCandidateByCells | src/components/FileUploader.tsx:28-30 | a row is a candidate iff some cell mentions "date" and some cell mentions debit, credit or withdrawal |
| FileUploader.HeaderLimit | src/components/FileUploader.tsx:25 | exactly the first min(rows.length, 20) rows are examined: all rows when there are fewer than 20, else 20 |
| FileUploader.HeaderIsFirstUsable | src/components/FileUploader.tsx:25-46 | the header is the first row after which the accumulated indices are usable; until then nothing is found |
| FileUploader.ScanStays | src/components/FileUploader.tsx:41-44 | after the `break`, later rows change nothing |
| FileUploader.FindHeader | src/components/FileUploader.tsx:16-46 | the loop with its mutable indices and `break` computes the header search |
| FileUploader.DetectSpec | src/components/FileUploader.tsx:16-67 | a header is one of the first 20 rows, a candidate with usable columns, and a usable candidate always yields a header; without one and with a first row, the headless layout applies iff cell (0,0) mentions a year and the early return happens iff it does not; it crashes iff there is no header and no first row |
| FileUploader.DetectLayout | src/components/FileUploader.tsx:16-67 | the header search, then the headless fallback, with the early return and the crash |
| FileUploader.MarkersAreNaN | src/components/FileUploader.tsx:79-83 | "", "-" and "--" are NaN to `parseFloat` too, so the explicit marker tests agree with the NaN-to-0 fallback of line 83 |
| FileUploader.ParseAmountSpecialCases | src/components/FileUploader.tsx:79-80 | a number is returned unchanged; "", "--", "-" and `undefined` give 0 |
| FileUploader.ParseAmountOfText | src/components/FileUploader.tsx:79-83 | a text other than the three markers is cleaned and parsed |
| FileUploader.ParseAmountIgnoresCommas | src/components/FileUploader.tsx:82 | commas never change the amount |
| FileUploader.ParseAmountOfNat | src/components/FileUploader.tsx:83 | the decimal text of n parses to n |
| FileUploader.ParseAmountOfNegative | src/components/FileUploader.tsx:83 | "-n" parses to -n |
| FileUploader.ParseAmountExample | src/components/FileUploader.tsx:78-84 | "1,234.50" parses to 1234.5 |
| FileUploader.ParseDecimalNoDigit | src/components/FileUploader.tsx:83 | a text without digits is NaN |
| FileUploader.UnsignedFraction | src/components/FileUploader.tsx:83 | digits, a point and digits read as the whole part plus the fraction |
| FileUploader.ExtractRow | src/components/FileUploader.tsx:74-106 | a row is dropped iff it is null or both amounts are 0; debit iff debit > 0, with amount debit, else credit with amount credit; the date text; the narration, or "Unknown" when falsy; description "Imported OPay" |
| FileUploader.ExtractRowsMembers | src/components/FileUploader.tsx:72-108 | the extracted records are exactly the surviving rows' records |
| FileUploader.ExtractRowsPosition | src/components/FileUploader.tsx:72-108 | each surviving row's record sits at its row's rank among the survivors, so order is kept |
| FileUploader.ExtractRowsAppend | src/components/FileUploader.tsx:72-108 | extraction distributes over concatenation of row blocks |
| FileUploader.ExtractedAmountPositive | src/components/FileUploader.tsx:98-102 | with non-negative cells, a surviving record's amount is positive |
| FileUploader.NegativeDebitBecomesZeroCredit | src/components/FileUploader.tsx:86-105 | a negative debit beside an empty credit cell yields a credit of 0 |
| FileUploader.HeadlessDebitRow | src/components/FileUploader.tsx:58-62 | an OPay row with an amount in column 3 and "--" in column 4 is a debit of that amount, paid to column 2 |
| FileUploader.ProcessData | src/components/FileUploader.tsx:15-114 | with a layout, the store receives the categorized extraction; on the early return or the crash, the store is unchanged |

## Left out

- File reading and parsing (`handleFileUpload`): `FileReader`, `XLSX` and `Papa.parse` are asynchronous I/O and foreign libraries. The model starts from the cell grid.
- The debug log (`setDebugLog`) and all rendering, including recharts, JSX and `toLocaleString` formatting, are React state or presentation.
- Persistence through zustand's `persist` and `localStorage` is library code. Only the in-memory actions are modelled.
- `String(number)` and the date text of a numeric spreadsheet serial (`new Date(...).toLocaleDateString()`) depend on the JavaScript engine and locale. They are parameters of the model.
- `Date.now()` is a parameter `clock`, read once per record.
- FileUploader.ParseDecimal: only the decimal grammar of `parseFloat` is modelled (white space, a sign, digits, a fraction). Exponents, "Infinity" and floating-point rounding are not.
- FileUploader.ParseAmount: amounts are exact reals. NaN cells, `Number(x) || 0` on a NaN, and floating-point sums are not modelled.
- Strings.LowerChar: only 'A' to 'Z' are lower-cased. Texts holding other characters that JavaScript lower-cases into ASCII (U+212A KELVIN SIGN becomes 'k', U+0130 becomes "i" plus a combining dot) are not modelled: "MAR\u212AET" is Shopping in the tracker but Uncategorized here.
- Sparse rows and `null` cells read as `undefined`. A numeric receiver cell is kept as its `String` text, not as a number.
- `Object.entries` is modelled as insertion order. JavaScript lists integer-like keys first. For recipients named like integers this changes the order of tied totals, and through `slice(0, 5)` it can change which of several tied recipients make the top five. Keys inherited through the prototype are not modelled.
- The `type` field is optional as in the source. The model's `TxnType` has only the two declared values, so no other string can appear.
