# ToolSathi core, modelled in Dafny

ToolSathi is a set of browser tools behind a small Express server. This
project models the deterministic logic inside them and proves what that logic
promises. The modelled parts are:

- **Usage ledger.** The `tool_usage` table of the server, one row per tool id,
  changed by the insert-or-increment upsert of `POST /api/usage/:toolId` and
  read back by `GET /api/usage`.
- **Usage dashboard.** It sorts the fetched rows by count and charts them under
  a Title Case name made from the kebab-case tool id.
- **Age calculator.** Year, month and day differences of two calendar dates,
  with the month-length-aware borrow.
- **Text statistics.** The keyword density table (tokenise, count, sort, keep
  the top twenty) and the word, character, paragraph and sentence counts with
  the reading time.
- **Financial calculators.** Compounding series, dollar-cost averaging, loan
  EMI, crypto profit, position size, risk : reward, and the three percentage
  relations. All are over exact reals, with powers on whole exponents.
- **Post-processing of generated text.** The comma-separated tags, the line
  lists of the title and hook generators with their list-marker cleaning, the
  JSON taken out of a code fence by the thumbnail analyzer, the score colour
  and verdict, and the meta description with its length badge and slug.
- **FAQ schema generator.** The editable list of question and answer pairs,
  and the JSON-LD `FAQPage` block, pretty-printed as `JSON.stringify(_, null, 2)`
  does it.
- **Sidebar.** Which of the five sections is highlighted for the current path.

Modules follow the source files, one per tool or page. Shared pieces live in
their own modules:

- `Wrappers`: optional inputs, JavaScript truthiness, `Math.abs`.
- `Text`: ASCII `trim`, `split`, `join`, `toLowerCase`, and splitting on runs
  of a character class.
- `Powers`: whole powers and geometric sums.
- `Json`: string escaping and the pretty printer.
- `GeneratedLines`: the line handling the title and hook generators share.

The source uses one of three styles, and the model keeps each:

- Where the source changes state step by step, the model is imperative:
  - the table is a class with a `map` field;
  - the dashboard sorts an `array` in place;
  - the compounding and keyword-counting loops are methods with invariants;
  - the age and DCA calculations are methods that reassign their locals as
    the source does;
  - the FAQ list is a class with a `seq` field.
- Where the source computes expressions, the model uses functions and
  lemmas.
- Each method is proved against a reference function, and the lemmas are
  stated about that function.

Inputs that a page parses from a text field are `Option<real>`: `None` stands
for an empty field or NaN. JavaScript's `!x` test is `Falsy`, true when the
value is absent or zero.

Things outside the model are taken as parameters:
- the generated text returned by the AI service (a string);
- `JSON.parse` (a function from string to the value it returns, or nothing
  when it throws);
- the outcome of a `fetch` (a datatype of network error, non-ok response, or
  rows).

## Model

| member | source | states |
|---|---|---|
| UsageLedger.UpsertConsistent | server.ts:14-20 | an upsert keeps the schema's invariant: each row under its own `tool_id`, count at least 1, a distinct `id` already handed out by the AUTOINCREMENT sequence |
| UsageLedger.UpsertEffect | server.ts:38-47 | a POST for an id with no row adds exactly one row, with count 1 and an `id` above every existing one; for an existing row it adds 1 to the count, keeps the `id` and adds no row; every other row is unchanged |
| UsageLedger.Upsert | server.ts:40-44 | the upsert leaves rows for exactly the old ids plus the posted one, adds 1 to the posted id's count, and never moves the AUTOINCREMENT counter back |
| UsageLedger.UpsertCounts | server.ts:41-43 | an upsert adds 1 to its own id's count and leaves every other id's count alone, for any table |
| UsageLedger.ReplayConsistent | server.ts:38-47 | any sequence of POSTs keeps the table consistent |
| UsageLedger.ReplayCounts | server.ts:41-43 | after any sequence of POSTs, each id's count has grown by exactly the number of POSTs for it, so counts never decrease |
| UsageLedger.ReplayRows | server.ts:16-17 | after any sequence of POSTs, rows exist for exactly the old ids plus the posted ones, and the `id` of an existing row never changes |
| UsageLedger.RepeatedPosts | server.ts:41-43 | k ≥ 1 POSTs for an id with no row leave exactly one row for it, with count k |
| UsageLedger.ToolIdOf | server.ts:38-39 | for a path already percent-decoded and matched exactly, the `:toolId` parameter is what follows the `/api/usage/` prefix |
| UsageLedger.RowsOf | server.ts:34 | the loop over the table returns every row exactly once, each under its own `tool_id` |
| UsageLedger.UsageStore.constructor | server.ts:14-20 | a new database has an empty, consistent table |
| UsageLedger.UsageStore.RecordUsage | server.ts:38-47 | the table after a POST is the upsert of the table before; it stays consistent; only this id's count changes, by exactly 1 |
| UsageLedger.UsageStore.ListUsage | server.ts:33-36 | `SELECT *` returns exactly the current rows, each once, and changes nothing |
| UsageLedger.UsageStore.Handle | server.ts:29-47 | health answers `{status: "ok"}`; GET usage returns all rows and changes nothing; a POST to a tool path upserts that id and answers `{success: true}`; any other GET or POST changes nothing and answers `NotHandled`, leaving it to the static server |
| UsageDashboard.SortByUsage | src/pages/UsageDashboard.tsx:24 | the in-place sort leaves the rows in non-increasing `usage_count` order and is a permutation of what was fetched |
| UsageDashboard.InsertLast | src/pages/UsageDashboard.tsx:24 | one insertion step extends the sorted prefix by one row and keeps the multiset of rows |
| UsageDashboard.Swap | src/pages/UsageDashboard.tsx:24 | exchanges two rows and changes no other |
| UsageDashboard.Capitalize | src/pages/UsageDashboard.tsx:38 | capitalising a word keeps its length |
| UsageDashboard.CapitalizeAll | src/pages/UsageDashboard.tsx:38 | the `map(capitalize)` step: one word out for each word in, position by position |
| UsageDashboard.FormatToolNameAt | src/pages/UsageDashboard.tsx:37-39 | `formatToolName` keeps the length of the id; each dash becomes a space, the first character of each segment is upper-cased, and every other character is kept |
| UsageDashboard.FormatToolName | src/pages/UsageDashboard.tsx:37-39 | an id without a dash is one word, shown capitalised |
| UsageDashboard.NameOfConcat | src/pages/UsageDashboard.tsx:37-39 | the name of an id with a dash is the capitalised first segment, a space, then the name of the rest |
| UsageDashboard.NoDashInName | src/pages/UsageDashboard.tsx:38 | the display name contains no `-` |
| UsageDashboard.WordsOfName | src/pages/UsageDashboard.tsx:38 | for an id without spaces, the display name splits on spaces into exactly the capitalised segments, one word per segment |
| UsageDashboard.ChartData | src/pages/UsageDashboard.tsx:41-44 | one chart point per row, in the same order, with `usage = usage_count` and the formatted name |
| UsageDashboard.Render | src/pages/UsageDashboard.tsx:66-73 | "No usage data" exactly when loading is over and the list is empty; a chart has one bar per row |
| UsageDashboard.Dashboard.constructor | src/pages/UsageDashboard.tsx:14-15 | the page starts loading with no data |
| UsageDashboard.Dashboard.FetchUsage | src/pages/UsageDashboard.tsx:17-35 | loading ends; fetched rows replace the data, sorted by non-increasing count and a permutation of the response; a failed or non-ok fetch keeps the data, so from the initial state it shows "No usage data" |
| AgeCalculator.DaysInMonth | src/pages/tools/AgeCalculator.tsx:22-23 | a month has 28 to 31 days (29 in a leap February) |
| AgeCalculator.DayNumberMonotone | src/pages/tools/AgeCalculator.tsx:14 | an earlier calendar date has a smaller day number, so the code's timestamp comparison is calendar order |
| AgeCalculator.CalculateAge | src/pages/tools/AgeCalculator.tsx:8-35 | no result exactly when a date is missing; otherwise the result of the step-by-step borrow equals the reference function `AgeOf` (ordering error, then day borrow, then month borrow, totals) |
| AgeCalculator.AgeOf | src/pages/tools/AgeCalculator.tsx:14-34 | for two dates there is always a result; it is the ordering error exactly when the date of birth comes later; otherwise `totalDays >= 0`, `0 <= months <= 11`, and the days lie between -2 and 30 (negative only through the borrow of a short month, see Findings) |
| AgeCalculator.OrderErrorExactly | src/pages/tools/AgeCalculator.tsx:14 | the error is reported exactly when the date of birth is after the target |
| AgeCalculator.AgeBounds | src/pages/tools/AgeCalculator.tsx:26-32 | for dob ≤ target: years ≥ 0, months in 0..11, `totalMonths = years*12 + months` is the number of whole months between the dates, `totalDays` is the exact day difference, and days lie in -2..30 |
| AgeCalculator.AgeComponents | src/pages/tools/AgeCalculator.tsx:16-24 | without a borrow the result is the component-wise difference; with a day borrow the days gain the length of the month before the target's month |
| AgeCalculator.SameDate | src/pages/tools/AgeCalculator.tsx:16-32 | equal dates give all zeros |
| AgeCalculator.NegativeDays | src/pages/tools/AgeCalculator.tsx:20-24 | days are not clamped: 2000-01-31 to 2024-03-01 gives 24 years, 1 month and -1 days |
| AgeCalculator.AnniversaryMonth | src/pages/tools/AgeCalculator.tsx:31 | `totalMonths` months after the birth date is the target's month, or the month before it when the day borrows |
| AgeCalculator.CorrectedAgeAddsUp | src/pages/tools/AgeCalculator.tsx:20-24 | with the corrected borrow, days are never negative, and `totalMonths` months then `days` days after the date of birth is exactly the target |
| AgeCalculator.CorrectedExample | src/pages/tools/AgeCalculator.tsx:20-24 | the corrected result for 2000-01-31 to 2024-03-01 is 24 years, 1 month, 1 day |
| KeywordDensity.LongWords | src/pages/tools/KeywordDensityChecker.tsx:10 | the length filter keeps exactly the tokens longer than two characters, and no more of them than there are tokens |
| KeywordDensity.Words | src/pages/tools/KeywordDensityChecker.tsx:10 | the counted words are exactly the pieces of the lower-cased, cleaned text that are longer than two characters (`WordOccurrences` gives how often each occurs) |
| KeywordDensity.LongWordsCount | src/pages/tools/KeywordDensityChecker.tsx:10 | the length filter keeps each token longer than two characters exactly as many times as it occurs, and no shorter token |
| KeywordDensity.WordOccurrences | src/pages/tools/KeywordDensityChecker.tsx:10 | each counted word occurs among the words as often as among the pieces of the cleaned text; a piece of two characters or fewer never |
| KeywordDensity.WordShape | src/pages/tools/KeywordDensityChecker.tsx:10 | every counted word is longer than two characters and made only of lower-case letters, digits and `_` |
| KeywordDensity.BlankHasNoWords | src/pages/tools/KeywordDensityChecker.tsx:8 | whitespace-only text has no words |
| KeywordDensity.CountWords | src/pages/tools/KeywordDensityChecker.tsx:15-18 | on a counter without inherited keys (the corrected counter, see Findings), the loop gives one key per distinct word, each mapped to its number of occurrences |
| KeywordDensity.Entries | src/pages/tools/KeywordDensityChecker.tsx:20-25 | one entry per key, distinct words, each with its count and `count/total*100` |
| KeywordDensity.SortByCount | src/pages/tools/KeywordDensityChecker.tsx:26 | the sort gives non-increasing counts and is a permutation of the entries |
| KeywordDensity.InsertByCount | src/pages/tools/KeywordDensityChecker.tsx:26 | one insertion keeps the order sorted and adds exactly the one entry |
| KeywordDensity.KeywordDensity | src/pages/tools/KeywordDensityChecker.tsx:7-28 | with the corrected counter, the table has at most 20 rows and is empty exactly when there is no word; rows have non-increasing counts and distinct words, each with its true count ≥ 1 and its share; every word left out is no more frequent than the 20th row; densities sum to at most 100 |
| KeywordDensity.TopFacts | src/pages/tools/KeywordDensityChecker.tsx:26-27 | cutting the sorted entries to twenty keeps every promise of the table |
| KeywordDensity.LeftOut | src/pages/tools/KeywordDensityChecker.tsx:27 | a word missing from the table means the table is full and the word's count is at most the last row's |
| KeywordDensity.DensityBound | src/pages/tools/KeywordDensityChecker.tsx:24 | the densities of distinct words sum to at most 100 |
| KeywordDensity.CountsAddUp | src/pages/tools/KeywordDensityChecker.tsx:11-18 | before the cut, the counts of the distinct words add up to `totalWords` |
| KeywordDensity.OccurrencesBelowTotal | src/pages/tools/KeywordDensityChecker.tsx:11-18 | the counts of any distinct words add up to at most the number of words |
| KeywordDensity.DensityIsShare | src/pages/tools/KeywordDensityChecker.tsx:24 | the sum of the densities is the share of the sum of the counts |
| KeywordDensity.CountsAsWrittenHold | src/pages/tools/KeywordDensityChecker.tsx:15-18 | the plain object `{}` as written: every word except `__proto__` gets a key; every word except `constructor` gets its number of occurrences; `constructor` gets the string `function Object() { [native code] }` followed by one `1` per occurrence; `__proto__` is never stored |
| KeywordDensity.DensityAsWritten | src/pages/tools/KeywordDensityChecker.tsx:24 | `count / totalWords * 100` is a number exactly when the stored count is a number, and then it is the count's share |
| KeywordDensity.ConstructorIsNaN | src/pages/tools/KeywordDensityChecker.tsx:15-24 | whenever `constructor` is among the words, its row has a string count and a NaN density |
| KeywordDensity.ProtoIsDropped | src/pages/tools/KeywordDensityChecker.tsx:15-20 | whenever `__proto__` is among the words, it has no row, so there are fewer rows than distinct words |
| KeywordDensity.ConstructorExample | src/pages/tools/KeywordDensityChecker.tsx:15-18 | the word list `the`, `constructor`, `builds`, `the`, `house` gives `constructor` the count `function Object() { [native code] }1` and `the` the count 2 |
| KeywordDensity.ProtoExample | src/pages/tools/KeywordDensityChecker.tsx:15-20 | the word list `__proto__`, `abc`, `def` gives two keys, `abc` and `def`, so a word is missing from a table of two rows |
| WordCounter.ReadingTime | src/pages/tools/WordCounter.tsx:13 | `ceil(words/200)`: 0 for no words, otherwise `200*(t-1) < words <= 200*t` |
| WordCounter.WordCount | src/pages/tools/WordCounter.tsx:8 | the word count is 0 exactly when the text is all whitespace |
| WordCounter.TextStats | src/pages/tools/WordCounter.tsx:7-16 | `chars` is the length; no words exactly for whitespace-only text; the reading time is 0 exactly when there are no words, and covers the words at 200 a minute |
| WordCounter.WordsAreTokens | src/pages/tools/WordCounter.tsx:8 | the word count equals an independent scan counting whitespace-separated tokens, and is 0 exactly for whitespace-only text |
| WordCounter.PiecesAreTokens | src/pages/tools/WordCounter.tsx:8 | for trimmed non-empty text, the pieces of `split(/\s+/)` are exactly the scanned tokens |
| WordCounter.TokensOfTrim | src/pages/tools/WordCounter.tsx:8 | trimming does not change the number of tokens |
| WordCounter.CharCounts | src/pages/tools/WordCounter.tsx:8-10 | `chars` is the length; `charsNoSpaces <= chars`, equal exactly when the text has no whitespace; `words <= charsNoSpaces` |
| WordCounter.Paragraphs | src/pages/tools/WordCounter.tsx:11 | no paragraph exactly when the text is blank, and never more paragraphs than words |
| WordCounter.ParagraphsBelowTokens | src/pages/tools/WordCounter.tsx:11 | the non-blank pieces between newline runs are no more than the tokens |
| WordCounter.Sentences | src/pages/tools/WordCounter.tsx:12 | no sentence exactly when the text has only whitespace and `.`, `!`, `?` |
| CompoundingCalculator.YearlySeries | src/pages/tools/CompoundingCalculator.tsx:11-41 | empty for `y <= 0`; otherwise `y+1` entries, entry `i` being `12*i` monthly steps from `p` against contributions `p + 12*i*pmt` |
| CompoundingCalculator.CompoundYear | src/pages/tools/CompoundingCalculator.tsx:26-29 | the inner loop makes exactly twelve monthly steps and adds `12*pmt` to the contributions |
| CompoundingCalculator.NextPoint | src/pages/tools/CompoundingCalculator.tsx:23-29 | each year's entry is the previous year's after twelve more steps |
| CompoundingCalculator.FinalSummary | src/pages/tools/CompoundingCalculator.tsx:43 | there is a summary exactly when `y > 0`, and it is year `y`'s entry |
| CompoundingCalculator.Summary | src/pages/tools/CompoundingCalculator.tsx:43 | there is a summary exactly when the series is not empty, and it is one of its entries |
| CompoundingCalculator.YearZero | src/pages/tools/CompoundingCalculator.tsx:19-24 | year 0 shows `p` as balance and contributions, and no interest |
| CompoundingCalculator.CompoundSplit | src/pages/tools/CompoundingCalculator.tsx:26-29 | `k` monthly steps then `m` more are `k+m` steps |
| CompoundingCalculator.YearStep | src/pages/tools/CompoundingCalculator.tsx:26-29 | in the series, each balance is the previous one after twelve steps, and contributions grow by `12*pmt` |
| CompoundingCalculator.NoInterest | src/pages/tools/CompoundingCalculator.tsx:27-28 | at rate 0 the balance is the start plus the contributions |
| CompoundingCalculator.ZeroRateSeries | src/pages/tools/CompoundingCalculator.tsx:27-28 | at rate 0 every year's balance equals its contributions, with no interest |
| CompoundingCalculator.CompoundGrows | src/pages/tools/CompoundingCalculator.tsx:27 | with nothing negative, the balance is at least the start plus the contributions |
| CompoundingCalculator.NonNegativeSeries | src/pages/tools/CompoundingCalculator.tsx:27 | with nothing negative, every balance is at least its contributions and balances never drop from year to year |
| DcaCalculator.PeriodsPerYear | src/pages/tools/DcaCalculator.tsx:19-21 | 365 for daily, 52 for weekly, 12 otherwise |
| DcaCalculator.CalculateDca | src/pages/tools/DcaCalculator.tsx:12-45 | no result exactly when the amount or years is 0 or missing or the return is missing (a 0% return is accepted); otherwise `totalInvested = pmt*y*periods`, the future value is the sum of the payments grown from the start of each period, `profit = fv - invested`, `roi*invested = profit*100`; a 0 rate gives no profit and a positive rate on positive payments a positive one |
| DcaCalculator.Report | src/pages/tools/DcaCalculator.tsx:23-37 | the reported figures satisfy all of the above for any non-zero payment and whole number of periods |
| DcaCalculator.AnnuityDue | src/pages/tools/DcaCalculator.tsx:33 | the closed-form annuity-due formula equals the period-by-period sum `Σ pmt*(1+rate)^k`, k = 1..n |
| DcaCalculator.FlatHoldings | src/pages/tools/DcaCalculator.tsx:30-31 | with no return the holdings are `pmt*n` |
| DcaCalculator.HoldingsGrow | src/pages/tools/DcaCalculator.tsx:33-36 | with a positive return, positive payments grow to more than their sum |
| Powers.GeoSumClosed | src/pages/tools/DcaCalculator.tsx:33 | `(x-1)*(1 + x + … + x^(n-1)) = x^n - 1` |
| Powers.GeoSumRate | src/pages/tools/EmiCalculator.tsx:16 | `r*(1 + … + (1+r)^(n-1)) = (1+r)^n - 1` |
| Powers.GrowthSumShift | src/pages/tools/DcaCalculator.tsx:33 | `x + … + x^n = x*(1 + … + x^(n-1))` |
| Powers.GeoSumFront | src/pages/tools/EmiCalculator.tsx:16 | the geometric sum peeled from the front: `1 + x*(sum of n-1 terms)` |
| Powers.PowAtLeastOne | src/pages/tools/EmiCalculator.tsx:16 | for `x >= 1` powers are at least 1, above 1 when `x > 1`, and non-decreasing |
| Powers.GrowthSumAbove | src/pages/tools/DcaCalculator.tsx:33 | for `x > 1` the growth sum of `n` terms exceeds `n` |
| Powers.GeoSumBelow | src/pages/tools/EmiCalculator.tsx:16 | for `x >= 1` the geometric sum of `n` terms is at most `n*x^n` |
| EmiCalculator.CalculateEmi | src/pages/tools/EmiCalculator.tsx:9-25 | no EMI exactly when principal, rate or tenure is 0 or missing (so a 0% rate has no result); a division by zero exactly when `(1+r)^n = 1`; otherwise `emi*(x-1) = p*r*x` with `x = (1+r)^n`, `r = rate/1200`, `totalAmount = emi*n`, `totalInterest = totalAmount - p` |
| EmiCalculator.OwedClosed | src/pages/tools/EmiCalculator.tsx:16 | after `k` monthly payments of `e` the balance is `p*(1+r)^k - e*(1 + … + (1+r)^(k-1))` |
| EmiCalculator.EmiRepaysLoan | src/pages/tools/EmiCalculator.tsx:16-17 | paying the computed EMI for `n` months, with interest accruing monthly, leaves exactly nothing owed |
| EmiCalculator.RepaidAt | src/pages/tools/EmiCalculator.tsx:16 | any instalment satisfying the EMI equation for a non-zero rate repays the loan in `n` months |
| EmiCalculator.OneMonthTenure | src/pages/tools/EmiCalculator.tsx:16-18 | a one-month loan: `emi = totalAmount = p*(1+r)`, interest `p*r` |
| EmiCalculator.EmiCoversInterest | src/pages/tools/EmiCalculator.tsx:16-18 | for a positive principal and rate, `emi > p*r` and `totalInterest >= 0` |
| EmiCalculator.CoversAt | src/pages/tools/EmiCalculator.tsx:16-18 | the same for any outcome satisfying the EMI equation at a positive monthly rate |
| CryptoProfitCalculator.CalculateProfit | src/pages/tools/CryptoProfitCalculator.tsx:10-35 | no result exactly when investment, buy or sell price is 0 or missing (a 0 fee is allowed); otherwise the whole investment buys `inv/buy` coins, `netReturn = coins*sell*(1-fee)`, `profit = netReturn - inv`, `roi*inv = profit*100`, `totalFees = inv*fee + coins*sell*fee` |
| CryptoProfitCalculator.ProfitOmitsBuyFee | src/pages/tools/CryptoProfitCalculator.tsx:18-26 | as written, the profit is the price gain less the sell fee only; the buy fee never enters it |
| CryptoProfitCalculator.NoFeeBreakEven | src/pages/tools/CryptoProfitCalculator.tsx:18-27 | with no fee and an unchanged price, profit and roi are 0 |
| CryptoProfitCalculator.LossBelowFees | src/pages/tools/CryptoProfitCalculator.tsx:18-20 | at a 1% fee and an unchanged price, 100 invested reports fees of 2 but a loss of only 1 |
| CryptoProfitCalculator.CalculateProfitCorrected | src/pages/tools/CryptoProfitCalculator.tsx:16-20 | the corrected calculation has the same guard: no result exactly when a required input is 0 or missing |
| CryptoProfitCalculator.CorrectedProfitAccountsForFees | src/pages/tools/CryptoProfitCalculator.tsx:18-20 | corrected, the profit is the price gain on the coins actually bought less both fees, so at an unchanged price the loss equals the fees |
| CryptoProfitCalculator.CorrectedLossEqualsFees | src/pages/tools/CryptoProfitCalculator.tsx:18-20 | corrected, the same 1% trade loses 1.99, equal to its fees |
| PositionSizeCalculator.CalculatePosition | src/pages/tools/PositionSizeCalculator.tsx:10-33 | no result exactly when an input is 0 or missing or entry = stop; otherwise `riskAmount = acc*risk/100`, `positionSize*abs(entry-stop) = riskAmount`, `totalValue = positionSize*entry`, `leverage*acc = totalValue` |
| PositionSizeCalculator.PositiveInputs | src/pages/tools/PositionSizeCalculator.tsx:18-25 | positive inputs with entry ≠ stop give positive risk amount, size, value and leverage |
| RiskRewardCalculator.CalculateRR | src/pages/tools/RiskRewardCalculator.tsx:10-24 | no result exactly when an input is 0 or missing or entry = stop; otherwise the ratio is ≥ 0 and `ratio*risk = reward` |
| RiskRewardCalculator.MirroredTrade | src/pages/tools/RiskRewardCalculator.tsx:17-18 | mirroring stop and target about the entry (long against short) leaves the ratio unchanged |
| RiskRewardCalculator.RoundedAtLeastTwo | src/pages/tools/RiskRewardCalculator.tsx:23 | the ratio rounded to two decimals is at least 2 exactly when the ratio is at least 1.995 |
| RiskRewardCalculator.GoodSetup | src/pages/tools/RiskRewardCalculator.tsx:76 | "Good setup!" is shown exactly when the ratio is at least 1.995, because the 2-decimal rounded ratio is compared with 2 |
| PercentageCalculator.PercentOf | src/pages/tools/PercentageCalculator.tsx:31 | a value exactly when both fields are filled ("0" included), with `r*100 = x*y` |
| PercentageCalculator.WhatPercent | src/pages/tools/PercentageCalculator.tsx:44 | a value exactly when both fields are filled and B ≠ 0, with `r*B = A*100` |
| PercentageCalculator.PercentChange | src/pages/tools/PercentageCalculator.tsx:57 | a value exactly when both fields are filled and A ≠ 0, with `r*abs(A) = (B-A)*100` |
| PercentageCalculator.PercentOfSymmetric | src/pages/tools/PercentageCalculator.tsx:31 | X% of Y equals Y% of X |
| PercentageCalculator.WhatPercentInverts | src/pages/tools/PercentageCalculator.tsx:44 | the second relation inverts the first: (A/B*100)% of B is A |
| PercentageCalculator.PercentChangeSign | src/pages/tools/PercentageCalculator.tsx:57 | the change is positive exactly when B > A and zero exactly when B = A, whatever the sign of A |
| FaqSchema.Without | src/pages/tools/FaqSchemaGenerator.tsx:14 | removing index `i` deletes exactly entry `i` and keeps the others in order; an index outside the list removes nothing |
| FaqSchema.SetField | src/pages/tools/FaqSchemaGenerator.tsx:20 | setting one field changes that field and keeps the other |
| FaqSchema.CompleteFaqs | src/pages/tools/FaqSchemaGenerator.tsx:25 | the filter keeps only entries whose question and answer are both non-blank |
| FaqSchema.NoneComplete | src/pages/tools/FaqSchemaGenerator.tsx:25-27 | nothing is kept exactly when no entry is complete |
| FaqSchema.AllComplete | src/pages/tools/FaqSchemaGenerator.tsx:25 | a list of complete entries is kept whole |
| FaqSchema.CompleteFaqsAppend | src/pages/tools/FaqSchemaGenerator.tsx:25 | the filter keeps list order (it distributes over concatenation) |
| FaqSchema.MainEntity | src/pages/tools/FaqSchemaGenerator.tsx:29-40 | the schema has `@context`, `@type: FAQPage` and a `mainEntity` with one `Question` per complete entry, in order, named by the trimmed question and answered by the trimmed answer |
| FaqSchema.GenerateSchema | src/pages/tools/FaqSchemaGenerator.tsx:24-43 | empty exactly when no entry is complete; otherwise the script opening line, the pretty-printed schema, and the closing `</script>` |
| FaqSchema.IncompleteIgnored | src/pages/tools/FaqSchemaGenerator.tsx:25-27 | adding an incomplete entry at either end does not change the output |
| FaqSchema.FaqEditor.constructor | src/pages/tools/FaqSchemaGenerator.tsx:6 | the editor starts with one empty pair |
| FaqSchema.FaqEditor.Add | src/pages/tools/FaqSchemaGenerator.tsx:9-11 | `addFaq` appends one empty pair and keeps the existing ones; the list stays non-empty |
| FaqSchema.FaqEditor.Remove | src/pages/tools/FaqSchemaGenerator.tsx:13-16 | `removeFaq` deletes exactly entry `i`, and removing the only entry leaves one empty pair; the list is never empty |
| FaqSchema.FaqEditor.Update | src/pages/tools/FaqSchemaGenerator.tsx:18-22 | `updateFaq` changes only field `f` of entry `i`, nothing else |
| Json.HexRoundTrip | src/pages/tools/FaqSchemaGenerator.tsx:42 | a hexadecimal digit reads back as its value |
| Json.EscapeChar | src/pages/tools/FaqSchemaGenerator.tsx:42 | an escape is non-empty and starts with a backslash, unless the character is kept as it is; ordinary printable characters are kept |
| Json.UnescapeChar | src/pages/tools/FaqSchemaGenerator.tsx:42 | one escaped character in front of a rest reads back as that character in front of the rest |
| Json.UnescapeEscape | src/pages/tools/FaqSchemaGenerator.tsx:42 | every string survives a trip through a JSON string literal: reading the escaped form back gives the string |
| Json.EscapeInjective | src/pages/tools/FaqSchemaGenerator.tsx:42 | different strings have different escaped forms |
| Json.Quote | src/pages/tools/FaqSchemaGenerator.tsx:42 | a string literal starts and ends with a double quote |
| Json.Indent | src/pages/tools/FaqSchemaGenerator.tsx:42 | the indentation at depth `d` is `2*d` spaces |
| Json.Stringify | src/pages/tools/FaqSchemaGenerator.tsx:42 | a string is written as its quoted, escaped literal; arrays and objects are bracketed by `[ ]` and `{ }` |
| Text.Trim | src/pages/tools/TagGenerator.tsx:27 | `trim()` gives at most the input's length, with no whitespace at either end |
| Text.TrimSlice | src/pages/tools/TagGenerator.tsx:27 | the trimmed string is the contiguous slice of the input after its leading whitespace |
| Text.TrimEmpty | src/pages/tools/TagGenerator.tsx:27 | a string trims to nothing exactly when it is all whitespace |
| Text.Split | src/pages/tools/TagGenerator.tsx:27 | `split(c)` gives at least one piece, and no piece contains `c` |
| Text.SplitCount | src/pages/tools/TagGenerator.tsx:27 | there is one piece more than there are separators |
| Text.JoinSplit | src/pages/tools/TagGenerator.tsx:27 | joining the pieces of a split with the same character gives the string back |
| Text.SplitJoin | src/pages/tools/TagGenerator.tsx:27 | splitting the join of separator-free pieces gives the pieces back |
| Text.SplitAppend | src/pages/tools/TagGenerator.tsx:27 | the pieces of `a + c + b` are those of `a` followed by those of `b` |
| Text.SplitRuns | src/pages/tools/WordCounter.tsx:8 | `split(/X+/)` gives at least one piece, and no piece contains a separator |
| Text.NonBlanks | src/pages/tools/WordCounter.tsx:11 | the non-blank filter keeps only non-blank elements of its input |
| Text.NonBlanksAppend | src/pages/tools/WordCounter.tsx:11 | the non-blank filter keeps order (it distributes over concatenation) |
| Text.NoNonBlankPiece | src/pages/tools/WordCounter.tsx:11-12 | splitting on runs of a class leaves no non-blank piece exactly when every character is whitespace or in the class |
| Text.ToLower | src/pages/tools/KeywordDensityChecker.tsx:10 | `toLowerCase` keeps the length and lower-cases character by character |
| TagGenerator.Tags | src/pages/tools/TagGenerator.tsx:27 | every tag is non-empty, trimmed, and free of commas |
| TagGenerator.TagCount | src/pages/tools/TagGenerator.tsx:27 | there are at most one more tags than commas |
| TagGenerator.TagsAppend | src/pages/tools/TagGenerator.tsx:27 | tags keep the order of the text: the tags of `a,b` are those of `a` followed by those of `b` |
| TagGenerator.TagsRoundTrip | src/pages/tools/TagGenerator.tsx:41 | parsing the `', '` join of any list of tags gives the list back |
| TagGenerator.CopyText | src/pages/tools/TagGenerator.tsx:108 | the shown (and copied) text is empty for no tags, the tag itself for one, and starts with the first tag and `, ` for more |
| TagGenerator.ParseCopyParse | src/pages/tools/TagGenerator.tsx:108 | parsing the copied and displayed text of the parsed tags gives the same tags |
| GeneratedLines.Lines | src/pages/tools/ViralTitleGenerator.tsx:27 | every kept line is one piece of the text between line breaks, untrimmed, non-blank, and without a line break |
| GeneratedLines.LineCount | src/pages/tools/ShortsHookGenerator.tsx:28 | there are at most one more lines than line breaks |
| GeneratedLines.LinesAppend | src/pages/tools/ViralTitleGenerator.tsx:27 | lines keep the order of the text |
| GeneratedLines.NoLines | src/pages/tools/ShortsHookGenerator.tsx:28 | there is no line to show exactly when the text is all whitespace |
| GeneratedLines.Clean | src/pages/tools/ViralTitleGenerator.tsx:87 | the cleaned line is a suffix of the line; a line not starting with a digit, `.`, `-` or `*` is unchanged; otherwise exactly the maximal run of those characters and the whitespace after it are removed (the copied text at line 42 is the same function of the same line) |
| GeneratedLines.CleanTwice | src/pages/tools/ShortsHookGenerator.tsx:94 | cleaning is not idempotent: `"1. 2. x"` becomes `"2. x"`, which cleans again to `"x"` |
| ThumbnailAnalyzer.First | src/pages/tools/ThumbnailAnalyzer.tsx:30-33 | the first occurrence at or after `i`, or the end of the text: an occurrence, with none before it |
| ThumbnailAnalyzer.BeforeHasNone | src/pages/tools/ThumbnailAnalyzer.tsx:31 | `split(p)[0]` holds no `p` |
| ThumbnailAnalyzer.Payload | src/pages/tools/ThumbnailAnalyzer.tsx:29-34 | a reply without a fence is parsed as it is; a piece taken out of a fence is trimmed |
| ThumbnailAnalyzer.ExtractJson | src/pages/tools/ThumbnailAnalyzer.tsx:29-34 | without a fence the text is passed on untouched; with `` ```json `` the payload is the trimmed slice after the first one, up to a fence or the end; with only `` ``` `` it is the trimmed text between the first two fences; an extracted payload never contains a fence and is trimmed |
| ThumbnailAnalyzer.JsonPayload | src/pages/tools/ThumbnailAnalyzer.tsx:31 | the `` ```json `` branch yields a slice of the text ending at a fence or at the end, trimmed and fence-free |
| ThumbnailAnalyzer.PieceUntil | src/pages/tools/ThumbnailAnalyzer.tsx:31 | the text after the first opening marker up to the next closing one is a slice ending where a closing marker begins |
| ThumbnailAnalyzer.PlainPayload | src/pages/tools/ThumbnailAnalyzer.tsx:33 | the plain-fence branch yields the trimmed, fence-free text between the first two fences |
| ThumbnailAnalyzer.ScoreColor | src/pages/tools/ThumbnailAnalyzer.tsx:54-58 | emerald exactly for ≥ 80, amber exactly for 60 to below 80, red exactly below 60 |
| ThumbnailAnalyzer.Verdict | src/pages/tools/ThumbnailAnalyzer.tsx:104 | "Excellent! Highly clickable." exactly for ≥ 80, "Good, but could be punchier." exactly for 60 to below 80, "Needs improvement." exactly below 60 |
| ThumbnailAnalyzer.VerdictMatchesColor | src/pages/tools/ThumbnailAnalyzer.tsx:104 | each verdict sentence goes with exactly one colour band |
| ThumbnailAnalyzer.Shown | src/pages/tools/ThumbnailAnalyzer.tsx:95-118 | nothing is shown exactly for `null`, `false` or `""`; the bare text "0" is shown exactly for the falsy result `0`; the rendering breaks exactly for a truthy value without a `tips` array; a card shows the analysis's score and tips, coloured by `ScoreColor`, with the verdict of the same band |
| ThumbnailAnalyzer.Analyzer.constructor | src/pages/tools/ThumbnailAnalyzer.tsx:9 | the result is `null` at first, so nothing is shown |
| ThumbnailAnalyzer.Analyzer.Analyze | src/pages/tools/ThumbnailAnalyzer.tsx:27-43 | a blank headline or an empty reply changes nothing; otherwise the result is replaced exactly when the extracted payload parses, by whatever value it parses to (`null` and values of another shape included) |
| MetaDescription.Generated | src/pages/tools/MetaDescriptionGenerator.tsx:13-28 | a blank topic or an empty reply keeps the description; otherwise it is exactly `Trim(reply)`: trimmed, no longer than the reply, and empty exactly when the reply is blank |
| MetaDescription.LengthBadge | src/pages/tools/MetaDescriptionGenerator.tsx:81 | the badge is red exactly when the description is longer than 160 characters |
| MetaDescription.Slug | src/pages/tools/MetaDescriptionGenerator.tsx:98 | the slug is no longer than the topic and has no whitespace or upper-case letter |
| MetaDescription.SlugWords | src/pages/tools/MetaDescriptionGenerator.tsx:98 | for a topic without dashes, cutting the slug at dashes gives the lower-cased topic's pieces between whitespace runs: each run became exactly one dash |
| MetaDescription.ReplaceRunsShorter | src/pages/tools/MetaDescriptionGenerator.tsx:98 | replacing each whitespace run by one dash never lengthens the text |
| Layout.IsActive | src/components/layout.tsx:53 | an item is highlighted exactly when its path is a prefix of the pathname, and the `/` item only on `/` itself |
| Layout.DashboardExact | src/components/layout.tsx:53 | the `/` item is active only on `/` itself |
| Layout.RawPrefix | src/components/layout.tsx:53 | matching is by raw prefix: `/seoabc` activates `/seo`, as does `/seo/meta-description` |
| Layout.SecondCharacters | src/components/layout.tsx:15-21 | the four section paths have distinct second characters |
| Layout.AtMostOneActive | src/components/layout.tsx:15-21 | no pathname activates two different items |
| Layout.OneActiveItem | src/components/layout.tsx:53 | at most one of the five items is highlighted for any pathname |

## Left out

- Floating point is left out. All arithmetic is on exact reals, and properties are stated on unrounded values. Not modelled: NaN and Infinity beyond the EMI division by zero, `parseFloat`/`parseInt` (inputs come already parsed), `toFixed`, `toLocaleString` and `Math.round` in the compounding chart.
- Fractional periods are left out. DCA years and EMI tenure are whole numbers (`nat`), since the powers are defined on whole exponents. A negative or fractional tenure, which the page would pass to `Math.pow`, is not modelled.
- CryptoProfitCalculator.CalculateProfit: the fee is a plain real; an empty or unparsable fee field (NaN fees shown) is not modelled.
- Text is ASCII. `\s`, `\w`, `toLowerCase` and `toUpperCase` act on ASCII characters only; Unicode whitespace, letters and case mappings are not modelled.
- AgeCalculator.CalculateAge: dates are calendar triples (year, month, day). Reading a UTC-parsed date with local getters, time zones, and the clock that gives today's default target are not modelled.
- The network is left out, as are the generative-text service, `JSON.parse` and the fire-and-forget usage POSTs of the pages. The service's reply is a string parameter. `JSON.parse` is the `parse` parameter of `ThumbnailAnalyzer.Analyzer.Analyze`, returning nothing when it throws and otherwise the parsed value sorted into four kinds (`null`, `false` or `""`; `0`; an analysis; anything else). The dashboard's `fetch` is the `FetchOutcome` parameter.
- The tag, title and hook pages keep their previous list when the reply is empty, and set it to the parsed list otherwise. That one assignment is not modelled as state; their parsing is modelled by `TagGenerator.Tags` and `GeneratedLines.Lines`.
- The "Generated Tags (n)" heading shows the length of the same list the tags are drawn from, so it needs no member of its own.
- Clipboard writes, the `setTimeout` flags of the "copied" indicator, loading spinners of the generator pages, and all markup and animation are left out.
- KeywordDensity.Entries: the order of `Object.entries` (integer-like keys first, then insertion order) is not modelled. The model leaves the order of the entries open, and no property depends on the order among equal counts. Where the table is built from the object as written, the order of the `constructor` row is not modelled either: comparing with its string count gives NaN, which the sort treats as equal.
- UsageDashboard.SortByUsage: the order among rows with equal counts is not stated. `Array.prototype.sort` is stable, so the chart keeps the fetched order of ties; the contract promises only non-increasing counts and a permutation.
- ThumbnailAnalyzer.Analyzer.Analyze: a parsed object with a `tips` array but a score that is not a number is not modelled; the page would show it with the red colour and "Needs improvement.".
- UsageLedger.ToolIdOf: the id is what follows `/api/usage/` in the path as written; Express's percent-decoding, case-insensitive and trailing-slash matching are not modelled (see `UsageLedger.UsageStore.Handle` below).
- UsageLedger.Upsert: the `id` counter advances only on an actual insert. SQLite's AUTOINCREMENT may also use up a value on an insert that fails its uniqueness check, leaving a gap, so after POSTs for `a`, `a`, `b` the row for `b` may get `id` 3 where the model gives 2. No contract depends on the exact value: ids stay distinct and above every earlier one.
- UsageLedger.UsageStore.ListUsage: the rows come back in an arbitrary order, as SQLite gives no order without `ORDER BY`.
- UsageLedger.UsageStore.Handle: Express routing, the Vite middleware, static serving and `listen` are not modelled. A request they would answer is `NotHandled`. Paths are taken already percent-decoded and are matched exactly: Express also matches `/API/usage/tags` and `/api/usage/tags/`, which upsert `tags` but are `NotHandled` here, and it decodes `my%2Dtool` to `my-tool`. Each POST is one atomic step; concurrent requests are not modelled.
- FaqSchema.FaqEditor.Update: the index is required to be one of the list's. The page only calls it for the entries it shows. The in-place write into an element that the copied array shares with the previous state is modelled as a value update.
- ThumbnailAnalyzer.ExtractJson: in the `` ```json `` branch the contract says the payload is a fence-free slice ending at a fence or at the end of the text. It does not name which fence, when a second `` ```json `` occurs before the first plain fence.
- Json.Stringify: only the string, array and object values the FAQ schema uses are modelled. Numbers, booleans and null are not. An escaped lone surrogate cannot be read back into a `char`, so reading it back is refused.
- The image compressor, PDF to JPG and QR code tools wrap third-party libraries and the canvas, so they are not part of this model. Neither are the static pages, the routing, the theme toggle and the SEO head component.

## Findings

| source | as written | input that shows it | evidently intended | confidence | as-written member | corrected member |
|---|---|---|---|---|---|---|
| src/pages/tools/AgeCalculator.tsx:20-24 | when the day borrows, the days get the length of the month before the target's month, even when that month is shorter than the birth day, so the days can stay negative | born 2000-01-31, target 2024-03-01: 24 years, 1 month, -1 days | count the days from the monthly anniversary, clamped to the month's length: 24 years, 1 month, 1 day, with `totalMonths` months then `days` days landing on the target | not executed | AgeCalculator.NegativeDays | AgeCalculator.CorrectedAgeAddsUp |
| src/pages/tools/CryptoProfitCalculator.tsx:18-20 | `actualInvestment` (the investment less the buy fee) is computed but never used: the whole investment buys coins while the buy fee is still reported in the total fees | invest 100 at a price of 1, sell at 1, fee 1%: fees reported 2, loss reported 1 | buy coins with the investment net of the buy fee, so the loss at an unchanged price equals the fees (1.99 and 1.99) | not executed | CryptoProfitCalculator.LossBelowFees | CryptoProfitCalculator.CorrectedProfitAccountsForFees |
| src/pages/tools/KeywordDensityChecker.tsx:15-18 | the counts live in a plain object `{}`, so a word that names a property of `Object.prototype` reads the inherited value: `constructor` gets a string count, and the `__proto__` setter drops its count | "The constructor builds the house": the `constructor` row shows the count `function Object() { [native code] }1` and density NaN; "__proto__ abc def": two rows for three counted words, with `__proto__` missing from a table that is not full | a counter without inherited keys (a `Map`, or `Object.create(null)`): every counted word has a row with its number of occurrences | not executed | KeywordDensity.CountsAsWrittenHold | KeywordDensity.KeywordDensity |
