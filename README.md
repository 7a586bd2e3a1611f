# Investment-record loaders, modelled in Dafny

The repository is a set of batch scripts that fill a MySQL database with
personal investment records:

- `invest_loaders/load_orders.py` reads a broker's order-history spreadsheet,
  trims the headers, coerces every cell of every row (locale decimals with a
  comma, thousands spaces, `$`/`~` decorations, a "no data" marker, a `-`
  sentinel, a fixed timestamp pattern) and writes each row with
  `INSERT IGNORE`, counting the rows actually added;
- `invest_loaders/load_deals.py` does the same for deal confirmations, reads
  the currency of commission and profit off the symbol in the cell, and keeps
  the two currency variables from one row to the next;
- `load_deals.py` is the older deal loader, without the currencies;
- `invest_loaders/currencies.py` stores today's exchange rates from the
  central bank's daily feed unless today's row already exists;
- `invest_loaders/empty_rates.py` backfills the rate rows whose USD, GBP, EUR
  and KZT are all NULL, one feed request per row, and keeps one result line
  per row.

The model:

| file | what it holds |
|---|---|
| `Base.dfy` | `Option` and `Result` |
| `Strings.dfy` | Python's `strip`, `replace`, `lower`, `in` on strings, character filters |
| `Numbers.dfy` | `float()` and `int()` of text over a digits-with-point grammar, digit padding, truncation |
| `Calendar.dfy` | fixed-width `strptime`/`strftime`, the three patterns the scripts use |
| `Sheet.dfy` | the DataFrame (`Frame` class), lookup of a cell by header, the shared cell coercions |
| `Store.dfy` | a table under `INSERT IGNORE` (`Table` class) and the batch a row loop leaves behind |
| `Ingest.dfy` | the per-row `try`/`except` loop, with and without variables carried between rows |
| `Orders.dfy` | the order loader |
| `DealCells.dfy` | the cells both deal loaders read the same way |
| `Deals.dfy` | the newer deal loader, with the currency lookup and carry |
| `LegacyDeals.dfy` | the older deal loader |
| `Rates.dfy` | the feed, `parse_exchange_rates`, the rate table (`RateTable` class) and its queries |
| `DailyRates.dfy` | `main` of `currencies.py` |
| `Backfill.dfy` | `main` of `empty_rates.py` |

Each loop of the scripts is a `method` with a `while` loop proved against a
specification function on prefixes (`RowOutcomes`, `Carried`, `Apply`,
`RatesBy`, `Lines`, `Trace`, `Backfilled`). The properties are lemmas about
those functions. The database is a class whose fields are the rows. The bank
feed is a function parameter (`Fetch`), so a run is modelled for every
possible feed at once.

Some behaviours of the scripts a reader might not expect:

- The order loader counts only the rows added. Its "ignored" figure is
  `total - inserted`, so rows that raised are counted in it too. There are no
  separate skipped and error counters, and the deal loaders print no summary.
- No script here inserts date-only placeholder rate rows for deal dates. The
  backfill selects any row whose four foreign rates are NULL.
- An operation word other than "покупка"/"продажа" is stored as NULL, not as
  an "unknown" value.
- Prices are not checked to be non-negative.
- The backfill pauses only after a successful update, not between every pair
  of requests.
- Running a loader twice adds nothing the second time only when every row
  that coerces has a non-NULL key (`Store.ApplyRerun`). A NULL key never
  conflicts under a unique index.

## Model

| member | source | states |
|---|---|---|
| Strings.Strip | invest_loaders/load_orders.py:51-53 | the result is the input without its leading and trailing whitespace, and inner characters are kept |
| Strings.StripIdempotent | invest_loaders/load_orders.py:51-53 | stripping twice is stripping once |
| Strings.StripPadded | invest_loaders/load_orders.py:51-53 | any whitespace around a word with non-space ends strips back to the word |
| Numbers.Truncate | invest_loaders/load_orders.py:56 | `int()` of a number rounds toward zero on both signs |
| Numbers.ParseDecimalJoin | invest_loaders/load_orders.py:55 | `float()` of digits, a point and digits is the exact decimal value |
| Numbers.ParseDecimalDigits | invest_loaders/load_orders.py:55 | `float()` of zero-padded digits, a point and zero-padded digits is the integer part plus the fraction digits over ten to their width |
| Numbers.FractionValue | invest_loaders/load_orders.py:55 | the digits after the point are worth their integer value in parts of ten to their count |
| Numbers.DecimalValueDigits | invest_loaders/load_orders.py:55 | the value of two zero-padded digit strings around a point is the first number plus the second over ten to its width |
| Numbers.ParseDecimalRejects | invest_loaders/load_orders.py:55 | a character other than a digit, point, sign or whitespace anywhere in the text makes `float()` raise |
| Numbers.ParseDecimalInnerSpace | invest_loaders/load_orders.py:55 | whitespace between two other characters makes `float()` raise |
| Numbers.ParseDecimalNeedsDigit | invest_loaders/load_orders.py:74 | `float()` raises on every text without a digit |
| Numbers.ParseDecimalUnsigned | invest_loaders/load_deals.py:59 | text without a minus sign never reads as a negative number |
| Numbers.ParseIntDigits | invest_loaders/load_orders.py:85 | `int()` of a zero-padded digit string is the number it denotes |
| Calendar.Parse | invest_loaders/load_orders.py:81 | a successful `strptime` yields a real calendar instant |
| Calendar.ParseRender | invest_loaders/load_orders.py:81 | `strptime` reads back what `strftime` wrote with a pattern naming year, month and day; fields the pattern omits come back as zero |
| Calendar.OrderPatternRoundTrip | invest_loaders/load_orders.py:81 | `%Y-%m-%d %H:%M:%S` reads back every valid instant written with it |
| Calendar.DealPatternRoundTrip | invest_loaders/load_deals.py:53 | `%d.%m.%Y %H:%M:%S` reads back every valid instant written with it |
| Calendar.ScanRenders | invest_loaders/load_orders.py:81 | a text read against a pattern without repeated directives is that pattern written for any instant holding the values read; each field's digits are the zero-padded value |
| Calendar.ParseSound | invest_loaders/load_orders.py:81 | what `strptime` accepts as an instant, with a pattern without repeated directives, is exactly `strftime` of that instant: no other spelling is accepted |
| Calendar.OrderPatternExact | invest_loaders/load_orders.py:81 | `%Y-%m-%d %H:%M:%S` reads a text as an instant if and only if the instant is valid and the text is that instant written with the pattern |
| Calendar.DealPatternExact | invest_loaders/load_deals.py:53 | `%d.%m.%Y %H:%M:%S` reads a text as an instant if and only if the instant is valid and the text is that instant written with the pattern |
| Calendar.RequestDate | invest_loaders/currencies.py:37 | the request date is ten characters, with slashes at positions 2 and 5 |
| Calendar.RequestDateParses | invest_loaders/currencies.py:37 | `%d/%m/%Y` of a date reads back as that date at midnight, so day, month and four-digit year are all written |
| Sheet.Frame.StripColumns | invest_loaders/load_orders.py:40 | every header is stripped, there are as many headers as before, and the rows are unchanged |
| Sheet.StripAll | invest_loaders/load_orders.py:40 | the stripped headers, one per header, each that header without surrounding whitespace |
| Sheet.Lookup | invest_loaders/load_orders.py:51 | `row[name]` succeeds exactly when one header equals the name, and gives the cell under it; no such header is a KeyError |
| Sheet.StrippedText | invest_loaders/load_orders.py:51-53 | empty is None, text is stripped, a number raises |
| Sheet.IntCell | invest_loaders/load_orders.py:56 | empty is None, a number is truncated, text succeeds exactly when it is an integer literal, and then holds that literal's value |
| Sheet.TimeCell | invest_loaders/load_orders.py:81 | empty is None, a number raises, text succeeds exactly when it matches the pattern, and then holds the instant the pattern reads, a valid one |
| Sheet.DecimalCell | invest_loaders/load_orders.py:55 | empty is None, a number passes through, text succeeds exactly when its rewrite parses, with that value |
| Sheet.RowOutcomes | invest_loaders/load_orders.py:48 | one outcome per row, in row order, each the row's own coercion |
| Store.InsertIgnoreSpec | invest_loaders/load_orders.py:124-128 | a row is added exactly when its key is NULL or absent; nothing stored changes; keys stay unique |
| Store.InsertIgnoreAgain | invest_loaders/load_orders.py:92 | inserting a keyed row a second time adds nothing and reports rowcount 0 |
| Store.HasKey | invest_loaders/load_orders.py:92 | true exactly when some stored row has the key |
| Store.ApplySpec | invest_loaders/load_orders.py:48-131 | a batch only appends, keeps keys unique, adds at most one row per input row, and reports exactly the rows that raised by 1-based index, increasing |
| Store.ApplyStoresKeys | invest_loaders/load_orders.py:92-128 | after a batch, the key of every coerced row is in the table |
| Store.ApplyNothingNew | invest_loaders/load_orders.py:92-128 | a batch whose keys are all present leaves the table as it was and counts nothing added |
| Store.ApplyFailedOnly | invest_loaders/load_orders.py:130-131 | which rows are reported does not depend on the table's contents |
| Store.ApplyRerun | invest_loaders/load_orders.py:48-131 | re-running the same rows adds nothing, leaves the table as the first run left it, and reports the same rows |
| Store.Table.Insert | invest_loaders/load_orders.py:124-128 | the new table and the rowcount are those of `INSERT IGNORE` on the old table; keys stay unique |
| Store.Table.Take | invest_loaders/load_orders.py:49-131 | one pass of the loop body extends the batch by this row's outcome |
| Ingest.InsertRows | invest_loaders/load_orders.py:48-131 | the table and counters after the loop are the batch of the rows' outcomes: appended only, unique keys, the raising rows reported |
| Ingest.CarriedAt | invest_loaders/load_deals.py:48-105 | row i's outcome is the loop body run on row i with the variables the earlier rows left |
| Ingest.InsertRowsCarrying | invest_loaders/load_deals.py:48-105 | as InsertRows, with the carried variables threaded through the rows in order, and their final values returned |
| Orders.PriceIgnoresSpaces | invest_loaders/load_orders.py:55 | a price reads the same with or without its spaces |
| Orders.PriceRejectsSymbol | invest_loaders/load_orders.py:55 | any character besides digits, point, comma and space makes the row fail |
| Orders.PriceDecimalComma | invest_loaders/load_orders.py:55 | digits, a comma and digits read as the exact decimal value |
| Orders.CommaToPoint | invest_loaders/load_orders.py:55 | the price rewrite turns digits, a comma and digits into the same digits around a point |
| Orders.PriceTextNoDigit | invest_loaders/load_orders.py:74 | the condition rewrite brings in no digit |
| Orders.AmountNoDataAnyCase | invest_loaders/load_orders.py:63-64 | text containing "данных" in any letter case gives a NULL amount |
| Orders.AmountRejectsSymbol | invest_loaders/load_orders.py:62 | outside "no data", a symbol other than `$`, `~`, comma and space makes the row fail |
| Orders.AmountIgnoresDecorations | invest_loaders/load_orders.py:62-63 | spaces, `$` and `~` anywhere in an amount do not change it, when neither the text nor the text without them says "no data" |
| Orders.AmountDecimalComma | invest_loaders/load_orders.py:62 | an amount whose text is digits, a comma and digits amid spaces, `$` and `~` is the exact decimal value, the comma read as the point |
| Orders.AmountSpacedNoData | invest_loaders/load_orders.py:62-63 | the "no data" test looks at the text before the removals: "дан ных" fails the row, while the same letters without the space give no amount |
| Orders.NoDataNeedsCyrillic | invest_loaders/load_orders.py:63 | text without Cyrillic letters never reads as "no data" |
| Orders.ConditionSentinel | invest_loaders/load_orders.py:70-77 | of the texts without a digit, only the bare "-" is NULL; every other one fails |
| Orders.OrderNumber | invest_loaders/load_orders.py:82-88 | an empty order number is None, a number is truncated, text succeeds exactly when it is an integer literal once its spaces are removed, and then holds that literal's value |
| Orders.OrderNumberIgnoresSpaces | invest_loaders/load_orders.py:85 | an order number reads the same with or without its spaces |
| Orders.OrderNumberDigits | invest_loaders/load_orders.py:82-88 | a zero-padded digit string is the number it denotes |
| Orders.CoerceOrder | invest_loaders/load_orders.py:82-88 | a converted row has an order-number column, and its order number is what that cell reads as |
| Orders.NumberColumnRequired | invest_loaders/load_orders.py:83 | a sheet whose stripped headers lack the order-number header fails on every row |
| Orders.InsertIntoMysql | invest_loaders/load_orders.py:38-140 | headers stripped; the table is the batch of the order rows, appended only; the total is the row count; inserted is at most the total; ignored is at least the number of rows that raised, which are reported |
| DealCells.DealTypeOf | invest_loaders/load_deals.py:55 | fails exactly when the cell is not text; buy and sell exactly for the two stripped words; otherwise NULL |
| DealCells.DealTypePadded | invest_loaders/load_deals.py:55 | the operation word is recognised whatever whitespace surrounds it |
| DealCells.DealDecimalComma | invest_loaders/load_deals.py:56-58 | a deal price or amount written with a decimal comma ("1234,56") is read as its exact decimal value |
| DealCells.DealDecimalInnerSpace | invest_loaders/load_deals.py:56-58 | a deal price or amount with an inner space ("1 234,56") fails the row |
| DealCells.FeeText | invest_loaders/load_deals.py:59 | the rewritten commission text holds only digits and points |
| DealCells.FeeNonNegative | invest_loaders/load_deals.py:59 | a commission or profit read from text is never negative |
| DealCells.FeeIgnoresOthers | invest_loaders/load_deals.py:62 | characters other than digits, point and comma do not change the value |
| DealCells.FeeNeedsDigit | invest_loaders/load_deals.py:59 | a text commission without any digit fails the row |
| DealCells.FeeRead | invest_loaders/load_deals.py:59 | a readable fee cell is empty exactly when the cell is, a number is kept, and text gives the non-negative value that its digits, points and commas alone give |
| Deals.CurrencyIn | invest_loaders/load_deals.py:61 | the code of the first symbol in table order that occurs in the text, or the fallback when none occurs |
| Deals.DollarFirst | invest_loaders/load_deals.py:11-17 | a cell containing `$` is in USD, whatever other symbols it holds |
| Deals.CurrencyOfSymbol | invest_loaders/load_deals.py:11-17 | a cell with exactly one of the five symbols is in that symbol's currency |
| Deals.ProfitStep | invest_loaders/load_deals.py:62-96 | the statements after the commission (profit, its currency, the record) never change the commission currency |
| Deals.MissingCommissionKeeps | invest_loaders/load_deals.py:60-61 | an empty commission cell leaves the commission currency as it was |
| Deals.PresentCommissionSets | invest_loaders/load_deals.py:59-61 | a readable commission cell sets the currency from that cell, even when a later column of the row raises |
| Deals.UnsetCommissionFails | invest_loaders/load_deals.py:60-95 | with the currency never set, a row with an empty commission fails |
| Deals.MissingProfitKeeps | invest_loaders/load_deals.py:63-64 | an empty profit cell leaves the profit currency as it was |
| Deals.PresentProfitSets | invest_loaders/load_deals.py:62-64 | a readable profit cell sets the profit currency from that cell (fallback `?`), even when the row then raises on an unbound commission currency |
| Deals.UnsetProfitFails | invest_loaders/load_deals.py:63-95 | with the profit currency never set, a row with an empty profit fails |
| Deals.StoredDealCurrencies | invest_loaders/load_deals.py:83-96 | a stored deal holds the currencies the row leaves set, and is keyed on its deal number |
| Deals.ReusedCommissionCurrency | invest_loaders/load_deals.py:60-93 | a stored row with an empty commission holds the currency the earlier rows left |
| Deals.ReusedProfitCurrency | invest_loaders/load_deals.py:63-95 | a stored row with an empty profit holds the profit currency the earlier rows left |
| Deals.NoCommissionYet | invest_loaders/load_deals.py:60-105 | until a row has a commission cell, the currency stays unset and every row fails |
| Deals.InsertIntoMysql | invest_loaders/load_deals.py:45-109 | the table is the batch of the deal rows with the currencies carried, appended only; the rows that raised are reported |
| LegacyDeals.LegacyFees | load_deals.py:46-76 | a stored row is keyed on its deal number; its commission and profit are NULL exactly when their cells are empty, a number is kept, and text gives the non-negative value of its digits, points and commas; the record depends on its own row only |
| LegacyDeals.LegacyNoCarry | load_deals.py:46-48 | empty commission and profit never fail a row, and are stored as NULL |
| LegacyDeals.InsertIntoMysql | load_deals.py:29-89 | the table is the batch of the deal rows, appended only; the rows that raised are reported |
| Rates.ParseExchangeRates | invest_loaders/currencies.py:42-54 | the loop's map is the fold of the entries, starting from RUR = 1.0 |
| Rates.RatesByExtends | invest_loaders/currencies.py:53 | one entry that converts sets its code to its rate |
| Rates.RatesByStops | invest_loaders/currencies.py:50-52 | one entry that raises makes the whole parse raise |
| Rates.RatesByFailed | invest_loaders/currencies.py:49-53 | once a prefix of the feed fails, the whole feed fails |
| Rates.RatesByDefined | invest_loaders/currencies.py:49-53 | the map is built exactly when every entry converts |
| Rates.RatesByKeys | invest_loaders/currencies.py:48-53 | the map's codes are RUR plus the codes of the entries |
| Rates.RatesByLastWins | invest_loaders/empty_rates.py:52 | a code holds the rate of the last entry that lists it |
| Rates.RatesByRouble | invest_loaders/currencies.py:48 | RUR is 1.0 unless the feed itself lists RUR |
| Numbers.DecimalComma | invest_loaders/currencies.py:51 | a decimal comma between digits becomes a point, and nothing else changes |
| Rates.CommaValue | invest_loaders/currencies.py:51 | a Value "a,b" is the decimal a.b |
| Rates.DigitNominal | invest_loaders/currencies.py:52 | a digit Nominal is its number |
| Rates.RateOfParts | invest_loaders/currencies.py:53 | the rate is value divided by nominal |
| Rates.FeedRate | invest_loaders/currencies.py:50-53 | an entry "a,b" per nominal n has rate a.b / n |
| Rates.ZeroNominalFails | invest_loaders/currencies.py:52-53 | a zero nominal anywhere makes the whole parse fail |
| Rates.ZeroNominalRate | invest_loaders/currencies.py:52-53 | an entry whose nominal reads as zero has no rate |
| Rates.Refreshed | invest_loaders/empty_rates.py:60-71 | id, date and RUR are kept, and USD, GBP, EUR, KZT come from the map, NULL when absent |
| Rates.UpdateRows | invest_loaders/empty_rates.py:60-71 | the rows with that id are refreshed, every other row is unchanged, and none is added |
| Rates.CountDate | invest_loaders/currencies.py:24-26 | the count is at most the number of rows |
| Rates.HasRatesForExactly | invest_loaders/currencies.py:24-29 | `check_existing_rates` is true exactly when some row has the date |
| Rates.CountDateAppend | invest_loaders/currencies.py:63-67 | a new row adds one to its own date's count and changes no other date's count |
| Rates.EmptyRecords | invest_loaders/empty_rates.py:22-28 | the selected rows all need rates and are table rows, and every row needing rates is selected |
| Rates.RateTable.Insert | invest_loaders/currencies.py:56-77 | one row is appended with the date, a fresh id and the map's rates; ids stay unique |
| Rates.RateTable.Update | invest_loaders/empty_rates.py:55-73 | the rows become the update of the old rows by the id; ids stay unique |
| DailyRates.RecordToday | invest_loaders/currencies.py:80-116 | stops without a request when today is stored; otherwise requests today once, and inserts nothing when the fetch or the parse fails; otherwise appends exactly today's row; at most one row per date is kept |
| DailyRates.RerunFindsDay | invest_loaders/currencies.py:94-96 | after a stored run, the next run the same day finds the day |
| DailyRates.CodeListed | invest_loaders/currencies.py:48-53 | RUR is always in the map, and any other code is in it exactly when some entry lists it |
| DailyRates.StoredRow | invest_loaders/currencies.py:67-74 | the stored row has RUR, and each of USD, GBP, EUR, KZT is set exactly when the feed lists it |
| Backfill.Lines | invest_loaders/empty_rates.py:94-114 | one line per selected row, in order, with its id and date; a success line exactly when that day converts, with its rates |
| Backfill.Backfilled | invest_loaders/empty_rates.py:96-107 | no row is added or removed, and ids, dates and RUR are never changed |
| Backfill.Run | invest_loaders/empty_rates.py:96-114 | the loop's lines, requests and pauses, and table are those of the selected rows in order |
| Backfill.Visit | invest_loaders/empty_rates.py:97-114 | one pass requests its row's day; when the day converts it updates the row by its id, logs a success line and pauses, otherwise it logs a failure line and leaves the table alone |
| Backfill.RunStep | invest_loaders/empty_rates.py:96-114 | one pass appends its row's line, its request, a pause exactly when the day converted, and that day's update |
| Backfill.FillEmptyRates | invest_loaders/empty_rates.py:75-119 | selects the rows needing rates; writes the results file exactly when there are any; lines, effects and table as Run, with the feed parsed |
| Backfill.BackfillUntouched | invest_loaders/empty_rates.py:100-114 | a row no converted day was selected for keeps all its values |
| Backfill.BackfillLastWins | invest_loaders/empty_rates.py:107 | a row ends with the rates of the last converted day selected for its id |
| Backfill.BackfillSkipsLast | invest_loaders/empty_rates.py:107 | a last pass for another id, or whose day does not convert, leaves the row as before |
| Backfill.BackfillAtLast | invest_loaders/empty_rates.py:107 | a last pass for the row's id whose day converts refreshes the row with that day's rates |
| Backfill.EmptyRecordsUnique | invest_loaders/empty_rates.py:22-28 | selection from a table with unique ids has unique ids |
| Backfill.SelectedById | invest_loaders/empty_rates.py:22-28 | the only selected row with a table row's id is that row |
| Backfill.FilledRowKept | invest_loaders/empty_rates.py:22-26 | a row with any foreign rate set is left exactly as it was |
| Backfill.FailedRowKept | invest_loaders/empty_rates.py:100-114 | a row whose day fails is left as it was; the failure stays on its own line |
| Backfill.EmptyRowFilled | invest_loaders/empty_rates.py:100-109 | a row needing rates whose day converts ends with that day's four rates, id, date and RUR kept |
| Backfill.RequestsOfPass | invest_loaders/empty_rates.py:102 | each pass requests exactly its row's day |
| Backfill.OneRequestPerRow | invest_loaders/empty_rates.py:96-102 | exactly one request per selected row, for its day, in selection order |
| Backfill.PauseFollowsUpdate | invest_loaders/empty_rates.py:99-113 | the loop sleeps exactly after the requests whose rates were read and written: every pause follows such a request, and every such request is followed by a pause; a failed fetch or parse goes on at once |

## Left out

- Empty cells are `Missing` and go through each script's `pd.notnull` guard as NULL. In pandas an empty cell is float NaN, which the `isinstance(..., (int, float))` branches catch first. Then the order price (invest_loaders/load_orders.py:55) and the deal price, amount, commission and profit (invest_loaders/load_deals.py:56-62, load_deals.py:42-48) would be NaN rather than NULL. An empty order number (invest_loaders/load_orders.py:83-84) would raise `int(nan)` and fail its row. The model has no NaN.
- Numbers are reals: `float()` rounding, `value / nominal` rounding, and NaN and infinity are not modelled.
- `float()` accepts only an optional sign and digits with an optional point, and `int()` only an optional sign and digits, each with surrounding whitespace. Python's exponents, underscores, `inf`/`nan` and Unicode digits are not modelled.
- `DealCells.FeeChar` keeps ASCII digits, point and comma. The fee filter `re.sub(r'[^\d.,]', '', ...)` also keeps other Unicode decimal digits, which `float()` would then read; those are not modelled.
- `strptime` is read strictly fixed-width. Python also accepts one-digit month, day, hour, minute and second fields, and lets a space in the format match any run of whitespace (`\s+`); neither is modelled. Its `%d`, `%m`, `%Y`, `%H`, `%M` and `%S` also match non-ASCII Unicode digits, which the model does not accept. Python's `%d` also accepts a space-padded day (`" 5"`), so a deal time may start with a space (`" 5.03.2024 10:00:00"`) and an order time may read `"2024-03- 5 10:00:00"`; the model requires two digits and rejects both. Trailing whitespace is rejected by both Python and the model.
- Cells of other types that `pd.read_excel` can return are not modelled, only empty, number and text cells. A date-formatted Excel column gives Timestamp cells: in the time column `datetime.strptime` then raises TypeError and the row fails, and `.strip()` or `float()` on one raises too. A bool cell passes the `isinstance(..., (int, float))` branches as 0 or 1, `int()` reads it as 0 or 1, and `.strip()` on it raises.
- `Strings.Lower` folds ASCII and Cyrillic capitals only.
- Several headers with the same stripped text are a lookup error here. pandas would return a Series, and the code would then raise later.
- `pd.read_excel`, the command line, `print`, `time.sleep` and writing `empty_rates_results.txt` are not modelled. The pause is an `Effect` in the trace. The file is the `Lines` sequence plus the `written` flag. The error text in a failed line is not kept.
- MySQL connections, commit, close, dotenv and database errors are left out. Connection and insert errors in `currencies.py` are not modelled.
- The unique keys (deal number, order number) are an assumption, since the schema is not in these files. So is the auto-increment `rate_id`.
- The order of `SELECT` without `ORDER BY` is taken to be table order.
- The HTTP request and the XML parsing are one function from the request date to the list of entries, or failure. A `Valute` element missing a child would fail the fetch here, not the parse. Each date is assumed to give the same answer each time it is requested.
- `datetime.now()` is the `today` parameter of `DailyRates.RecordToday`.
- The deal loaders do not strip headers (unlike the order loader), and the model keeps them as read.
- invest_loaders/test.py is not part of this model. It only opens a connection. The credentials at the top of load_deals.py are not reproduced.
- Calendar.RequestDate: its own contract states only the shape. The round trip is stated by `Calendar.RequestDateParses`.
- Calendar.Parse: its own contract states only that the instant is valid. That it accepts exactly the rendered texts is stated by `Calendar.ParseSound`, `Calendar.OrderPatternExact` and `Calendar.DealPatternExact`.
- Rates.CountDate: its own contract gives only the bound. Its meaning is stated by `Rates.HasRatesForExactly`.
