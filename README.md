# Affiliate back-office: order review, shop list, charts, CSV import and demo sign-in

This project models the client-side logic of a React back-office for an affiliate
marketplace, written in Dafny. Orders (`commande` rows) come from a Supabase database. Staff
search and filter them, validate or refuse them one at a time or in bulk, and read
statistics and charts about them. A second page lists the partner shops (`marque`), which
can be switched on and off or deleted. A dialog imports daily revenue figures from a CSV
file into an in-memory store that is filtered by date. A demo authentication context signs
users in against two hard-coded accounts and a local registry. A dialog picks which
dashboard sections to show.

The modules:

- `Wrappers`: `Option` and `Result`.
- `Seqs`: order-preserving filter, removal, toggle, left-fold sum, insertion sort, prefix
  and suffix slices, and their laws.
- `Text`: JavaScript string behaviour the pages rely on: `trim`, `toLowerCase`, `includes`,
  `split`, decimal `toString`, `parseInt`, `parseFloat`, `padStart(2, '0')`.
- `Orders`: the order record, its validation status, status counts, amount sums, and the
  local status update after a validation.
- `Sales`: the sales page, with its filters, selection, per-order decision record, and
  single and bulk validation.
- `RecentOrders`: the recent-orders page, with its statistics, lapse-time text, status
  cell, button looks, selection and single validation.
- `OrderCharts`: the status, top-5-shop and last-6-month charts, the percentage column and
  the distinct-shop count.
- `DynamicStats`: the dashboard statistics cards.
- `Shops`: the shop list filter, active/inactive counts, average commission, and the local
  toggle and delete.
- `DashboardConfig`: the section-picker dialog.
- `CsvImport`: the CSV import dialog and its parser.
- `CsvStore`: the CSV data store and its date filter.
- `DemoAuth`: the demo authentication context.

Where the code keeps state in React hooks and changes it in handlers, the model is a class
whose fields are that state, and each handler is a method with a `modifies` clause. The
pure computations (filters, counts, sums, chart data, text formatting, parsing) are
functions. Their meaning is proved in lemmas next to them.

Remote calls (Supabase reads, updates and deletes) are outcomes passed in as `remoteOk`.
Clocks are parameters: `now`, `startOfToday`, and the `Clock` of the date filter. Date
parsing is a parameter `instant: string -> Option<int>`, where `None` stands for an
invalid date. The local calendar month of a timestamp is a parameter
`localMonth: string -> Option<YearMonth>`. `window.confirm` is the `confirmed` parameter.

Two behaviours of the code are modelled as written:

- The import dialog hands on its five-row preview, not every parsed row. `ImportedRowsOfFile`
  states that a file with more than five data lines is imported only in part.
- The bulk selection toggle on the sales page clears the selection whenever it is as long
  as the filtered list. It does not check that the two hold the same ids.

## Model

| member | source | states |
|---|---|---|
| CsvImport.HasContent | src/components/CSVImportModal.tsx:39 | a line is kept exactly when it is not all JavaScript whitespace |
| CsvImport.NonBlankLinesMeaning | src/components/CSVImportModal.tsx:39 | the kept lines are the non-blank lines of the text split at line feeds, in order, each kept as many times as it occurs, and none of them is blank |
| CsvImport.HeaderNames | src/components/CSVImportModal.tsx:40 | the header yields one name per comma plus one |
| CsvImport.NormalizedNames | src/components/CSVImportModal.tsx:40 | one name per part, each the part trimmed and then lower-cased |
| CsvImport.Fields | src/components/CSVImportModal.tsx:53 | a data line yields one value per comma plus one |
| CsvImport.Missing | src/components/CSVImportModal.tsx:43-44 | the missing columns are exactly the required ones the header lacks, in required order |
| CsvImport.MissingNone | src/components/CSVImportModal.tsx:43-48 | nothing is missing exactly when the header holds all five required columns |
| CsvImport.IndexOf | src/components/CSVImportModal.tsx:60-64 | `indexOf` gives the first position holding the name, or -1 when there is none |
| CsvImport.MapRow | src/components/CSVImportModal.tsx:59-65 | the record's date and shop are the values at the header positions of `date` and `shop` |
| CsvImport.CheckRows | src/components/CSVImportModal.tsx:52-57 | one outcome per data line, with data line k numbered k + 2 |
| CsvImport.ReadLine | src/components/CSVImportModal.tsx:53-72 | one pass of the loop body gives the outcome of that line |
| CsvImport.ParseDataLines | src/components/CSVImportModal.tsx:50-75 | the loop over the data lines returns the records, or throws the first line's error |
| CsvImport.ParseCsvText | src/components/CSVImportModal.tsx:38-76 | `parseCSV` as a whole returns what the parse function defines |
| CsvImport.CollectOk | src/components/CSVImportModal.tsx:50-75 | the parse succeeds exactly when every line does, and then yields every line's record in order |
| CsvImport.CollectFirstError | src/components/CSVImportModal.tsx:50-75 | a failed parse reports the error of a line that failed |
| CsvImport.CheckRowOk | src/components/CSVImportModal.tsx:55-70 | a line is accepted exactly when it has one value per column and a non-empty date, and then gives the mapped record |
| CsvImport.CheckRowErrorLine | src/components/CSVImportModal.tsx:55-57 | a line fails for its count of values exactly when the count differs, and for invalid data exactly when the count fits but the date is empty |
| CsvImport.ParseRecordsMissing | src/components/CSVImportModal.tsx:43-48 | the file is refused for missing columns exactly when the header lacks one, and the error lists them |
| CsvImport.ParseRecordsSuccess | src/components/CSVImportModal.tsx:50-75 | on success there is one record per data line, in order, each read from that line |
| CsvImport.ParseRecordsFirstBadLine | src/components/CSVImportModal.tsx:52-73 | on a line error, that line failed and every earlier line passed |
| CsvImport.ParseRecordsHasHeader | src/components/CSVImportModal.tsx:40 | once a header line exists, the file is never refused for lacking one |
| CsvImport.ParseLinesNoHeader | src/components/CSVImportModal.tsx:39-40 | the file fails for lack of a header exactly when it has no non-blank line |
| CsvImport.MapRowReorder | src/components/CSVImportModal.tsx:59-65 | reordering the header and a line's values the same way gives the same record |
| CsvImport.OnlyEmptyDateInvalid | src/components/CSVImportModal.tsx:61-68 | the date is empty exactly when its value is, and numbers that do not parse read as 0, so only the date can make a line invalid |
| CsvImport.Preview | src/components/CSVImportModal.tsx:89 | the preview is the first five records, or all of them when there are fewer |
| CsvImport.ImportModal.constructor | src/components/CSVImportModal.tsx:21-25 | a new dialog has no file, no preview and no messages |
| CsvImport.ImportModal.SelectFile | src/components/CSVImportModal.tsx:28-36 | choosing a file stores it and clears the messages and the preview; choosing none changes nothing |
| CsvImport.ImportModal.ProcessFile | src/components/CSVImportModal.tsx:78-96 | with no file nothing happens; a file that parses shows the preview and the row count; a failure shows the error and keeps the old preview |
| CsvImport.ImportModal.ShowOutcome | src/components/CSVImportModal.tsx:82-92 | once the text is parsed, success sets the five-row preview, the row count and no error, and failure sets the error and leaves the preview alone |
| CsvImport.ImportModal.Import | src/components/CSVImportModal.tsx:98-106 | import hands on the preview when it is non-empty and does nothing otherwise |
| CsvImport.ImportedRowsOfFile | src/components/CSVImportModal.tsx:87-100 | what is imported is the records of at most the first five data lines, so a longer file is imported only in part |
| CsvStore.GetFilteredData | src/contexts/CSVDataContext.tsx:55-81 | the filtered rows are the stored rows the filter keeps, in stored order, with every copy of a kept row kept and no copy of a dropped one |
| CsvStore.NoFilterKeepsAll | src/contexts/CSVDataContext.tsx:55-80 | an unknown filter value keeps every row |
| CsvStore.CustomRangeInclusive | src/contexts/CSVDataContext.tsx:71-77 | the custom range keeps a row exactly when all three dates parse and the row's date is within both bounds inclusive |
| CsvStore.YesterdayExact | src/contexts/CSVDataContext.tsx:58-62 | `yesterday` keeps exactly the rows whose date text equals yesterday's date text |
| CsvStore.SevenDaysWithinThirty | src/contexts/CSVDataContext.tsx:63-70 | the last-7-days rows are a subsequence of the last-30-days rows |
| CsvStore.FilterAfterAdd | src/contexts/CSVDataContext.tsx:46-81 | filtering after an add gives the old filtered rows followed by the filtered new rows |
| CsvStore.Store.constructor | src/contexts/CSVDataContext.tsx:23 | the store starts empty |
| CsvStore.Store.AddCsvData | src/contexts/CSVDataContext.tsx:46-48 | adding appends the new rows after the stored ones |
| CsvStore.Store.ClearCsvData | src/contexts/CSVDataContext.tsx:50-53 | clearing empties the store |
| DemoAuth.FindLogin | src/contexts/DemoAuthContext.tsx:83 | `find` gives the first registry account with that email and password, or none when no account matches |
| DemoAuth.HardCodedFirst | src/contexts/DemoAuthContext.tsx:51-78 | the admin and test logins succeed with their fixed users whatever the registry holds |
| DemoAuth.RegistryFirstMatch | src/contexts/DemoAuthContext.tsx:80-101 | any other login succeeds exactly when a registry account matches, and signs in as the first match |
| DemoAuth.SignUpThenSignIn | src/contexts/DemoAuthContext.tsx:108-142 | after signing up with a fresh email, signing in with the same credentials gives the new user |
| DemoAuth.SignUpKeepsLogins | src/contexts/DemoAuthContext.tsx:83-130 | a registration never changes the outcome of a login that already succeeded |
| DemoAuth.AuthProvider.constructor | src/contexts/DemoAuthContext.tsx:31-43 | the context starts from the saved user and the saved registry |
| DemoAuth.AuthProvider.SignIn | src/contexts/DemoAuthContext.tsx:45-106 | a successful sign-in sets the user, a failed one reports the error and leaves the user alone, and the registry never changes |
| DemoAuth.AuthProvider.SignUp | src/contexts/DemoAuthContext.tsx:108-148 | an email in use is refused with nothing changed; otherwise the account is appended and its user is signed in |
| DemoAuth.AuthProvider.SignOut | src/contexts/DemoAuthContext.tsx:150-155 | signing out clears the user and keeps the registry |
| Orders.StatusPartition | src/components/DynamicStats.tsx:73-76 | the validated, refused, pending and other-status counts add up to the number of orders |
| Orders.CountsCoverAll | src/components/DynamicStats.tsx:73-76 | the three counted statuses never exceed the total, and equal it exactly when no order has another status |
| Orders.AmountTotalOfKnown | src/components/DynamicStats.tsx:78 | orders without an amount add nothing to the amount total |
| Orders.Ids | src/app/ventes/page.tsx:139 | the id list has one id per order, in order |
| Orders.SetStatus | src/app/ventes/page.tsx:233-237 | the local update keeps the length and the ids of the list |
| Orders.SetStatusOnlyTargets | src/app/ventes/page.tsx:233-237 | only orders whose id is targeted change, and only in status and validation date |
| Orders.SetStatusIdempotent | src/app/ventes/page.tsx:233-237 | applying the same update twice is the same as once |
| Orders.SetStatusKeepsTotals | src/app/ventes/page.tsx:233-237 | a status update leaves the amount and commission totals unchanged |
| Orders.ValidateCount | src/app/ventes/page.tsx:233-237 | after validating, the validated orders are those validated before plus those targeted |
| Orders.StatusKey | src/components/OrderCharts.tsx:60 | the key is never empty, and is `en_attente` exactly for a falsy or `en_attente` status |
| Orders.StatusTextCases | src/app/ventes/page.tsx:267-273 | the badge is validated exactly for `valide`, refused exactly for `refuse`, and pending otherwise |
| Sales.FilterCommandesIsOneFilter | src/app/ventes/page.tsx:105-133 | the three filters in a row keep, in order, exactly the orders that pass every enabled test |
| Sales.NoFilterListsAll | src/app/ventes/page.tsx:105-133 | with no term and both selectors on `all`, every order is listed in fetched order |
| Sales.SearchMeaning | src/app/ventes/page.tsx:109-115 | search matches a case-folded substring of the order number or shop name, or a substring of the publisher id's decimal text |
| Sales.StatusSelector | src/app/ventes/page.tsx:118-125 | the status selector lists exactly the pending, validated or refused orders among those passing the other tests |
| Sales.NextAction | src/app/ventes/page.tsx:153-156 | clicking the recorded action clears it, and clicking any other records the clicked one |
| Sales.ClickTwice | src/app/ventes/page.tsx:153-156 | clicking the same button twice restores an empty or matching record |
| Sales.ClickFlipsStyle | src/app/ventes/page.tsx:275-283 | a click changes the clicked order's button look and no other order's |
| Sales.BulkActionsRecord | src/app/ventes/page.tsx:217-222 | after the merge, every selected id records the action and every other id keeps its record |
| Sales.SalesPage.constructor | src/app/ventes/page.tsx:19-35 | the page starts with the fetched orders, no filter, no selection and no records, so it lists every order |
| Sales.SalesPage.SelectAll | src/app/ventes/page.tsx:135-141 | the toggle clears a selection as long as the list, and otherwise selects the listed ids in order |
| Sales.SalesPage.SelectCommande | src/app/ventes/page.tsx:143-149 | a click toggles the id: present ids leave the selection, absent ones are appended |
| Sales.SalesPage.ActionClick | src/app/ventes/page.tsx:151-198 | the record flips first; the order takes the new status only when one is set and the update succeeds |
| Sales.SalesPage.BulkAction | src/app/ventes/page.tsx:200-257 | with an empty selection or a failure nothing changes; otherwise every selected order takes the status, the records are merged and the selection is cleared |
| RecentOrders.GetStats | src/app/dernieres-commandes/page.tsx:244-252 | each count is the number of validated, refused and status-less orders; together they never exceed the total and fill it exactly when no other status occurs; the amount sums the orders that have one |
| RecentOrders.ClickKeepsTotals | src/app/dernieres-commandes/page.tsx:116-120 | a successful click changes neither the order count nor the amount total |
| RecentOrders.JsRem | src/app/dernieres-commandes/page.tsx:233 | `%` takes the sign of the dividend and stays below the divisor in size: the Euclidean remainder for a non-negative dividend, and that remainder minus the divisor (or 0) for a negative one |
| RecentOrders.FormatLapseTimeReadsBack | src/app/dernieres-commandes/page.tsx:230-235 | a positive lapse prints as hours, `h`, two-digit minutes below 60, and reading them back gives the lapse |
| RecentOrders.FormatLapseTimeNA | src/app/dernieres-commandes/page.tsx:231 | a missing or zero lapse prints `N/A`, and a positive one never does |
| RecentOrders.FormatLapseTimeNegative | src/app/dernieres-commandes/page.tsx:230-235 | a negative lapse prints with a leading minus, as the rounded-down hours, `h`, and the minutes with the lapse's sign, so hours times 60 plus minutes is the lapse, or the lapse minus 60 when it is not a whole number of hours (-65 prints `-2h-5`) |
| RecentOrders.StatusCell | src/app/dernieres-commandes/page.tsx:527-528 | the cell shows the same badge as the status itself, so a missing or unknown status reads as pending |
| RecentOrders.ButtonStyleCases | src/app/dernieres-commandes/page.tsx:197-207 | a button is active exactly when its action is recorded, disabled exactly when the other one is, and plain when none is |
| RecentOrders.ClickStyles | src/app/dernieres-commandes/page.tsx:100 | after a click the clicked button is active and the other disabled, and no other order's buttons change |
| RecentOrders.RecentOrdersPage.constructor | src/app/dernieres-commandes/page.tsx:23-33 | the page starts with the fetched orders, no selection and no records |
| RecentOrders.RecentOrdersPage.ActionClick | src/app/dernieres-commandes/page.tsx:97-145 | the action is recorded before the update, and the order takes the status only when the update succeeds |
| RecentOrders.RecentOrdersPage.SelectCommande | src/app/dernieres-commandes/page.tsx:147-153 | ticking appends the id, and unticking removes every copy and keeps the others |
| RecentOrders.RecentOrdersPage.SelectAll | src/app/dernieres-commandes/page.tsx:155-161 | ticking selects every listed id, unticking clears, and the header box then shows ticked exactly when it was ticked on a non-empty list |
| RecentOrders.TickUntick | src/app/dernieres-commandes/page.tsx:147-153 | ticking then unticking an id leaves the selection without it, and exactly as before when it was absent |
| OrderCharts.TallyOf | src/components/OrderCharts.tsx:59-63 | the tally lists each key once and counts exactly the listed keys |
| OrderCharts.TallyCounts | src/components/OrderCharts.tsx:59-63 | the tally counts exactly the keys that occur, each with its number of occurrences |
| OrderCharts.TallyKeys | src/components/OrderCharts.tsx:59-63 | the counting loop builds the tally |
| OrderCharts.TallyTotal | src/components/OrderCharts.tsx:59-74 | the counts add up to the number of orders |
| OrderCharts.StatusChart | src/components/OrderCharts.tsx:58-86 | one value per label, and the values add up to the number of orders |
| OrderCharts.Percentage | src/components/OrderCharts.tsx:165-167 | a share is 0 for an empty chart and lies between 0 and 100 |
| OrderCharts.PercentagesSumTo100 | src/components/OrderCharts.tsx:165-167 | the shares of a non-empty chart add up to 100 |
| OrderCharts.ByCountDescOrder | src/components/OrderCharts.tsx:96 | the descending-count comparison is a strict weak order |
| OrderCharts.TopShops | src/components/OrderCharts.tsx:95-97 | exactly five shops are kept, or every shop when there are fewer |
| OrderCharts.TopShopsRanked | src/components/OrderCharts.tsx:88-97 | the kept shops are real tallies, in non-increasing count, and no dropped shop has more orders than a kept one |
| OrderCharts.Columns | src/components/OrderCharts.tsx:99-100 | labels and data line up with the entries, one each |
| OrderCharts.ShopsChartMeaning | src/components/OrderCharts.tsx:88-110 | the shop chart has min(5, shops) bars, each a shop name that occurs with its number of orders, in non-increasing order |
| OrderCharts.MonthKeyReadsBack | src/components/OrderCharts.tsx:115-120 | a month key is the year, `-`, and a two-digit month number that reads back as the month |
| OrderCharts.StrLessTotal | src/components/OrderCharts.tsx:123 | the key comparison is total and asymmetric |
| OrderCharts.StrLessTrans | src/components/OrderCharts.tsx:123 | the key comparison is transitive |
| OrderCharts.ByKeyOrder | src/components/OrderCharts.tsx:123 | the key order is a strict weak order |
| OrderCharts.LastMonths | src/components/OrderCharts.tsx:122-124 | exactly six months are kept, or every month when there are fewer |
| OrderCharts.LastMonthsLatest | src/components/OrderCharts.tsx:114-124 | the kept months are real tallies in strictly ascending key order, and every dropped month comes before every kept one |
| OrderCharts.MonthlyChartMeaning | src/components/OrderCharts.tsx:113-134 | the monthly chart has min(6, months) bars, each a month key that occurs with its number of orders, keys ascending |
| OrderCharts.DistinctShopsBounds | src/components/OrderCharts.tsx:331 | the distinct shop count is at most the order count, and at least 1 when there are orders |
| DynamicStats.ValidationRateBounds | src/components/DynamicStats.tsx:89 | the rate lies in [0, 100], and is 100 exactly when every order is validated |
| DynamicStats.ComputeStats | src/components/DynamicStats.tsx:58-89 | no data gives all zeros; otherwise each card is its figure (the order count, the validated, refused and status-less counts, the commission total, today's count, the validation rate), the counts stay within the total, the rate is in [0, 100], and the amount ignores missing values |
| DynamicStats.RateMeaning | src/components/DynamicStats.tsx:74-89 | the rate is 100 exactly when there are orders and all are validated, and 0 when none is |
| DynamicStats.TodayCountMeaning | src/components/DynamicStats.tsx:82-87 | an order counts as today's exactly when its date parses to an instant at or after the start of day, and a later start counts no more |
| Shops.FilterMarquesIsOneFilter | src/app/marques/page.tsx:83-105 | the list shown is, in order, exactly the shops passing the enabled search and status tests |
| Shops.NoFilterListsAll | src/app/marques/page.tsx:96-102 | with no term and a status value other than `actif` or `inactif`, every shop is listed |
| Shops.SearchMeaning | src/app/marques/page.tsx:87-93 | search matches a case-folded substring of the name or slug, or a substring of the shop id's decimal text |
| Shops.GetStats | src/app/marques/page.tsx:174-180 | active counts the shops flagged true and inactive those flagged false; together they never exceed the total, and equal it exactly when every shop has a flag |
| Shops.FlagPartition | src/app/marques/page.tsx:174-180 | active, inactive and unflagged shops add up to the total |
| Shops.AverageBetween | src/app/marques/page.tsx:284-287 | there is no average exactly for an empty list, and otherwise it lies within any bounds of the percentages, a missing one counting as 0 |
| Shops.SetActiveOnlyTarget | src/app/marques/page.tsx:157-159 | only shops with the id change, and only in their flag, after which they are listed under the matching status and not the other |
| Shops.RemoveShopMeaning | src/app/marques/page.tsx:139 | delete keeps, in order, exactly the shops with another id, and shrinks the list by the shops with the id |
| Shops.ShopsPage.constructor | src/app/marques/page.tsx:26-33 | the page starts with the fetched shops, no term and the `all` status |
| Shops.ShopsPage.ToggleStatus | src/app/marques/page.tsx:146-164 | on success the shops with the id take the new flag, and on failure nothing changes |
| Shops.ShopsPage.DeleteShop | src/app/marques/page.tsx:124-144 | nothing changes unless the delete is confirmed and succeeds, and then the shops with the id leave the list |
| DashboardConfig.SectionIdsDistinct | src/components/DashboardConfigModal.tsx:12-19 | the six declared ids are distinct |
| DashboardConfig.ToggleReachable | src/components/DashboardConfigModal.tsx:24-30 | toggling a declared id keeps the selection duplicate-free and declared-only |
| DashboardConfig.ToggleTwice | src/components/DashboardConfigModal.tsx:24-30 | toggling twice restores the selection exactly when the id was absent, and as the same multiset when present |
| DashboardConfig.DashboardConfigModal.constructor | src/components/DashboardConfigModal.tsx:22 | the dialog starts with nothing selected |
| DashboardConfig.DashboardConfigModal.Toggle | src/components/DashboardConfigModal.tsx:24-30 | a selected id leaves the selection, an unselected one is appended, and a declared id keeps the selection reachable |
| DashboardConfig.DashboardConfigModal.SelectAll | src/components/DashboardConfigModal.tsx:32-34 | select-all gives the six declared ids in declaration order |
| DashboardConfig.DashboardConfigModal.SelectNone | src/components/DashboardConfigModal.tsx:36-38 | select-none empties the selection |
| DashboardConfig.DashboardConfigModal.Apply | src/components/DashboardConfigModal.tsx:40-43 | with nothing selected nothing happens; otherwise the selection is handed over unchanged and the dialog closes |
| DashboardConfig.StepsStayReachable | src/components/DashboardConfigModal.tsx:24-38 | any run of toggle, select-all and select-none steps on declared ids keeps a reachable selection reachable |
| DashboardConfig.FromEmptyReachable | src/components/DashboardConfigModal.tsx:22-38 | from the initial empty selection, any run of the dialog's steps ends with no duplicate and only declared ids |
| Seqs.Toggled | src/components/DashboardConfigModal.tsx:24-30 | an absent value is appended at the end; a present value loses every copy while the rest keep their order and multiplicity |
| Seqs.FilterMultiset | src/contexts/CSVDataContext.tsx:62-72 | `filter` keeps every copy of a passing element and no copy of a failing one |
| Seqs.SortByIsSorted | src/components/OrderCharts.tsx:96 | sorting by a strict weak order gives a sorted sequence |
| Seqs.Take | src/components/OrderCharts.tsx:97 | `slice(0, n)` keeps at most n elements, as a prefix |
| Seqs.TakeLast | src/components/OrderCharts.tsx:124 | `slice(-n)` keeps at most n elements, the last ones |
| Text.Trim | src/components/CSVImportModal.tsx:40 | the result is a slice of the text with only white space before and after it, empty exactly for an all-whitespace text, otherwise beginning and ending with a non-whitespace character |
| Text.Lower | src/app/marques/page.tsx:88 | lower-casing keeps the length and maps each character |
| Text.ContainsIff | src/app/marques/page.tsx:88 | `includes` holds exactly when the term occurs at some position |
| Text.JoinSplit | src/components/CSVImportModal.tsx:39 | joining the split pieces with the separator gives back the text |
| Text.NatToStringValue | src/app/dernieres-commandes/page.tsx:234 | the decimal text of a number reads back as that number |
| Text.ParseIntToString | src/components/CSVImportModal.tsx:62 | `parseInt` of an integer's decimal text gives the integer back |
| Text.ParseFloatNat | src/components/CSVImportModal.tsx:61 | `parseFloat` of a whole number's decimal text gives the number back |
| Text.PadStart2Value | src/app/dernieres-commandes/page.tsx:234 | a number below 100, padded, is two digits that read back as the number |

## Left out

- Supabase reads, updates, deletes and joins are not modelled. Each update or delete is
  its outcome only, the `remoteOk` parameter. The fetched rows are a constructor argument.
- Loading flags, error banners, `alert`, `console` output, row flash effects (`rowEffects`)
  and their timers, the 30-second polling and the 1.5-second close delay are display
  state or timing, and are not modelled.
- `localStorage` and JSON (de)serialisation are not modelled. The CSV store and the auth
  registry are in-memory fields, and the saved user and registry are constructor
  arguments. The dashboard's `handleDashboardConfig` storage and redirect are not modelled.
- The simulated one-second delays in sign-in and sign-up are not modelled.
  `Date.now().toString()` as a new account id is a parameter.
- Time zones and calendars are parameters: date parsing (`instant`), the local month
  (`localMonth`), the start of today, and the clock of the date filter.
- `toLowerCase` folds ASCII letters only. Other letters are left as they are.
- `parseInt` and `parseFloat` are modelled for decimal digits with an optional sign and
  (for floats) a fraction. Hexadecimal, exponents and `Infinity` are not modelled. NaN is
  not modelled beyond the "no number" case read as 0. Amounts are reals, so floating-point
  rounding and `toFixed` are not modelled.
- `OrderCharts.StatusChart`: does not state each value's count. `Object.keys` puts
  integer-like keys first. The model keeps first-appearance order, so a status text that
  is an array index would be placed differently.
- `RecentOrders.FormatLapseTime`: `lapse_time` is a JavaScript number but is modelled as an
  integer number of minutes, so fractional minutes are not modelled. Negative lapses are
  modelled as the code prints them (rounded-down hours, minutes with the lapse's sign).
- `OrderCharts.ByKeyOrder`: `localeCompare` is modelled as code-unit order. This is the same
  for the `YYYY-MM` keys the code builds. The month label's locale rendering
  (`toLocaleDateString`) is not modelled.
- `OrderCharts.TallyOf`: the code tallies into a plain object, so a key that names an
  `Object.prototype` member behaves differently there. For `constructor`, the count becomes a
  string, because `acc[key] || 0` reads the inherited function. For `__proto__`, the
  assignment is ignored and the key disappears. The model counts these keys like any other.
- `OrderCharts.TopShops`: `Object.entries` lists integer-like shop names (such as `123`)
  first, in ascending numeric order, and the other names in insertion order. The model
  keeps insertion order for all of them, so when counts tie at the cut-off the kept
  shops can differ from the code's.
- `OrderCharts.TopShopsRanked`: does not state how ties are ordered. The sort is an
  insertion sort; `Array.prototype.sort` is also stable, but that is not proved.
- Chart colours, chart options and the component markup are not modelled.
- `DashboardConfig.ToggleTwice`: toggling a present id twice moves it to the end, so the
  selection comes back as the same multiset rather than the same sequence.
- `Sales.SalesPage.SelectAll`: the code compares only the lengths of the selection and the
  filtered list, and the model does the same.
- The shop page's add, edit, commission and access modals and their forms are not modelled.
