# Hyundai lease tool, modelled in Dafny

The repository is a small set of Python scripts a dealership uses to quote
Hyundai leases. This project models four of them:

- `convert_pdf_to_csv.py` turns the lease-program tables of a PDF rate sheet
  into one CSV. For each table it does the following:
  - cleans the column labels;
  - renames the labels' synonyms to seven canonical columns;
  - adds the canonical columns it lacks;
  - normalises the `Lease_Cash`, `Model_Year` and `Lease_Term` cells.

  It then concatenates the tables and drops repeated rows.
- `update_inventory.py` cuts the dealer's inventory sheet down to the
  vehicles in dealer stock. It keeps five renamed columns and writes MSRP as
  `$` followed by digits.
- `streamlit_app.py` is the lease quote tool. A VIN gives the vehicle, whose
  model number and credit tier select the lease offers. Each offer is priced
  at 10,000, 12,000 and 15,000 miles a year:
  - the residual is adjusted for mileage;
  - the money factor can be marked up;
  - a rebate can be applied;
  - the county's sales tax is added.
- `hyundai_lease_lookup_app.py` is the lease program lookup. A normalised
  VIN gives a model number. For each term, the program row is found in the
  rate-sheet table and the adjusted residual is listed for each mileage.

The Dafny modules follow these scripts:

- `PdfConvert`, `Inventory`, `QuoteTool` and `LeaseLookup`, one per script.
- `Mileage` holds the residual rule the two apps share.
- Library modules hold the Python and pandas operations the scripts rely on:
  - `Frames` models a DataFrame of text cells and `pd.concat`;
  - `Seqs` models boolean-mask filtering, `drop_duplicates` and
    first-occurrence search;
  - `Strings` models `strip`, `lower`/`upper`, `replace` and `split`;
  - `Numerals` models `str`, `int` and `float` on decimal numerals;
  - `Rounding` models `round(x, 2)` and `round(x, 4)`, half to even;
  - `Binary64` models the rounding of a real to the nearest double, as
    each step of `float` arithmetic rounds;
  - `Results` holds `Option` and `Result`.

Money and fractions are exact `real`s, except that the lookup app's residual
column is computed on doubles, where the truncation it ends with is
sensitive to them. A Python exception is an `Err` or a
dedicated outcome, such as `Aborted`, `MissingColumns` or `Crashed`. Files,
widgets and the PDF reader become parameters:

- the tables tabula returns;
- the sheet read, or `None` when the file is missing;
- the VIN typed;
- the tier and county picked;
- the toggles' states, keyed by term and mileage as their widget keys are.

## Model

| member | source | states |
|---|---|---|
| PdfConvert.CleanHeader | convert_pdf_to_csv.py:20 | a cleaned label is the stripped label with each space turned into one `_` and each letter lower-cased, so it has no surrounding whitespace, no space and no upper-case letter |
| PdfConvert.CleanHeaderIdempotent | convert_pdf_to_csv.py:20 | cleaning a cleaned label changes nothing |
| PdfConvert.NormalizeToRequired | convert_pdf_to_csv.py:23-43 | a raw label becomes a canonical column exactly when its cleaned form is a synonym the mapping sends there |
| PdfConvert.ModelNumberSynonyms | convert_pdf_to_csv.py:25-27 | `model_#`, `model_no` and `model_number` are the only cleaned labels that become `Model_Number` |
| PdfConvert.CleanLeaseCash | convert_pdf_to_csv.py:52-55 | empty, `nan` and blank cells give `$0`; a cell that is not a number once `$` and `,` are gone is an error carrying the cell; any other output is `$` and a numeral with no `,` and no `.` |
| PdfConvert.LeaseCashTruncates | convert_pdf_to_csv.py:54 | the number after the `$` is the cell's value truncated toward zero |
| PdfConvert.LeaseCashIdempotent | convert_pdf_to_csv.py:54 | the Lease_Cash cleaner maps its own output to itself |
| PdfConvert.PrintedCashReadsBack | convert_pdf_to_csv.py:54 | `$` followed by a printed integer is a fixed point of the Lease_Cash cleaner |
| PdfConvert.CleanPrefix | convert_pdf_to_csv.py:58-67 | missing text gives the default; otherwise the output is the prefix of the cell before the first separator |
| PdfConvert.CleanPrefixTwice | convert_pdf_to_csv.py:58-67 | such a cleaner is idempotent on a cell exactly when its first pass does not yield an empty or `nan` prefix |
| PdfConvert.ModelYearTwice | convert_pdf_to_csv.py:58-61 | the Model_Year cleaner (default `2025`, cut at `.`) is idempotent on a cell exactly when its first pass yields real text |
| PdfConvert.LeaseTermTwice | convert_pdf_to_csv.py:64-67 | the Lease_Term cleaner (default `36`, cut at a space) is idempotent on a cell exactly when its first pass yields real text |
| PdfConvert.RequiredColumnsDistinct | convert_pdf_to_csv.py:46 | the seven required columns are seven different labels |
| PdfConvert.AddedColumns | convert_pdf_to_csv.py:46-49 | the columns added are exactly the required ones the table lacks, each once |
| PdfConvert.CleanedColumnList | convert_pdf_to_csv.py:45-49 | a cleaned table keeps its own labels first, in order, and its labels stay distinct |
| PdfConvert.CleanedColumnListCovers | convert_pdf_to_csv.py:45-49 | every required column is present, and every label is the table's own or a required one |
| PdfConvert.FirstBadCash | convert_pdf_to_csv.py:52-55 | finds the first row whose Lease_Cash cell `float()` rejects, and none exactly when there is no such cell |
| PdfConvert.CleanNamed | convert_pdf_to_csv.py:45-67 | fails exactly when a Lease_Cash cell is not a number, with such a cell; otherwise every own cell has been through its column's cleaner, every added cell is the cleaner's output for `""`, and the three columns are in canonical form |
| PdfConvert.CleanTable | convert_pdf_to_csv.py:17-67 | the per-table body is the header stage, then the cell stage, with the same failure condition and cell-level guarantees |
| PdfConvert.CleanTableFails | convert_pdf_to_csv.py:43-55 | a table fails exactly when a column whose label becomes `Lease_Cash` holds a cell that is not a number |
| PdfConvert.CleanTableColumns | convert_pdf_to_csv.py:20-49 | a cleaned table's labels are its own labels cleaned and renamed, in order, followed by required columns; all seven are present, none twice |
| PdfConvert.CleanAll | convert_pdf_to_csv.py:15-67 | the loop succeeds exactly when every table cleans, and then returns each table's cleaned form in order |
| PdfConvert.CleanAllFirstFailure | convert_pdf_to_csv.py:15-55 | a failing loop stops at the first table that fails, with that table's error; every earlier table cleaned |
| PdfConvert.CleanAllReportsBadCash | convert_pdf_to_csv.py:53-55 | the error the loop stops with is a Lease_Cash cell that is not a number |
| PdfConvert.ConvertPdf | convert_pdf_to_csv.py:5-73 | no tables means nothing is written; an abort names a bad Lease_Cash cell; a written table has one cell per column and no repeated row |
| PdfConvert.ConvertAborts | convert_pdf_to_csv.py:9-55 | the run aborts exactly when there are tables and one of them fails to clean |
| PdfConvert.Combine | convert_pdf_to_csv.py:70-73 | the output has the concatenation's labels and exactly its rows, without repeats, in the order of their first occurrence in the concatenation |
| PdfConvert.ConvertedColumns | convert_pdf_to_csv.py:14-70 | the written labels include every required column and every table's cleaned and renamed label, each once, and nothing else: every written label is a required column or some table's label cleaned and renamed |
| PdfConvert.ConvertedRows | convert_pdf_to_csv.py:70-73 | the written rows are exactly the cleaned rows of all tables, re-laid out by the written labels |
| PdfConvert.ConvertedRowsInOrder | convert_pdf_to_csv.py:70-73 | the written rows are the tables' cleaned rows stacked table by table, each re-laid out by the written labels, with later repeats dropped |
| PdfConvert.ConvertedCanonical | convert_pdf_to_csv.py:51-73 | every written Lease_Cash, Model_Year and Lease_Term cell is in canonical form |
| Frames.CellOf | convert_pdf_to_csv.py:70 | a row's cell for a label is the cell under that label, or missing when the frame has no such label |
| Frames.RealignTwice | convert_pdf_to_csv.py:70 | re-laying out a row through labels that include its own equals re-laying it out at once |
| Frames.ConcatColumns | convert_pdf_to_csv.py:70 | the concatenation's labels are the first frame's labels followed by the second frame's new labels; it has every label of either frame, and distinct inputs give distinct output |
| Frames.Concat | convert_pdf_to_csv.py:70 | `pd.concat` of two frames: the first frame's rows, then the second's, each re-laid out by the union of labels |
| Frames.ConcatEmpty | convert_pdf_to_csv.py:14 | concatenating onto the empty starting frame gives the frame itself |
| Frames.ConcatAllKeepsLabels | convert_pdf_to_csv.py:70 | every label of every table is a label of the concatenation |
| Frames.ConcatAllLabelsFrom | convert_pdf_to_csv.py:70 | every label of the concatenation comes from some table |
| Frames.ConcatAllDistinctLabels | convert_pdf_to_csv.py:70 | tables with distinct labels concatenate to distinct labels |
| Frames.ConcatAllStack | convert_pdf_to_csv.py:70 | the pairwise loop equals stacking all the tables' rows, each re-laid out once by the final labels |
| Frames.ConcatAllBlock | convert_pdf_to_csv.py:70 | row i of table k lands at position (rows of earlier tables) + i, so table order is kept |
| Frames.ConcatAllOrigin | convert_pdf_to_csv.py:70 | every position of the concatenation is row i of some table k |
| Frames.ConcatAllRows | convert_pdf_to_csv.py:70 | the concatenation's rows are exactly the tables' rows, re-laid out |
| Seqs.Distinct | convert_pdf_to_csv.py:73 | removing repeats keeps the same elements, none twice, in order of first occurrence |
| Seqs.DropDuplicates | convert_pdf_to_csv.py:73 | the one-pass loop with a seen-set computes exactly the repeat-free sequence |
| Seqs.DistinctIdempotent | convert_pdf_to_csv.py:73 | dropping duplicates twice equals dropping them once |
| Seqs.AllOk | convert_pdf_to_csv.py:15-55 | a loop that raises at its first failing step succeeds exactly when every step does, and otherwise reports the first failure |
| Seqs.Filter | update_inventory.py:15 | a boolean mask keeps exactly the elements that pass, and nothing more |
| Seqs.FilterAppend | update_inventory.py:15 | filtering keeps source order: it distributes over concatenation |
| Seqs.FilterMultiset | streamlit_app.py:38-39 | a filter keeps each passing element as often as it occurs, and drops the rest |
| Seqs.FilterFilter | streamlit_app.py:38-39 | filtering by one mask and then another equals filtering once by both |
| Strings.Strip | streamlit_app.py:18 | `strip` leaves no surrounding whitespace and leaves text without any unchanged |
| Strings.StripInfix | streamlit_app.py:18 | `strip` returns the infix after the leading whitespace, followed only by whitespace, and is empty exactly for all-whitespace text |
| Strings.RemoveCharCounts | update_inventory.py:28 | `replace(",", "")` removes every comma and keeps every other character as often as before |
| Strings.BeforeFirst | convert_pdf_to_csv.py:60 | `split(sep)[0]` is the prefix before the first separator, or the whole text |
| Numerals.NatToStringRoundTrip | hyundai_lease_lookup_app.py:17 | reading back the digits `str` prints gives the number |
| Numerals.IntToStringRoundTrip | convert_pdf_to_csv.py:54 | reading back `str(i)` with `int` gives `i` |
| Numerals.ParseRenderRoundTrip | convert_pdf_to_csv.py:54 | every decimal numeral reads back from its canonical spelling |
| Numerals.ReadPrintedInt | convert_pdf_to_csv.py:54 | `float(str(n))` is `n` |
| Numerals.Truncate | hyundai_lease_lookup_app.py:63 | `int(x)` is less than one from `x`, toward zero |
| Numerals.TruncateDecimal | convert_pdf_to_csv.py:54 | truncating a numeral's value keeps exactly its integer digits |
| Rounding.RoundHalfEven | streamlit_app.py:52 | within a half of the input, a tie goes to the even integer, and integers are fixed |
| Rounding.Round2 | streamlit_app.py:52 | `round(x, 2)` is a whole number of cents within half a cent, and whole cents are kept |
| Rounding.Round4 | hyundai_lease_lookup_app.py:34-36 | `round(x, 4)` is on the ten-thousandths within half a unit, and such values are kept |
| Binary64.Nearest | hyundai_lease_lookup_app.py:57-63 | the double a real is read or computed as lies within a relative error of 2^-53 of it; the value itself is given by NearestScaledUp and NearestScaledDown |
| Binary64.NearestScaledUp | hyundai_lease_lookup_app.py:57-63 | for a non-zero real whose magnitude doubled k times lies in [2^52, 2^53), the double is that scaled magnitude rounded half to even to a whole number, halved k times, with the sign kept |
| Binary64.NearestScaledDown | hyundai_lease_lookup_app.py:57-63 | for a real whose magnitude halved k times lies in [2^52, 2^53), the double is that scaled magnitude rounded half to even to a whole number, doubled k times, with the sign kept |
| Binary64.NearestSmallScaled | hyundai_lease_lookup_app.py:63 | below 2^52 the nearest double is the whole number nearest the value scaled into [2^52, 2^53), scaled back |
| Binary64.ScalingExists | hyundai_lease_lookup_app.py:57-63 | every non-zero real can be doubled or halved into [2^52, 2^53), so NearestScaledUp and NearestScaledDown determine the double for every non-zero real |
| Inventory.CleanMsrp | update_inventory.py:28 | a missing MSRP becomes `$0`; a present one becomes `$` followed by the value with its commas removed, with every other character kept |
| Inventory.StockRows | update_inventory.py:15 | the rows kept are exactly the sheet's rows with status `DS - Dealer Stock`, never more than the sheet has |
| Inventory.StockRowsSplit | update_inventory.py:15 | the status filter keeps sheet order |
| Inventory.StockRowsIdempotent | update_inventory.py:15 | filtering the kept rows again keeps them all |
| Inventory.AbsentColumns | update_inventory.py:15-18 | the labels the script indexes but the sheet lacks are none exactly when the status column and all five selected columns are present |
| Inventory.UpdateInventory | update_inventory.py:5-28 | a missing file writes nothing; an absent column is a KeyError naming the absent labels; otherwise the written table is `Output` of the sheet |
| Inventory.Output | update_inventory.py:15-28 | the output has columns VIN, YEAR, MODEL, TRIM, MSRP, with one row per row in stock, in order, read from VIN, MY, Model, Description and MSRP |
| Inventory.WrittenMsrp | update_inventory.py:27-28 | every written MSRP starts with `$` and has no `,`; it is `$0` for a missing value and the sheet's value without commas otherwise |
| Mileage.Adjustment | hyundai_lease_lookup_app.py:33-36 | the change to the residual fraction is +0.01 exactly at 10,000 miles in the 33..48 month band, −0.02 exactly at 15,000 miles, and 0 otherwise |
| Mileage.AdjustedRate | streamlit_app.py:48-51 | the fraction is raised by 0.01 at 10,000 miles in the 33..48 month band, lowered by 0.02 at 15,000 miles, and kept otherwise |
| QuoteTool.TierMapRoundTrip | streamlit_app.py:31-33 | `tier_map` sends `Tier k` to k for k in 1..5, and every label it knows is its tier's label |
| QuoteTool.MatchVin | streamlit_app.py:17-25 | no vehicle exactly when no VIN equals the stripped input; otherwise the first vehicle whose VIN equals it |
| QuoteTool.VinMatchIsCaseSensitive | streamlit_app.py:18 | padded input finds its VIN, and lower-case input does not |
| QuoteTool.TaxRate | streamlit_app.py:35-36 | the rate of the first county row with the name picked |
| QuoteTool.SelectOffers | streamlit_app.py:38-39 | the offers kept are exactly those with the vehicle's model number and the tier, each with its multiplicity |
| QuoteTool.SelectOffersOrder | streamlit_app.py:38-39 | the selection keeps source order |
| QuoteTool.SelectOffersOneFilter | streamlit_app.py:38-39 | the two chained masks select what one mask on model number and tier selects |
| QuoteTool.ResidualAsWritten | streamlit_app.py:47-52 | the residual as coded, with the bonus decided by any selected offer's term, lands on whole cents |
| QuoteTool.ResidualAsWrittenCounterexample | streamlit_app.py:47-52 | a 24-month offer listed with a 36-month one gets 18,300 instead of 18,000 |
| QuoteTool.Residual | streamlit_app.py:47-52 | the residual is within half a cent of the MSRP times the fraction adjusted for the offer's own term and the mileage, and on whole cents |
| QuoteTool.ResidualAsWrittenAgrees | streamlit_app.py:47-52 | the code as written gives the intended residual whenever the other offers do not change the answer to "is the term in 33..48", or the mileage is not 10,000 |
| QuoteTool.Price | streamlit_app.py:59-68 | depreciation plus residual is the capitalised cost; the base payment times the term is the depreciation; pre-tax is base plus rent; with-tax is pre-tax plus its tax; there is no payment exactly when the term is 0 |
| QuoteTool.MarkupExact | streamlit_app.py:57-59 | with the markup on, the money factor is exactly MF + 0.0004; with it off, exactly MF |
| QuoteTool.RebateExact | streamlit_app.py:60-63 | with the rebate off, the capitalised cost is the selling price + 962.50; turning it on lowers it by exactly the lease cash |
| QuoteTool.PaymentFormula | streamlit_app.py:63-68 | with_tax = ((cap − residual)/term + (cap + residual)·mf)·(1 + tax); with no tax it is the pre-tax payment |
| QuoteTool.RebateSaving | streamlit_app.py:60-68 | the rebate lowers the taxed payment by exactly cash·(1/term + mf)·(1 + tax) |
| QuoteTool.PaymentMonotone | streamlit_app.py:63-68 | for a positive term and non-negative money factor and tax, a higher selling price never gives a lower payment |
| QuoteTool.OfferResidual | streamlit_app.py:47-62 | the residual a line is priced with, by the rule as written (any selected offer decides the bonus) or as intended (the line's own term decides); on whole cents, and the intended residual whenever the selection does not change the answer to "is the term in 33..48" or the mileage is not 10,000 |
| QuoteTool.ScenarioFor | streamlit_app.py:54-68 | one offer at one mileage has the offer's term and that mileage, and its quote is `Price` of the offer with the residual, selling price, tax rate and toggles given, so it carries that residual; it fails exactly for a zero term |
| QuoteTool.ScenarioAt | streamlit_app.py:54-68 | the line at position n fails exactly when offer n/3 has a zero term or repeats an earlier offer's term, since its toggle keys are then taken; otherwise it is that offer at mileage option n mod 3, priced with the rule's residual and the toggles for its term and mileage |
| QuoteTool.Scenarios | streamlit_app.py:54-70 | under either residual rule, the page succeeds exactly when the terms are distinct and non-zero, and then lists three lines per offer, in offer order, at 10,000, 12,000 and 15,000 miles |
| QuoteTool.ScenarioPosition | streamlit_app.py:54-70 | the line for offer i at mileage option j sits at position 3i + j; its quote, and so the payment shown, is `Price` of that offer with the rule's residual, the selling price, the tax rate and the toggles keyed by its term and mileage |
| QuoteTool.ScenariosRulesAgree | streamlit_app.py:47-62 | when the selected offers all lie on the same side of the 33..48 month band, the scenarios as written and as intended are the same |
| QuoteTool.QuotePage | streamlit_app.py:12-70 | VIN not found exactly when nothing matches; no offers exactly when the selection is empty; a shown page lists the selection's scenarios at the picked tier, county tax and price; a crashed page's scenarios fail |
| QuoteTool.QuotePageRulesAgree | streamlit_app.py:38-62 | the page as written and as intended are the same whenever the selected offers lie on one side of the 33..48 month band |
| QuoteTool.QuotePageOffers | streamlit_app.py:38-70 | a crashed page has an eligible zero-term offer or two selected offers with one term; a shown page has three lines per selected offer, each for an eligible offer's term |
| QuoteTool.ScenarioOffers | streamlit_app.py:38-70 | what stops the scenarios is an eligible zero-term offer or a repeated term, and every line shown is for an eligible offer |
| LeaseLookup.SectionRow | hyundai_lease_lookup_app.py:17-20 | the first row whose column 4 is `<term> Month Lease`, or none |
| LeaseLookup.ModelRowFrom | hyundai_lease_lookup_app.py:20-24 | the first row at or after the start whose column 1 is the model number, or none |
| LeaseLookup.ExtractLeaseData | hyundai_lease_lookup_app.py:16-29 | no title, or no model row from two rows below it, gives None; a table too narrow for column 4, or for column 12 once a row is found, fails; otherwise columns 3, 4 and 12 of the first such row |
| LeaseLookup.SearchCrossesSections | hyundai_lease_lookup_app.py:20-24 | the search runs past the next section title: a model absent from the 24-month section is reported from the 36-month one |
| LeaseLookup.AdjustResidual | hyundai_lease_lookup_app.py:32-37 | with no adjustment the fraction is returned unchanged; otherwise it is the fraction +0.01 (10,000 miles, 33..48 months) or −0.02 (15,000 miles), rounded to four places |
| LeaseLookup.AdjustResidualExact | hyundai_lease_lookup_app.py:32-37 | for a fraction given to four places the rounding never moves it, so the result is exactly base + 0.01, base − 0.02 or base |
| LeaseLookup.AppsAgreeOnResidual | hyundai_lease_lookup_app.py:32-37 | the quote tool's intended residual is the MSRP times this app's adjusted fraction, to the cent |
| LeaseLookup.AdjustedDouble | hyundai_lease_lookup_app.py:32-37 | the adjusted residual the app holds as a double, with NumPy's `round(..., 4)` since the cell is a `float64`: with no adjustment it is the double read for the sheet's value |
| LeaseLookup.Round4OnDoublesNear | hyundai_lease_lookup_app.py:34-36 | NumPy's `round(y, 4)` (scale by 10^4 on doubles, round half to even, divide back) gives the double nearest a four-place value whenever `y` is within a hundred-millionth of it |
| LeaseLookup.AdjustedDoubleExact | hyundai_lease_lookup_app.py:32-37 | for a residual given to four places, the double arithmetic (sum, step, `round(..., 4)`) lands on the double nearest the exact adjusted fraction |
| LeaseLookup.NearestOfCents | hyundai_lease_lookup_app.py:34-36 | the literals `0.01` and `0.02` denote 5764607523034235 / 2^59 and 5764607523034235 / 2^58 |
| LeaseLookup.ResidualPercentAsWritten | hyundai_lease_lookup_app.py:63 | `int(adj_resid * 100)`: for a non-negative residual, the double product truncated, never above the product and less than one below it |
| LeaseLookup.ResidualPercentAsWrittenShowsLess | hyundai_lease_lookup_app.py:57-63 | a 58% residual at 12,000 miles shows as 57%, and so does a 57% residual on a 36-month lease at 10,000 miles; the rounded column shows 58% for both |
| LeaseLookup.NearestOfPoint58 | hyundai_lease_lookup_app.py:63 | the double read for 0.58 is 5224175567749775 / 2^53 |
| LeaseLookup.NearestOfHundredTimes | hyundai_lease_lookup_app.py:63 | that double times 100 is 8162774324609023 / 2^47, just below 58 |
| LeaseLookup.ResidualPercent | hyundai_lease_lookup_app.py:63 | the corrected column: the double product rounded to a whole percent, within half a point of the product up to the double's error |
| LeaseLookup.WholePercentShown | hyundai_lease_lookup_app.py:63 | a whole percentage k read as the double nearest k/100 shows as k |
| LeaseLookup.PercentCases | hyundai_lease_lookup_app.py:57-63 | in the corrected column, a whole-percent residual n shows as n at 12,000 miles, n + 1 at 10,000 miles on a 33..48 month lease, and n − 2 at 15,000 miles, with the doubles the app computes |
| LeaseLookup.PercentLabelReadsBack | hyundai_lease_lookup_app.py:63 | the residual label ends in `%` and its digits read back as the percentage |
| LeaseLookup.TermRows | hyundai_lease_lookup_app.py:55-64 | three lines for the term, at 10,000, 12,000 and 15,000 miles in that order, carrying the row's lease cash, money factor and the adjusted residual as a rounded whole percentage (the corrected column); a residual that is not a number fails |
| LeaseLookup.TermResult | hyundai_lease_lookup_app.py:53-64 | a term with no data contributes nothing, a term with data contributes three lines, and the term fails exactly when its lookup or residual does |
| LeaseLookup.ResultsFor | hyundai_lease_lookup_app.py:53-64 | the loop fails exactly when some term fails; otherwise it lists three lines per term with data |
| LeaseLookup.NoDataIffEmpty | hyundai_lease_lookup_app.py:66-69 | the list is empty exactly when no term has a program row |
| LeaseLookup.ResultsLabels | hyundai_lease_lookup_app.py:49-64 | every line is for a term asked for and one of the mileage options |
| LeaseLookup.ResultsAppend | hyundai_lease_lookup_app.py:53-64 | the lines for the terms a + b are those for a followed by those for b, so term order is kept |
| LeaseLookup.NormalizeVin | hyundai_lease_lookup_app.py:44 | the normalised VIN has no surrounding whitespace and no lower-case letter |
| LeaseLookup.NormalizeVinIdempotent | hyundai_lease_lookup_app.py:44 | normalising twice equals normalising once |
| LeaseLookup.NormalizeVinIgnoresCase | hyundai_lease_lookup_app.py:44 | a VIN typed in lower case normalises to the same VIN |
| LeaseLookup.StripLower | hyundai_lease_lookup_app.py:44 | lower-casing commutes with `strip` |
| LeaseLookup.StockedModel | hyundai_lease_lookup_app.py:45-46 | no model exactly when no stock row has the VIN; otherwise the model of the first row with it |
| LeaseLookup.Lookup | hyundai_lease_lookup_app.py:42-71 | nothing until a VIN is typed; not found exactly when the normalised VIN is not stocked; "no lease data" only when every term's lookup gives None; a table is the non-empty results list; a crash has a failing term |

## Left out

- Streamlit and file I/O are outside the model:
  - widgets, caching, `st.write` and `st.dataframe` formatting;
  - `tabula.read_pdf`, `read_csv`, `read_excel`, `to_csv`, `os.path.exists`, prints.

  The scripts' inputs and the states of the widgets become parameters.
- Floating point is modelled as exact `real` arithmetic, except in the lookup app's residual column. `round` is exact half-to-even on that value, not on a binary double.
- LeaseLookup.AdjustedDouble takes the residual cell to be a NumPy `float64`, as a cell of a numeric column is (hyundai_lease_lookup_app.py:24-28). Its `round(..., 4)` is NumPy's rule (`LeaseLookup.Round4OnDoubles`), not Python's correctly rounded `round` for a plain `float`.
- Binary64.Nearest has an unbounded exponent: no overflow, no subnormals. The sheet's residual is taken to be read as the double nearest its decimal value, as a correctly rounding reader does.
- QuoteTool.Residual and QuoteTool.ResidualAsWritten compute on exact reals. The quote tool's `residual_pct += 0.01` on doubles can land a cent away from the exact residual after `round(..., 2)`, and that is not modelled.
- `float()` reads only an optional sign, digits and an optional fraction, not exponents, `inf` or `nan` spellings.
- pandas duplicate column labels are left out. The PDF tables are taken to have labels that stay distinct after cleaning and renaming (`Convertible`). The inventory sheet is taken to have distinct labels (`Named`), as `read_excel` makes them.
- PdfConvert.CleanHeader lower-cases ASCII letters only. Python's `lower` also maps other letters, such as `É` to `é`; the model leaves them unchanged.
- LeaseLookup.NormalizeVin upper-cases ASCII letters only. Python's `upper` also maps other letters, some to two characters (`ß` to `SS`); the model leaves them unchanged. VINs are ASCII.
- LeaseLookup.NormalizeVinIgnoresCase is therefore stated for the ASCII case mapping only.
- Strings.Lower and Strings.Upper map the ASCII letters only. Strings.Strip, Strings.StripInfix and the whitespace the cleaners trim use Python's full `isspace` set.
- pandas dtype inference is left out. PDF and inventory cells are text or missing. A rate-sheet cell is blank, text or a number.
- QuoteTool.Price: a zero term gives no payment, and a page with one counts as stopped. In the app, the division is by a Python `int` of a NumPy float, which yields an infinite payment with a warning rather than an exception. Exact reals have no infinity.
- QuoteTool.ScenarioFor fails on a zero term, following `QuoteTool.Price`; the app shows an infinite payment instead.
- QuoteTool.ScenarioAt, QuoteTool.Scenarios, QuoteTool.QuotePage, QuoteTool.QuotePageOffers and QuoteTool.ScenarioOffers inherit that: a selected offer with a zero term stops the page here, where the app goes on with an infinite payment on that offer's lines.
- QuoteTool.Scenarios and QuoteTool.QuotePage take the residual rule as a parameter. `AsWritten` is the app as coded; `Intended` is the corrected rule the Findings table names.
- QuoteTool.QuotePage fails on more than the model shows. A Lease Cash or Term that is missing makes `int()` in the toggle label raise (streamlit_app.py:56), and it is not modelled.
- QuoteTool.QuotePage reads the lease programs by the quote tool's own columns: `Model Number`, `Tier`, `Term`, `Lease Cash`, `MF` and `Residual` (streamlit_app.py:38-62). `convert_pdf_to_csv.py` writes `Combined_Lease_Programs.csv`, the file the app loads (streamlit_app.py:8), with the columns `Model_Number`, `Lease_Term`, `Lease_Cash` and `Residual_Value`. It has no money factor column, because `money_factor` is renamed to `Residual_Value` (convert_pdf_to_csv.py:39). On the converter's own output the app raises a KeyError at streamlit_app.py:38. The model takes the programs file to be already in the app's columns, and does not model that KeyError.
- QuoteTool.QuotePage takes the MSRP as a number. `update_inventory.py` writes MSRP as `$` text and different column names, which the quote tool's `float(msrp)` would not accept. The model treats the stock file the app reads as already numeric.
- QuoteTool.MatchVin and LeaseLookup.StockedModel take the first row when a VIN repeats. pandas' `.values[0]` does the same, but `.loc` on a duplicated index returns several rows.
- LeaseLookup.TermRows treats any residual that is not a number as a failure. In the app, text or a blank fails somewhere in the term's three lines (a type error or `int()` of NaN), and the model does not say which line.
- LeaseLookup.PercentCases and LeaseLookup.WholePercentShown are stated for whole percentages up to a million in size, which bounds the double's error. Rate sheets hold residuals between 0 and 100 percent.
- LeaseLookup.TermRows, LeaseLookup.ResultsFor and LeaseLookup.Lookup show the corrected residual column (`round`), not `int()`. The column as coded is `LeaseLookup.ResidualPercentAsWritten`, and the Findings table relates the two.
- LeaseLookup.ExtractLeaseData addresses the sheet by position (a 0, 1, 2, ... index) and reads a short row's missing cells as blank.
- The lease cash and money factor are shown as the sheet's cells. Their display formatting (`f"${...}"`) is not modelled.

## Findings

| source | as written | input that shows it | evidently intended | confidence | as-written member | corrected member |
|---|---|---|---|---|---|---|
| hyundai_lease_lookup_app.py:63 | the residual column is `int(adj_resid * 100)`, the double product truncated toward zero | a 58% residual at 12,000 miles: 0.58 is read as a double just below it, and 100 times it is 57.99999999999999, shown as 57%; a 57% residual on a 36-month lease at 10,000 miles also shows as 57% | `round(adj_resid * 100)`, which shows 58% for both | high; not executed | LeaseLookup.ResidualPercentAsWritten, LeaseLookup.ResidualPercentAsWrittenShowsLess | LeaseLookup.ResidualPercent, LeaseLookup.WholePercentShown, LeaseLookup.PercentCases |
| streamlit_app.py:48 | the +0.01 low-mileage bonus is granted at 10,000 miles when ANY selected offer has a term of 33 to 48 months, whatever the term of the offer being priced | offers for one model and tier with terms 24 and 36, residual 0.6, MSRP 30,000, 10,000 miles: the 24-month line gets 18,300.00 instead of 18,000.00 | the offer's own term decides, as `adjust_residual` in hyundai_lease_lookup_app.py:33 does | high; not executed | QuoteTool.ResidualAsWritten, QuoteTool.ResidualAsWrittenCounterexample, QuoteTool.QuotePage with `AsWritten` | QuoteTool.Residual, QuoteTool.ResidualAsWrittenAgrees, QuoteTool.ScenariosRulesAgree, QuoteTool.QuotePageRulesAgree, LeaseLookup.AppsAgreeOnResidual |
