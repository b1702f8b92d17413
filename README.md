# Cost estimator pricing core, in Dafny

This project models the pricing core of a single-page cost estimator for
course production. The page keeps a price list ("cost data"): one row per
resource, with a resource name, one of four categories (Course Creation,
Studio, Talent, Animation), an internal cost rate and a billing rate. The
model covers five things:

- **Table edits** (`Ledger`). Rows are added, updated and deleted, and the
  whole table is written back after each edit. `CostTable` is a class whose
  methods update the in-memory rows and the persisted copy.
- **Table lookups** (`Query`). Two boolean-mask filters are modelled: rows of
  a category, and rows with a name. Beside them sits an independent
  reference, "the first index of a name".
- **Live estimator** (`Estimator`). It prices a quantity at the billing rate
  of the first row with the chosen category and resource.
- **Internal cost breakdown** (`Breakdown`). There is one record per distinct
  resource name, in first-occurrence order. Each record is priced from the
  first row with that name. Its units come from nine named inputs, chosen by
  a five-way rule on the row's category and name. Rows that match no rule are
  dropped. `CostBreakdown` is the loop as written. `TableBreakdown` is the
  function it is proved against.
- **Export file name** (`Export`). Spaces in the client and project names
  become underscores. The date stamp is `YYYY-MM-DD` and the extension is
  `.xlsx`.

Money is counted in integer cents. Unit counts and quantities are natural
numbers, because their inputs are integers with a lower bound of 0.

Positions are 0-based, as in the table's index. Two preconditions stand for
guarantees the page's selectors give:

- Update and delete are only offered for an index of the table.
- The estimator's resource is always one of the rows of the chosen category.

The name `CostTable.Load` covers loading the stored table, or an empty one
when nothing is stored. `persisted` stands for the stored file.

## Model

| member | source | states |
|---|---|---|
| Ledger.CostTable.Load | app.py:11-15 | the table is the stored table when one exists, otherwise empty; the stored copy is untouched |
| Ledger.CostTable.Add | app.py:38-42 | a row is appended exactly when its name is non-empty; earlier rows are unchanged, the new row is last, and the stored copy equals the new table; otherwise nothing changes; non-negative prices stay non-negative |
| Ledger.CostTable.Update | app.py:60-65 | row i becomes the four edited values, every other row and the length are unchanged, and the stored copy equals the new table |
| Ledger.CostTable.Delete | app.py:68-70 | row k is removed, rows before it keep their place, rows after it move up one, the stored copy equals the new table, and non-negative prices stay non-negative |
| Ledger.ReloadAfterUpdate | app.py:60-65 | with storage taken as exact, loading what an update wrote back gives the stored table with exactly row i replaced |
| Query.InCategory | app.py:78 | the category filter keeps exactly the rows of that category and never grows the table |
| Query.Named | app.py:82 | the name filter keeps exactly the rows with that name and never grows the table |
| Query.NameIndex | app.py:117 | the result is the first position of a row with the name, or the table length when no row has it |
| Query.FirstRow | app.py:117 | taking the first row of the name filter gives the row at the name's first position |
| Query.FirstNamedLeads | app.py:117 | the name filter is non-empty for a present name, and its first element is the row at the first position |
| Estimator.FirstMatch | app.py:78-82 | the result is the lowest position whose row has both the chosen category and the chosen resource |
| Estimator.SelectionIsFirstMatch | app.py:78-82 | filtering by category and then by resource, and taking the first row, finds the first row that matches both |
| Estimator.SelectedRow | app.py:82 | the selected row is the row at the first position matching category and resource |
| Estimator.LiveEstimate | app.py:82-84 | the estimate carries the selected resource, category and quantity; its rate is the first match's billing price; its total is rate times quantity, and zero when the quantity is zero |
| Estimator.EstimateData | app.py:75-95 | the estimate list is empty exactly when the table is empty; otherwise it holds one estimate with those fields |
| Breakdown.DefaultSlots | app.py:102-112 | the nine inputs are keyed by exactly the nine slot names, each starting at 1 |
| Breakdown.SlotKey | app.py:102-112 | a row's slot, read category by category, is always one of the nine slot names |
| Breakdown.UnitsFor | app.py:122-131 | the if/elif precedence gives the value of the row's slot, and drops the row exactly when it has no slot |
| Breakdown.UniqueNames | app.py:116 | the distinct names are exactly the names present in the table, with no repeats |
| Breakdown.UniqueNamesInFirstOccurrenceOrder | app.py:116 | the distinct names are listed in increasing order of their first positions |
| Breakdown.CostBreakdown | app.py:114-140 | the loop's records equal the breakdown of the table's distinct names |
| Breakdown.BreakdownRowsFromNames | app.py:116-139 | every record comes from one of the listed names and is priced from that name's first row |
| Breakdown.BreakdownCoversNames | app.py:116-140 | every listed name whose first row is charged has its record in the output |
| Breakdown.BreakdownOrigins | app.py:116-140 | each record can be traced to the position of its name, and those positions strictly increase |
| Breakdown.BreakdownKeepsOrder | app.py:116-140 | names in first-occurrence order give records in first-occurrence order |
| Breakdown.TableBreakdownFromFirstRows | app.py:117-139 | each record has the first row's internal cost and billing price, whatever that row's category; its units are what that row resolves to, and its total is cost times units |
| Breakdown.TableBreakdownInOrder | app.py:116 | the records follow the first positions of their names, so no name has two records |
| Breakdown.TableBreakdownCoversChargedNames | app.py:116-131 | every name whose first row resolves to a slot has a record |
| Breakdown.DefaultBreakdownChargesOneUnit | app.py:102-133 | with every input at its default, each record is charged one unit, and its total is its internal cost |
| Breakdown.BreakdownExample | app.py:102-140 | with three SME courses and two filming days, an SME row, a studio hire row and a lighting row give exactly the SME and studio hire records, with totals 30000 and 40000 cents |
| Breakdown.DuplicateNameExample | app.py:116-117 | of two Talent rows with the same name, only the first is charged |
| Export.Underscored | app.py:155 | replacing spaces keeps the length and leaves no space |
| Export.UnderscoredPointwise | app.py:155 | each space becomes an underscore and every other character stays |
| Export.UnderscoredKeepsSpaceless | app.py:155 | a name without spaces is unchanged |
| Export.UnderscoredIdempotent | app.py:155 | replacing spaces twice is the same as once |
| Export.UnderscoredExample | app.py:155 | "Acme Co" becomes "Acme_Co" |
| Export.IsoDate | app.py:154 | the date stamp is ten characters, with dashes at positions 4 and 7 and no space |
| Export.IsoDateRoundTrip | app.py:154 | the year, month and day fields of the stamp read back as the date they were written from |
| Export.IsoDateExample | app.py:154 | 1 June 2024 is stamped "2024-06-01" |
| Export.ExportFilename | app.py:155 | the file name is the underscored client, "_", the underscored project, "_estimate_", the date and ".xlsx", in that order; it has no space when the date has none |
| Export.ExportFilenameHasNoSpaces | app.py:154-155 | with any day's date stamp, the file name has no space |

## Left out

- Reading and writing the CSV file (app.py:11-19) is abstracted. The stored table is the `persisted` field and the `stored` argument of `CostTable.Load`; a missing file is `None`. Unreadable files and failed writes are not modelled.
- Ledger.ReloadAfterUpdate: the round trip is exact only because the CSV write and read (app.py:13, 19) are abstracted as the identity. In the source, an empty resource name, which the update form accepts (app.py:52, 61), is read back as NaN, and so are names such as "NA", "null" or "nan". Once such a row is stored, the name lookup at app.py:117 (`.iloc[0]` on an empty filter) raises on every later page run. The model does not capture this.
- The Excel workbook, built through `BytesIO`, `pd.ExcelWriter` and `xlsxwriter` (app.py:146-152), is a foreign library producing a binary format. It is not part of this model.
- The download button and its MIME type (app.py:156-161) are not modelled either.
- The clock (`datetime.now()`, app.py:154) is not modelled. The date is a parameter of `Export.ExportFilename`. `Export.IsoDate` gives the `%Y-%m-%d` format for four-digit years only.
- The Streamlit widgets, page reruns, success messages and the `:.2f` display formatting (app.py:43, 66, 71, 86-87) are user interface. They are not modelled.
- Prices in the source are floating point. Here they are integer cents.
- Estimator.LiveEstimate: the total is an exact product of cents and units. Float rounding in the source's product is not modelled.
- Breakdown.CostBreakdown: each record's total is an exact product of cents and units. Float rounding in the source's product is not modelled.
- Ledger.CostTable.Update and Ledger.CostTable.Delete require an index of the table, because the page's selector only offers such indexes (app.py:48). With any other label, Update's `.at` writes (app.py:61-64) would add a new row under that label, and Delete's `drop` (app.py:69) would raise a KeyError.
- Estimator.EstimateData requires that, on a non-empty table, the chosen resource occurs in the chosen category. The two selectors only offer such pairs. With any other pair, `.iloc[0]` would fail.
- Categories form a closed set. A stored category outside the four would make the edit form's `.index(...)` lookup fail (app.py:54). That failure is not modelled.
- Missing cells (NaN) in a loaded table are not modelled.
- The update form has no lower bound on its number inputs (app.py:55-56), so `Ledger.CostTable.Update` accepts negative prices and an empty name, as the source does. The add form's bound of 0 (app.py:35-36) is a precondition of `Ledger.CostTable.Add`.
