/** update_inventory.py: the dealer's inventory sheet cut down to the
    vehicles in stock and to the five columns the lookup reads, with MSRP
    written as "$" and digits. */
module Inventory {
  import opened Results
  import opened Seqs
  import opened Strings
  import opened Frames

  /** The status of a vehicle on the dealer's lot. */
  const DealerStock: string := "DS - Dealer Stock"

  /** The column the status is read from. */
  const StatusColumn: string := "Vehicle Status"

  /** The sheet's columns the output keeps, in output order ... */
  const Selected: seq<string> := ["VIN", "MY", "Model", "Description", "MSRP"]

  /** ... and the names they are written under. */
  const Renamed: seq<string> := ["VIN", "YEAR", "MODEL", "TRIM", "MSRP"]

  /** How a run ends: no sheet at the path (nothing written), a column the
      script indexes is absent (pandas' KeyError, naming the absent labels),
      or the cut-down table was written. */
  datatype Update = FileMissing | MissingColumns(names: seq<string>) | Written(table: Frame)

  /** The MSRP cleaner: "$" before the value with its commas removed, "$0"
      for a missing value. */
  function CleanMsrp(c: Cell): (r: Cell)
    ensures r.Text? && |r.text| >= 1 && r.text[0] == '$' && ',' !in r.text
    ensures c.NaN? ==> r == Text("$0")
    ensures c.Text? ==> |r.text| <= |c.text| + 1 && r.text[1..] == RemoveChar(c.text, ',')
    ensures c.Text? ==> forall x :: x != ',' ==> multiset(r.text[1..])[x] == multiset(c.text)[x]
  {
    match c
    case NaN => Text("$0")
    case Text(x) =>
      var r := "$" + RemoveChar(x, ',');
      assert r[1..] == RemoveChar(x, ',');
      RemoveCharCounts(x, ',');
      Text(r)
  }

  /** A sheet row whose status is dealer stock (a missing status is not). */
  predicate InStock(row: Row, columns: seq<string>)
    requires |row| == |columns|
  {
    CellOf(row, columns, StatusColumn) == Text(DealerStock)
  }

  /** The output row for a sheet row, read by column label: the four kept
      columns as they are, then the cleaned MSRP. */
  function OutputRow(row: Row, columns: seq<string>): (r: Row)
    requires |row| == |columns|
    ensures |r| == |Renamed|
  {
    [CellOf(row, columns, "VIN"), CellOf(row, columns, "MY"), CellOf(row, columns, "Model"),
     CellOf(row, columns, "Description"), CleanMsrp(CellOf(row, columns, "MSRP"))]
  }

  /** The rows in stock, in sheet order. */
  function StockRows(f: Frame): (r: seq<Row>)
    requires Shaped(f)
    ensures |r| <= |f.rows|
    ensures forall n :: 0 <= n < |r| ==> |r[n]| == |f.columns|
    ensures forall row :: row in r <==> row in f.rows && InStock(row, f.columns)
  {
    var cols := f.columns;
    Filter((row: Row) => |row| == |cols| && InStock(row, cols), f.rows)
  }

  /** The labels the script indexes that the sheet lacks: the status column
      alone when it is absent (the filter comes first), else the absent
      selected columns. */
  function AbsentColumns(columns: seq<string>): (r: seq<string>)
    ensures r == [] <==> StatusColumn in columns && forall c :: c in Selected ==> c in columns
    ensures forall c :: c in r ==> c !in columns
  {
    if StatusColumn !in columns then [StatusColumn]
    else Filter(c => c !in columns, Selected)
  }

  /** `OutputRow` of each of `rows`, in order. */
  function Outputs(rows: seq<Row>, columns: seq<string>): (r: seq<Row>)
    requires forall n :: 0 <= n < |rows| ==> |rows[n]| == |columns|
    ensures |r| == |rows|
    ensures forall n :: 0 <= n < |rows| ==> r[n] == OutputRow(rows[n], columns)
  {
    seq(|rows|, n requires 0 <= n < |rows| => OutputRow(rows[n], columns))
  }

  /** `update_inventory` on the sheet at the path, `None` when there is no
      file there. */
  function UpdateInventory(sheet: Option<Frame>): (r: Update)
    requires sheet.Some? ==> Named(sheet.value)
    ensures r.FileMissing? <==> sheet.None?
    ensures r.MissingColumns? <==> sheet.Some? && AbsentColumns(sheet.value.columns) != []
    ensures r.MissingColumns? ==> r.names == AbsentColumns(sheet.value.columns)
    ensures r.Written? ==> r.table == Output(sheet.value)
  {
    match sheet
    case None => FileMissing
    case Some(f) =>
      var absent := AbsentColumns(f.columns);
      if absent != [] then MissingColumns(absent)
      else Written(Output(f))
  }

  /** The table written: the five renamed columns, one output row per row in
      stock, in order. */
  function Output(f: Frame): (out: Frame)
    requires Shaped(f)
    ensures out.columns == Renamed && Shaped(out)
    ensures |out.rows| == |StockRows(f)| <= |f.rows|
    ensures forall i :: 0 <= i < |out.rows| ==> out.rows[i] == OutputRow(StockRows(f)[i], f.columns)
  {
    Frame(Renamed, Outputs(StockRows(f), f.columns))
  }

  /** The filter keeps sheet order: the rows in stock of a sheet cut in two
      are those of the first part followed by those of the second. */
  lemma StockRowsSplit(f: Frame, n: nat)
    requires Shaped(f) && n <= |f.rows|
    ensures StockRows(f) ==
            StockRows(Frame(f.columns, f.rows[..n])) + StockRows(Frame(f.columns, f.rows[n..]))
  {
    var cols := f.columns;
    var keep := (row: Row) => |row| == |cols| && InStock(row, cols);
    assert f.rows == f.rows[..n] + f.rows[n..];
    FilterAppend(keep, f.rows[..n], f.rows[n..]);
  }

  /** Filtering the kept rows again keeps them all. */
  lemma StockRowsIdempotent(f: Frame)
    requires Shaped(f)
    ensures StockRows(Frame(f.columns, StockRows(f))) == StockRows(f)
  {
    var cols := f.columns;
    var keep := (row: Row) => |row| == |cols| && InStock(row, cols);
    FilterKeepsAll(keep, StockRows(f));
  }

  /** Every MSRP of the written table is "$" and then the sheet's value with
      its commas removed (and nothing else removed), or "$0" where the sheet
      has none. */
  lemma WrittenMsrp(f: Frame)
    requires Named(f) && UpdateInventory(Some(f)).Written?
    ensures var out := UpdateInventory(Some(f)).table;
      forall i :: 0 <= i < |out.rows| ==>
        out.rows[i][4].Text? && out.rows[i][4].text[0] == '$' && ',' !in out.rows[i][4].text
    ensures var out := UpdateInventory(Some(f)).table;
      forall i :: 0 <= i < |out.rows| ==>
        CellOf(StockRows(f)[i], f.columns, "MSRP").NaN? ==> out.rows[i][4] == Text("$0")
    ensures var out := UpdateInventory(Some(f)).table;
      forall i :: 0 <= i < |out.rows| ==> var msrp := CellOf(StockRows(f)[i], f.columns, "MSRP");
        msrp.Text? ==> out.rows[i][4].text[1..] == RemoveChar(msrp.text, ',')
  {
    var out := UpdateInventory(Some(f)).table;
    forall i | 0 <= i < |out.rows|
      ensures out.rows[i][4] == CleanMsrp(CellOf(StockRows(f)[i], f.columns, "MSRP"))
    {
      assert out.rows[i] == OutputRow(StockRows(f)[i], f.columns);
    }
  }
}
