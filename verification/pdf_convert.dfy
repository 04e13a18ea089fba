/** convert_pdf_to_csv.py: the lease-program tables read from the PDF are
    cleaned one by one (headers, synonyms, required columns, three cell
    cleaners), concatenated, and stripped of repeated rows. */
module PdfConvert {
  import opened Results
  import opened Seqs
  import opened Strings
  import opened Numerals
  import opened Frames

  // ---------------------------------------------------------------------
  // Headers
  // ---------------------------------------------------------------------

  /** `str.strip().str.replace(" ", "_").str.lower()` on one column label. */
  function CleanHeader(h: string): (r: string)
    ensures |r| == |Strip(h)|
    ensures forall i :: 0 <= i < |r| ==> r[i] == if Strip(h)[i] == ' ' then '_' else LowerChar(Strip(h)[i])
    ensures NoSpaceAtEnds(r) && ' ' !in r
    ensures forall i :: 0 <= i < |r| ==> !IsUpper(r[i])
  {
    Lower(ReplaceChar(Strip(h), ' ', '_'))
  }

  /** Cleaning an already cleaned label changes nothing. */
  lemma CleanHeaderIdempotent(h: string)
    ensures CleanHeader(CleanHeader(h)) == CleanHeader(h)
  {
    var c := CleanHeader(h);
    assert Strip(c) == c;
    assert ReplaceChar(c, ' ', '_') == c;
    assert Lower(c) == c;
  }

  /** The synonym table: cleaned label to canonical column name. */
  const ColumnMapping: map<string, string> := map[
    "model_year" := "Model_Year",
    "model_#" := "Model_Number",
    "model_no" := "Model_Number",
    "model_number" := "Model_Number",
    "trim_level" := "Trim",
    "trim" := "Trim",
    "description" := "Trim",
    "term" := "Lease_Term",
    "lease_term" := "Lease_Term",
    "credit_tier" := "Tier",
    "tier" := "Tier",
    "cash_incentive" := "Lease_Cash",
    "lease_cash" := "Lease_Cash",
    "residual" := "Residual_Value",
    "residual_value" := "Residual_Value",
    "money_factor" := "Residual_Value"
  ]

  /** The columns every cleaned table ends up with, in the order they are added. */
  const RequiredColumns: seq<string> :=
    ["Model_Year", "Model_Number", "Trim", "Lease_Term", "Tier", "Lease_Cash", "Residual_Value"]

  /** `df.rename(columns=...)` on one label: synonyms become their canonical
      name, any other label is kept as it is. */
  function Canonical(h: string): string {
    if h in ColumnMapping then ColumnMapping[h] else h
  }

  /** The label a raw column carries once cleaned and renamed. */
  function NormalizeHeader(h: string): string {
    Canonical(CleanHeader(h))
  }

  /** A raw label ends up as a required column exactly when its cleaned form
      is one of that column's synonyms (a cleaned label is lower case, so it
      never equals a canonical name by accident). */
  lemma NormalizeToRequired(h: string, target: string)
    requires target in RequiredColumns
    ensures NormalizeHeader(h) == target <==>
            CleanHeader(h) in ColumnMapping && ColumnMapping[CleanHeader(h)] == target
  {
    assert |target| > 0 && IsUpper(target[0]);
  }

  /** "model_#", "model_no" and "model_number" (after cleaning) are the only
      labels that become Model_Number. */
  lemma ModelNumberSynonyms(h: string)
    ensures NormalizeHeader(h) == "Model_Number" <==>
            CleanHeader(h) in {"model_#", "model_no", "model_number"}
  {
    NormalizeToRequired(h, "Model_Number");
    ModelNumberKeys(CleanHeader(h));
  }

  lemma ModelNumberKeys(c: string)
    ensures c in ColumnMapping && ColumnMapping[c] == "Model_Number" <==>
            c == "model_#" || c == "model_no" || c == "model_number"
  {
  }

  function NormalizedColumns(cols: seq<string>): (r: seq<string>)
    ensures |r| == |cols|
    ensures forall i :: 0 <= i < |cols| ==> r[i] == NormalizeHeader(cols[i])
  {
    seq(|cols|, i requires 0 <= i < |cols| => NormalizeHeader(cols[i]))
  }

  /** No two labels of the table collide once cleaned and renamed. */
  predicate DistinctAfterRename(cols: seq<string>) {
    NoDuplicates(NormalizedColumns(cols))
  }

  /** The tables the conversion is modelled on: one cell per column, and no
      two labels that collide once cleaned and renamed. */
  predicate Convertible(f: Frame) {
    Shaped(f) && DistinctAfterRename(f.columns)
  }

  // ---------------------------------------------------------------------
  // Cell cleaners
  // ---------------------------------------------------------------------

  /** The guard `x and x != "nan"`: the cell holds a value. */
  predicate HasText(x: string) {
    x != "" && x != "nan"
  }

  /** What `float()` is handed: the cell without `$` and `,`, stripped. */
  function CashNumeral(x: string): string {
    Strip(RemoveChar(RemoveChar(x, '$'), ','))
  }

  /** The Lease_Cash cleaner. Empty, "nan" and blank cells become "$0";
      otherwise the cell is read as a number once `$` and `,` are removed
      and printed as "$" and its integer part; a cell that is not a number
      is an error, carrying the cell. */
  function CleanLeaseCash(x: string): (r: Result<string, string>)
    ensures !HasText(x) || Strip(x) == "" ==> r == Ok("$0")
    ensures r.Err? <==> HasText(x) && Strip(x) != "" && ParseDecimal(CashNumeral(x)).None?
    ensures r.Err? ==> r.error == x
    ensures r.Ok? ==> |r.value| >= 2 && r.value[0] == '$' && ',' !in r.value && '.' !in r.value
  {
    if HasText(x) && Strip(x) != "" then
      match ParseDecimal(CashNumeral(x))
      case None => Err(x)
      case Some(d) =>
        var s := IntToString(Truncate(DecimalValue(d)));
        assert ',' !in s && '.' !in s;
        Ok("$" + s)
    else Ok("$0")
  }

  /** A cleaned Lease_Cash cell is "$" and the value of the cell truncated
      toward zero: reading its digits back gives an integer no further from
      zero than the cell's value, and less than one away from it. */
  lemma LeaseCashTruncates(x: string)
    requires HasText(x) && Strip(x) != ""
    requires ParseDecimal(CashNumeral(x)).Some?
    ensures CleanLeaseCash(x).Ok?
    ensures var v := DecimalValue(ParseDecimal(CashNumeral(x)).value);
            var n := ParseInt(CleanLeaseCash(x).value[1..]);
            n.Some? &&
            (0.0 <= v ==> n.value as real <= v < n.value as real + 1.0) &&
            (v < 0.0 ==> n.value as real - 1.0 < v <= n.value as real)
  {
    var d := ParseDecimal(CashNumeral(x)).value;
    var n := Truncate(DecimalValue(d));
    IntToStringRoundTrip(n);
    assert CleanLeaseCash(x).value[1..] == IntToString(n);
  }

  /** The Lease_Cash cleaner maps its own output to itself. */
  lemma LeaseCashIdempotent(x: string)
    requires CleanLeaseCash(x).Ok?
    ensures CleanLeaseCash(CleanLeaseCash(x).value) == CleanLeaseCash(x)
  {
    var n: int := if CleanLeaseCash(x).value == "$0" then 0
                  else Truncate(DecimalValue(ParseDecimal(CashNumeral(x)).value));
    assert CleanLeaseCash(x).value == "$" + IntToString(n);
    PrintedCashReadsBack(n);
  }

  /** A printed amount "$<n>" is a cell the cleaner reads as exactly n. */
  lemma PrintedCashReadsBack(n: int)
    ensures CleanLeaseCash("$" + IntToString(n)) == Ok("$" + IntToString(n))
  {
    var s := IntToString(n);
    var y := "$" + s;
    assert NoSpaceAtEnds(y) by {
      assert y[|y| - 1] == s[|s| - 1];
    }
    assert HasText(y) && Strip(y) != "" by {
      assert y[0] == '$';
    }
    NumeralOfPrintedCash(s);
    ReadPrintedInt(n);
    assert Truncate(n as real) == n;
  }

  lemma NumeralOfPrintedCash(s: string)
    requires forall c :: c in s ==> IsDigit(c) || c == '-'
    requires |s| > 0
    ensures CashNumeral("$" + s) == s
  {
    assert '$' !in s && ',' !in s;
    assert ("$" + s)[1..] == s;
    assert NoSpaceAtEnds(s) by {
      assert s[0] in s && s[|s| - 1] in s;
    }
  }

  /** `x.split(sep)[0] if x and x != "nan" else default`: the shape shared by
      the Model_Year and Lease_Term cleaners. */
  function CleanPrefix(x: string, sep: char, default: string): (r: string)
    ensures !HasText(x) ==> r == default
    ensures HasText(x) ==> |r| <= |x| && r == x[..|r|] && sep !in r
    ensures HasText(x) && |r| < |x| ==> x[|r|] == sep
  {
    if HasText(x) then BeforeFirst(x, sep) else default
  }

  /** Applying such a cleaner twice equals applying it once exactly when the
      first pass does not produce an empty or "nan" prefix (".5" becomes ""
      and then the default, so the cleaners are not idempotent in general). */
  lemma CleanPrefixTwice(x: string, sep: char, default: string)
    requires HasText(default) && sep !in default
    ensures CleanPrefix(CleanPrefix(x, sep, default), sep, default) == CleanPrefix(x, sep, default)
            <==> !HasText(x) || HasText(CleanPrefix(x, sep, default))
  {
    var once := CleanPrefix(x, sep, default);
    if HasText(once) {
      assert BeforeFirst(once, sep) == once by {
        assert sep !in once;
      }
    }
  }

  /** The Model_Year cleaner: text before the first ".", default "2025". */
  function CleanModelYear(x: string): (r: string)
    ensures '.' !in r
  {
    CleanPrefix(x, '.', "2025")
  }

  /** The Lease_Term cleaner: text before the first " ", default "36". */
  function CleanLeaseTerm(x: string): (r: string)
    ensures ' ' !in r
  {
    CleanPrefix(x, ' ', "36")
  }

  lemma ModelYearTwice(x: string)
    ensures CleanModelYear(CleanModelYear(x)) == CleanModelYear(x) <==> !HasText(x) || HasText(CleanModelYear(x))
  {
    CleanPrefixTwice(x, '.', "2025");
  }

  lemma LeaseTermTwice(x: string)
    ensures CleanLeaseTerm(CleanLeaseTerm(x)) == CleanLeaseTerm(x) <==> !HasText(x) || HasText(CleanLeaseTerm(x))
  {
    CleanPrefixTwice(x, ' ', "36");
  }

  // ---------------------------------------------------------------------
  // One table
  // ---------------------------------------------------------------------

  /** The seven required columns are seven different labels. */
  lemma RequiredColumnsDistinct()
    ensures NoDuplicates(RequiredColumns)
  {
    var r := RequiredColumns;
    forall i, j | 0 <= i < j < |r|
      ensures r[i] != r[j]
    {
      assert |r[i]| != |r[j]| || r[i][1] != r[j][1] || (|r[i]| > 6 && r[i][6] != r[j][6]);
    }
  }

  /** The required columns a table with labels `names` lacks, in their fixed
      order: the ones `df[col] = ""` adds. */
  function AddedColumns(names: seq<string>): (r: seq<string>)
    ensures forall c :: c in r <==> c in RequiredColumns && c !in names
    ensures NoDuplicates(r)
  {
    var lacking := c => c !in names;
    RequiredColumnsDistinct();
    FilterNoDuplicates(lacking, RequiredColumns);
    Filter(lacking, RequiredColumns)
  }

  /** The columns of a cleaned table: the renamed labels `names`, then the
      missing required columns. */
  function CleanedColumnList(names: seq<string>): (r: seq<string>)
    ensures |r| >= |names| && r[..|names|] == names
    ensures NoDuplicates(names) ==> NoDuplicates(r)
  {
    var added := AddedColumns(names);
    var r := names + added;
    assert r[..|names|] == names;
    assert NoDuplicates(names) ==> NoDuplicates(r) by {
      if NoDuplicates(names) {
        forall i, j | 0 <= i < j < |r|
          ensures r[i] != r[j]
        {
          if i < |names| <= j {
            assert r[j] in added;
            assert r[i] in names;
          }
        }
      }
    }
    r
  }

  /** Every required column is among the cleaned columns, and every cleaned
      column is one of the table's own or a required one. */
  lemma CleanedColumnListCovers(names: seq<string>)
    ensures forall c :: c in RequiredColumns ==> c in CleanedColumnList(names)
    ensures forall c :: c in CleanedColumnList(names) ==> c in names || c in RequiredColumns
    ensures forall j :: |names| <= j < |CleanedColumnList(names)| ==> CleanedColumnList(names)[j] in RequiredColumns
  {
    var added := AddedColumns(names);
    assert CleanedColumnList(names) == names + added;
  }

  /** `df[col] = ""` for every added column: the row widened with empty text. */
  function Pad(row: Row, width: nat): (r: Row)
    requires |row| <= width
    ensures |r| == width
    ensures forall j :: 0 <= j < |row| ==> r[j] == row[j]
    ensures forall j :: |row| <= j < width ==> r[j] == Text("")
  {
    row + seq(width - |row|, _ => Text(""))
  }

  /** A Lease_Cash cell `float()` rejects. */
  predicate BadCashCell(x: string) {
    CleanLeaseCash(x).Err?
  }

  /** The specification of the three cleaners on one cell of column `name`:
      Lease_Cash, Model_Year and Lease_Term cells hold their cleaner's
      output for the cell's text, every other cell is left as it is. */
  predicate CellCleaned(name: string, before: Cell, after: Cell) {
    if name == "Lease_Cash" then after.Text? && CleanLeaseCash(CellText(before)) == Ok(after.text)
    else if name == "Model_Year" then after == Text(CleanModelYear(CellText(before)))
    else if name == "Lease_Term" then after == Text(CleanLeaseTerm(CellText(before)))
    else after == before
  }

  /** The three cleaned columns hold text in canonical form. */
  predicate CanonicalCell(name: string, c: Cell) {
    && (name == "Lease_Cash" ==>
          c.Text? && |c.text| >= 2 && c.text[0] == '$' && ',' !in c.text && '.' !in c.text)
    && (name == "Model_Year" ==> c.Text? && '.' !in c.text)
    && (name == "Lease_Term" ==> c.Text? && ' ' !in c.text)
  }

  /** One cell through its column's cleaner. */
  function CleanCell(name: string, c: Cell): (r: Cell)
    requires name == "Lease_Cash" ==> !BadCashCell(CellText(c))
    ensures CellCleaned(name, c, r) && CanonicalCell(name, r)
  {
    if name == "Lease_Cash" then Text(CleanLeaseCash(CellText(c)).value)
    else if name == "Model_Year" then Text(CleanModelYear(CellText(c)))
    else if name == "Lease_Term" then Text(CleanLeaseTerm(CellText(c)))
    else c
  }

  /** One widened row through the cleaners. */
  function CleanRowCells(cols: seq<string>, row: Row): (r: Row)
    requires |row| == |cols|
    requires forall j :: 0 <= j < |cols| && cols[j] == "Lease_Cash" ==> !BadCashCell(CellText(row[j]))
    ensures |r| == |cols|
    ensures forall j :: 0 <= j < |cols| ==> CellCleaned(cols[j], row[j], r[j]) && CanonicalCell(cols[j], r[j])
  {
    seq(|cols|, j requires 0 <= j < |cols| => CleanCell(cols[j], row[j]))
  }

  /** The header stage: every label cleaned and renamed, the cells untouched. */
  function RenameTable(f: Frame): (r: Frame)
    requires Convertible(f)
    ensures Named(r)
    ensures |r.columns| == |f.columns| && r.rows == f.rows
    ensures forall j :: 0 <= j < |f.columns| ==> r.columns[j] == NormalizeHeader(f.columns[j])
  {
    Frame(NormalizedColumns(f.columns), f.rows)
  }

  /** Some Lease_Cash cell of the table is not a number. */
  predicate HasBadCash(g: Frame)
    requires Shaped(g)
  {
    exists i, j :: 0 <= i < |g.rows| && 0 <= j < |g.columns| &&
      g.columns[j] == "Lease_Cash" && BadCashCell(CellText(g.rows[i][j]))
  }

  /** The row of the first bad Lease_Cash cell: `apply` runs down the column
      and raises at the first cell `float()` rejects. */
  function FirstBadCash(g: Frame): (r: Option<nat>)
    requires Named(g)
    ensures r.None? <==> !HasBadCash(g)
    ensures r.Some? ==> && r.value < |g.rows| && "Lease_Cash" in g.columns
                        && BadCashCell(CellText(g.rows[r.value][IndexOf(g.columns, "Lease_Cash")]))
    ensures r.Some? ==> forall i :: 0 <= i < r.value ==>
              !BadCashCell(CellText(g.rows[i][IndexOf(g.columns, "Lease_Cash")]))
  {
    var k := IndexOf(g.columns, "Lease_Cash");
    if k == |g.columns| then None
    else
      var r := FirstFrom(g.rows, row => k < |row| && BadCashCell(CellText(row[k])), 0);
      assert r.None? ==> !HasBadCash(g) by {
        if r.None? {
          forall i, j | 0 <= i < |g.rows| && 0 <= j < |g.columns| && g.columns[j] == "Lease_Cash"
            ensures !BadCashCell(CellText(g.rows[i][j]))
          {
            assert j == k;
          }
        }
      }
      r
  }

  /** What the cell stage makes of table `g`: the cleaned column list, one row
      per row of `g`; each of `g`'s cells through its column's cleaner, each
      added cell the cleaner's output for ""; the three cleaned columns in
      canonical form. */
  predicate CellStage(g: Frame, out: Frame)
    requires Shaped(g)
  {
    && out.columns == CleanedColumnList(g.columns)
    && Shaped(out) && |out.rows| == |g.rows|
    && OwnCellsCleaned(g, out) && AddedCellsCleaned(g, out) && AllCanonical(out)
  }

  /** Cell `j` of row `i` of `out` is the cleaner of column `j` applied to the
      same cell of `g`. */
  predicate OwnCellsCleaned(g: Frame, out: Frame)
    requires Shaped(g) && Shaped(out) && |out.rows| == |g.rows| && |g.columns| <= |out.columns|
  {
    forall i, j :: 0 <= i < |g.rows| && 0 <= j < |g.columns| ==>
      CellCleaned(g.columns[j], g.rows[i][j], out.rows[i][j])
  }

  /** The cells of `out` beyond `g`'s columns are the cleaners applied to "". */
  predicate AddedCellsCleaned(g: Frame, out: Frame)
    requires Shaped(out) && |out.rows| == |g.rows|
  {
    forall i, j :: 0 <= i < |out.rows| && |g.columns| <= j < |out.columns| ==>
      CellCleaned(out.columns[j], Text(""), out.rows[i][j])
  }

  /** Every cell of the three cleaned columns is in canonical form. */
  predicate AllCanonical(out: Frame)
    requires Shaped(out)
  {
    forall i, j :: 0 <= i < |out.rows| && 0 <= j < |out.columns| ==>
      CanonicalCell(out.columns[j], out.rows[i][j])
  }

  /** The cell stage on a table whose Lease_Cash cells are all numbers. */
  function CleanAllCells(g: Frame): (r: Frame)
    requires Named(g) && !HasBadCash(g)
    ensures CellStage(g, r)
  {
    var cols := CleanedColumnList(g.columns);
    var rows := PadRows(g, |cols|);
    PaddedCashGood(g, cols, rows);
    var cleaned := CleanRows(cols, rows);
    CleanedCells(g, rows, Frame(cols, cleaned));
    Frame(cols, cleaned)
  }

  /** Every row of `g` widened to `width` cells. */
  function PadRows(g: Frame, width: nat): (rows: seq<Row>)
    requires Shaped(g) && |g.columns| <= width
    ensures |rows| == |g.rows|
    ensures forall i :: 0 <= i < |rows| ==> |rows[i]| == width && rows[i] == Pad(g.rows[i], width)
  {
    seq(|g.rows|, i requires 0 <= i < |g.rows| => Pad(g.rows[i], width))
  }

  /** Every widened row through the cleaners. */
  function CleanRows(cols: seq<string>, rows: seq<Row>): (r: seq<Row>)
    requires forall i :: 0 <= i < |rows| ==> |rows[i]| == |cols|
    requires forall i, j :: 0 <= i < |rows| && 0 <= j < |cols| && cols[j] == "Lease_Cash" ==>
               !BadCashCell(CellText(rows[i][j]))
    ensures |r| == |rows|
    ensures forall i :: 0 <= i < |rows| ==> |r[i]| == |cols|
    ensures forall i, j :: 0 <= i < |rows| && 0 <= j < |cols| ==>
              CellCleaned(cols[j], rows[i][j], r[i][j]) && CanonicalCell(cols[j], r[i][j])
  {
    seq(|rows|, i requires 0 <= i < |rows| => CleanRowCells(cols, rows[i]))
  }

  /** No widened row has a bad Lease_Cash cell: the table's own are good and
      an added Lease_Cash column holds "". */
  lemma PaddedCashGood(g: Frame, cols: seq<string>, rows: seq<Row>)
    requires Shaped(g) && !HasBadCash(g)
    requires |cols| >= |g.columns| && cols[..|g.columns|] == g.columns
    requires |rows| == |g.rows|
    requires forall i :: 0 <= i < |rows| ==> |rows[i]| == |cols| && rows[i] == Pad(g.rows[i], |cols|)
    ensures forall i, j :: 0 <= i < |rows| && 0 <= j < |cols| && cols[j] == "Lease_Cash" ==>
              !BadCashCell(CellText(rows[i][j]))
  {
    assert !BadCashCell("");
    forall i, j | 0 <= i < |rows| && 0 <= j < |cols| && cols[j] == "Lease_Cash"
      ensures !BadCashCell(CellText(rows[i][j]))
    {
      if j < |g.columns| {
        assert cols[j] == cols[..|g.columns|][j];
      }
    }
  }

  /** The cell stage on a table after the header stage: the missing required
      columns are added holding "", and the three columns are cleaned. It
      fails exactly when one of the Lease_Cash cells is not a number, and
      reports the first such cell. */
  function CleanNamed(g: Frame): (r: Result<Frame, string>)
    requires Named(g)
    ensures r.Err? <==> HasBadCash(g)
    ensures r.Err? ==> BadCashCell(r.error)
    ensures r.Ok? ==> CellStage(g, r.value)
  {
    match FirstBadCash(g)
    case Some(i) => Err(CellText(g.rows[i][IndexOf(g.columns, "Lease_Cash")]))
    case None => Ok(CleanAllCells(g))
  }

  /** Cell by cell, the cleaned widened rows hold what the cleaners make of
      the table's own cells and of the "" in the added columns. */
  lemma CleanedCells(g: Frame, rows: seq<Row>, out: Frame)
    requires Shaped(g) && |out.columns| >= |g.columns| && out.columns[..|g.columns|] == g.columns
    requires |rows| == |g.rows| == |out.rows|
    requires forall i :: 0 <= i < |rows| ==> |rows[i]| == |out.rows[i]| == |out.columns|
    requires forall i :: 0 <= i < |rows| ==> rows[i] == Pad(g.rows[i], |out.columns|)
    requires forall i, j :: 0 <= i < |rows| && 0 <= j < |out.columns| ==>
               CellCleaned(out.columns[j], rows[i][j], out.rows[i][j]) &&
               CanonicalCell(out.columns[j], out.rows[i][j])
    ensures Shaped(out)
    ensures OwnCellsCleaned(g, out) && AddedCellsCleaned(g, out) && AllCanonical(out)
  {
    var cols := out.columns;
    forall i, j | 0 <= i < |g.rows| && 0 <= j < |g.columns|
      ensures CellCleaned(g.columns[j], g.rows[i][j], out.rows[i][j])
    {
      assert cols[j] == cols[..|g.columns|][j];
      assert rows[i][j] == g.rows[i][j];
    }
    forall i, j | 0 <= i < |g.rows| && |g.columns| <= j < |cols|
      ensures CellCleaned(cols[j], Text(""), out.rows[i][j])
    {
      assert rows[i][j] == Text("");
    }
  }

  /** The per-table body of the conversion loop: the header stage, then the
      cell stage. */
  function CleanTable(f: Frame): (r: Result<Frame, string>)
    requires Convertible(f)
    ensures r.Err? <==> HasBadCash(RenameTable(f))
    ensures r.Err? ==> BadCashCell(r.error)
    ensures r.Ok? ==> CellStage(RenameTable(f), r.value)
  {
    CleanNamed(RenameTable(f))
  }

  /** A table fails to clean exactly when a column that becomes Lease_Cash
      holds a cell that is not a number. */
  lemma CleanTableFails(f: Frame)
    requires Convertible(f)
    ensures CleanTable(f).Err? <==>
      exists i, j :: 0 <= i < |f.rows| && 0 <= j < |f.columns| &&
        NormalizeHeader(f.columns[j]) == "Lease_Cash" && BadCashCell(CellText(f.rows[i][j]))
  {
    var g := RenameTable(f);
    assert HasBadCash(g) <==>
      exists i, j :: 0 <= i < |f.rows| && 0 <= j < |f.columns| &&
        NormalizeHeader(f.columns[j]) == "Lease_Cash" && BadCashCell(CellText(f.rows[i][j]));
  }

  /** The labels of a cleaned table: the table's own, cleaned and renamed, in
      their order and all different; then the required columns it lacked; so
      every required column is present. */
  lemma CleanTableColumns(f: Frame)
    requires Convertible(f) && CleanTable(f).Ok?
    ensures var out := CleanTable(f).value;
      && |out.columns| >= |f.columns|
      && (forall j :: 0 <= j < |f.columns| ==> out.columns[j] == NormalizeHeader(f.columns[j]))
      && (forall j :: |f.columns| <= j < |out.columns| ==> out.columns[j] in RequiredColumns)
      && (forall c :: c in RequiredColumns ==> c in out.columns)
      && NoDuplicates(out.columns)
  {
    var g := RenameTable(f);
    var out := CleanTable(f).value;
    CleanedColumnListCovers(g.columns);
    forall j | 0 <= j < |f.columns|
      ensures out.columns[j] == NormalizeHeader(f.columns[j])
    {
      assert out.columns[j] == out.columns[..|g.columns|][j];
    }
  }

  // ---------------------------------------------------------------------
  // All tables
  // ---------------------------------------------------------------------

  /** The loop over the tables: each cleaned in turn; the first table with a
      Lease_Cash cell `float()` rejects aborts the loop with that cell. */
  function CleanAll(tables: seq<Frame>): (r: Result<seq<Frame>, string>)
    requires forall k :: 0 <= k < |tables| ==> Convertible(tables[k])
    ensures r.Ok? <==> forall k :: 0 <= k < |tables| ==> CleanTable(tables[k]).Ok?
    ensures r.Ok? ==> |r.value| == |tables|
    ensures r.Ok? ==> forall k :: 0 <= k < |tables| ==> CleanTable(tables[k]) == Ok(r.value[k])
  {
    AllOk(CleanEach(tables))
  }

  /** When the loop fails, it fails at the first table that does not clean,
      with that table's error; the tables before it all cleaned. */
  lemma CleanAllFirstFailure(tables: seq<Frame>) returns (k: nat)
    requires forall m :: 0 <= m < |tables| ==> Convertible(tables[m])
    requires CleanAll(tables).Err?
    ensures k < |tables| && CleanTable(tables[k]) == Err(CleanAll(tables).error)
    ensures forall m :: 0 <= m < k ==> CleanTable(tables[m]).Ok?
  {
    var rs := CleanEach(tables);
    k := FirstError(rs);
  }

  function CleanEach(tables: seq<Frame>): (rs: seq<Result<Frame, string>>)
    requires forall k :: 0 <= k < |tables| ==> Convertible(tables[k])
    ensures |rs| == |tables|
    ensures forall k :: 0 <= k < |tables| ==> rs[k] == CleanTable(tables[k])
  {
    seq(|tables|, k requires 0 <= k < |tables| => CleanTable(tables[k]))
  }

  /** The error the loop stops with is a Lease_Cash cell `float()` rejects. */
  lemma CleanAllReportsBadCash(tables: seq<Frame>)
    requires forall m :: 0 <= m < |tables| ==> Convertible(tables[m])
    requires CleanAll(tables).Err?
    ensures BadCashCell(CleanAll(tables).error)
  {
    var k := CleanAllFirstFailure(tables);
  }

  /** How a run of the script ends: the PDF had no tables (nothing written),
      a Lease_Cash cell stopped it (the exception, nothing written), or the
      combined table was written. */
  datatype Conversion = NoTables | Aborted(badCell: string) | Written(table: Frame)

  /** `convert_pdf_to_csv` on the tables tabula extracted: clean each table,
      concatenate them onto an empty frame, drop repeated rows. */
  function ConvertPdf(tables: seq<Frame>): (r: Conversion)
    requires forall k :: 0 <= k < |tables| ==> Convertible(tables[k])
    ensures r.NoTables? <==> |tables| == 0
    ensures r.Aborted? ==> BadCashCell(r.badCell)
    ensures r.Written? ==> Shaped(r.table) && NoDuplicates(r.table.rows)
  {
    if |tables| == 0 then NoTables
    else match CleanAll(tables)
      case Err(e) =>
        CleanAllReportsBadCash(tables);
        Aborted(e)
      case Ok(cleaned) =>
        CleanedShaped(tables, cleaned);
        Written(Combine(cleaned))
  }

  /** The end of the loop: the cleaned tables concatenated onto an empty
      frame, then `drop_duplicates()`. */
  function Combine(cleaned: seq<Frame>): (r: Frame)
    requires forall k :: 0 <= k < |cleaned| ==> Shaped(cleaned[k])
    ensures Shaped(r) && NoDuplicates(r.rows)
    ensures r.columns == ConcatAll(cleaned).columns
    ensures forall row :: row in r.rows <==> row in ConcatAll(cleaned).rows
    ensures forall i, j :: 0 <= i < j < |r.rows| ==>
              IndexOf(ConcatAll(cleaned).rows, r.rows[i]) < IndexOf(ConcatAll(cleaned).rows, r.rows[j])
  {
    var all := ConcatAll(cleaned);
    var rows := Distinct(all.rows);
    assert forall i :: 0 <= i < |rows| ==> |rows[i]| == |all.columns| by {
      forall i | 0 <= i < |rows|
        ensures |rows[i]| == |all.columns|
      {
        assert rows[i] in all.rows;
      }
    }
    Frame(all.columns, rows)
  }

  /** The written rows in order: the cleaned tables' rows, table after
      table and row after row, each re-laid out by the written labels, with
      every row that repeats an earlier one dropped. */
  lemma ConvertedRowsInOrder(tables: seq<Frame>, cleaned: seq<Frame>)
    requires forall k :: 0 <= k < |tables| ==> Convertible(tables[k])
    requires |tables| > 0 && CleanAll(tables) == Ok(cleaned)
    ensures ConvertPdf(tables).Written?
    ensures (forall k :: 0 <= k < |cleaned| ==> Shaped(cleaned[k])) &&
            ConvertPdf(tables).table.rows == Distinct(Stack(cleaned, ConvertPdf(tables).table.columns))
  {
    CleanedShaped(tables, cleaned);
    ConcatAllStack(cleaned);
  }

  /** The tables `CleanAll` returns have one cell per column. */
  lemma CleanedShaped(tables: seq<Frame>, cleaned: seq<Frame>)
    requires forall k :: 0 <= k < |tables| ==> Convertible(tables[k])
    requires CleanAll(tables) == Ok(cleaned)
    ensures forall k :: 0 <= k < |cleaned| ==> Shaped(cleaned[k])
  {
    forall k | 0 <= k < |cleaned|
      ensures Shaped(cleaned[k])
    {
      assert CleanTable(tables[k]) == Ok(cleaned[k]);
    }
  }

  /** The run aborts exactly when some table has a Lease_Cash cell that is
      not a number. */
  lemma ConvertAborts(tables: seq<Frame>)
    requires forall k :: 0 <= k < |tables| ==> Convertible(tables[k])
    ensures ConvertPdf(tables).Aborted? <==>
              |tables| > 0 && exists k :: 0 <= k < |tables| && CleanTable(tables[k]).Err?
  {
  }

  /** The labels of the written table: every required column, every label of
      every table once cleaned and renamed, nothing else, and each once. */
  lemma ConvertedColumns(tables: seq<Frame>)
    requires forall k :: 0 <= k < |tables| ==> Convertible(tables[k])
    requires ConvertPdf(tables).Written?
    ensures forall c :: c in RequiredColumns ==> c in ConvertPdf(tables).table.columns
    ensures forall k, j :: 0 <= k < |tables| && 0 <= j < |tables[k].columns| ==>
              NormalizeHeader(tables[k].columns[j]) in ConvertPdf(tables).table.columns
    ensures NoDuplicates(ConvertPdf(tables).table.columns)
    ensures forall c :: c in ConvertPdf(tables).table.columns ==> c in RequiredColumns || OwnLabel(tables, c)
  {
    var cleaned := CleanAll(tables).value;
    CleanedShaped(tables, cleaned);
    var cols := ConvertPdf(tables).table.columns;
    assert cols == ConcatAll(cleaned).columns;
    ConcatAllKeepsLabels(cleaned);
    ConcatAllLabelsFrom(cleaned);
    forall c | c in cols
      ensures c in RequiredColumns || OwnLabel(tables, c)
    {
      var k :| 0 <= k < |cleaned| && c in cleaned[k].columns;
      FromOneTable(tables, cleaned, k, c);
    }
    forall k | 0 <= k < |tables|
      ensures NoDuplicates(cleaned[k].columns)
      ensures forall j :: 0 <= j < |tables[k].columns| ==> NormalizeHeader(tables[k].columns[j]) in cols
    {
      CleanedLabels(tables, cleaned, k);
    }
    ConcatAllDistinctLabels(cleaned);
    CleanedLabels(tables, cleaned, 0);
  }

  /** Some table has a label that cleans and renames to `c`. */
  predicate OwnLabel(tables: seq<Frame>, c: string) {
    exists k, j :: 0 <= k < |tables| && 0 <= j < |tables[k].columns| && NormalizeHeader(tables[k].columns[j]) == c
  }

  /** A label of a cleaned table is required or one of the table's own,
      cleaned and renamed. */
  lemma FromOneTable(tables: seq<Frame>, cleaned: seq<Frame>, k: nat, c: string)
    requires forall m :: 0 <= m < |tables| ==> Convertible(tables[m])
    requires CleanAll(tables) == Ok(cleaned) && k < |tables|
    requires c in cleaned[k].columns
    ensures c in RequiredColumns || OwnLabel(tables, c)
  {
    assert CleanTable(tables[k]) == Ok(cleaned[k]);
    CleanTableColumns(tables[k]);
    var j :| 0 <= j < |cleaned[k].columns| && cleaned[k].columns[j] == c;
    if j < |tables[k].columns| {
      assert NormalizeHeader(tables[k].columns[j]) == c;
    }
  }

  /** The labels of one cleaned table: its own labels renamed, the required
      columns, each once. */
  lemma CleanedLabels(tables: seq<Frame>, cleaned: seq<Frame>, k: nat)
    requires forall m :: 0 <= m < |tables| ==> Convertible(tables[m])
    requires CleanAll(tables) == Ok(cleaned) && k < |tables|
    ensures NoDuplicates(cleaned[k].columns)
    ensures forall j :: 0 <= j < |tables[k].columns| ==> NormalizeHeader(tables[k].columns[j]) in cleaned[k].columns
    ensures forall c :: c in RequiredColumns ==> c in cleaned[k].columns
  {
    assert CleanTable(tables[k]) == Ok(cleaned[k]);
    CleanTableColumns(tables[k]);
    forall j | 0 <= j < |tables[k].columns|
      ensures NormalizeHeader(tables[k].columns[j]) in cleaned[k].columns
    {
      assert cleaned[k].columns[j] in cleaned[k].columns;
    }
  }

  /** The rows of the written table are exactly the cleaned rows of all the
      tables, each re-laid out by the combined labels (repeats dropped). */
  lemma ConvertedRows(tables: seq<Frame>)
    requires forall k :: 0 <= k < |tables| ==> Convertible(tables[k])
    requires ConvertPdf(tables).Written?
    ensures var out := ConvertPdf(tables).table;
      forall k, i :: 0 <= k < |tables| && 0 <= i < |CleanTable(tables[k]).value.rows| ==>
        Realign(CleanTable(tables[k]).value.rows[i], CleanTable(tables[k]).value.columns, out.columns)
          in out.rows
    ensures var out := ConvertPdf(tables).table;
      forall row :: row in out.rows ==>
        exists k, i :: 0 <= k < |tables| && 0 <= i < |CleanTable(tables[k]).value.rows| &&
          row == Realign(CleanTable(tables[k]).value.rows[i], CleanTable(tables[k]).value.columns, out.columns)
  {
    var cleaned := CleanAll(tables).value;
    CleanedShaped(tables, cleaned);
    ConcatAllRows(cleaned);
  }

  /** A cell of a re-laid-out cleaned row is in canonical form: the cleaned
      columns are all present in a cleaned table, so they keep their cells. */
  lemma RealignCanonical(row: Row, from: seq<string>, to: seq<string>)
    requires |row| == |from| && NoDuplicates(from)
    requires "Lease_Cash" in from && "Model_Year" in from && "Lease_Term" in from
    requires forall j :: 0 <= j < |from| ==> CanonicalCell(from[j], row[j])
    ensures forall j :: 0 <= j < |to| ==> CanonicalCell(to[j], Realign(row, from, to)[j])
  {
    forall j | 0 <= j < |to|
      ensures CanonicalCell(to[j], Realign(row, from, to)[j])
    {
      if to[j] in from {
        var m := IndexOf(from, to[j]);
        assert Realign(row, from, to)[j] == row[m];
      }
    }
  }

  /** Every Lease_Cash, Model_Year and Lease_Term cell of the written table is
      in canonical form. */
  lemma ConvertedCanonical(tables: seq<Frame>)
    requires forall k :: 0 <= k < |tables| ==> Convertible(tables[k])
    requires ConvertPdf(tables).Written?
    ensures AllCanonical(ConvertPdf(tables).table)
  {
    var cleaned := CleanAll(tables).value;
    CleanedShaped(tables, cleaned);
    var out := ConvertPdf(tables).table;
    ConcatAllRows(cleaned);
    forall i, j | 0 <= i < |out.rows| && 0 <= j < |out.columns|
      ensures CanonicalCell(out.columns[j], out.rows[i][j])
    {
      assert out.rows[i] in ConcatAll(cleaned).rows;
      var k, m :| 0 <= k < |cleaned| && 0 <= m < |cleaned[k].rows| &&
        out.rows[i] == Realign(cleaned[k].rows[m], cleaned[k].columns, out.columns);
      CleanedRowCanonical(tables, cleaned, k, m, out.columns);
    }
  }

  /** One cleaned row, laid out on any labels, has canonical cells. */
  lemma CleanedRowCanonical(tables: seq<Frame>, cleaned: seq<Frame>, k: nat, m: nat, to: seq<string>)
    requires forall n :: 0 <= n < |tables| ==> Convertible(tables[n])
    requires CleanAll(tables) == Ok(cleaned) && k < |tables| && m < |cleaned[k].rows|
    ensures |cleaned[k].rows[m]| == |cleaned[k].columns|
    ensures forall j :: 0 <= j < |to| ==>
      CanonicalCell(to[j], Realign(cleaned[k].rows[m], cleaned[k].columns, to)[j])
  {
    assert CleanTable(tables[k]) == Ok(cleaned[k]);
    CleanTableColumns(tables[k]);
    var c := cleaned[k];
    assert AllCanonical(c);
    RealignCanonical(c.rows[m], c.columns, to);
  }
}
