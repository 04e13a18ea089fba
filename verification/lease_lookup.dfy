/** hyundai_lease_lookup_app.py: the lease program lookup for one VIN: the
    model number from dealer stock, the program row for each term found in
    the rate sheet table, the mileage-adjusted residual, and the results
    table of term × mileage. */
module LeaseLookup {
  import opened Results
  import opened Seqs
  import opened Strings
  import opened Numerals
  import opened Rounding
  import opened Mileage
  import opened Binary64
  import QuoteTool

  // ---------------------------------------------------------------------
  // The rate sheet
  // ---------------------------------------------------------------------

  /** A cell as the CSV reader gives it: empty, text, or a number. */
  datatype SheetCell = Blank | Text(text: string) | Number(value: real)

  type SheetRow = seq<SheetCell>

  /** The rate sheet table, read without interpretation: `width` columns,
      rows addressed by position. */
  datatype Sheet = Sheet(width: nat, rows: seq<SheetRow>)

  /** The cell in column `j` of `row`; a row shorter than the table reads as
      blank there. */
  function CellAt(row: SheetRow, j: nat): SheetCell {
    if j < |row| then row[j] else Blank
  }

  /** The text in column 4 that opens the section of `term`-month programs. */
  function SectionTitle(term: int): string {
    IntToString(term) + " Month Lease"
  }

  /** The three values a program row supplies. */
  datatype LeaseData = LeaseData(leaseCash: SheetCell, mf: SheetCell, residual: SheetCell)

  /** Position of the first section title for `term`, or `|rows|`. */
  function SectionRow(sheet: Sheet, term: int): (h: nat)
    ensures h <= |sheet.rows|
    ensures h < |sheet.rows| ==> CellAt(sheet.rows[h], 4) == Text(SectionTitle(term))
    ensures forall i :: 0 <= i < h ==> CellAt(sheet.rows[i], 4) != Text(SectionTitle(term))
  {
    var title := SectionTitle(term);
    match FirstFrom(sheet.rows, (row: SheetRow) => CellAt(row, 4) == Text(title), 0)
    case Some(h) => h
    case None => |sheet.rows|
  }

  /** Position of the first row at or after `start` whose column 1 is the
      model number, or at least `|rows|`. */
  function ModelRowFrom(sheet: Sheet, model: string, start: nat): (k: nat)
    ensures k >= start
    ensures k < |sheet.rows| ==> CellAt(sheet.rows[k], 1) == Text(model)
    ensures forall i :: start <= i < k && i < |sheet.rows| ==> CellAt(sheet.rows[i], 1) != Text(model)
  {
    match FirstFrom(sheet.rows, (row: SheetRow) => CellAt(row, 1) == Text(model), start)
    case Some(k) => k
    case None => if start < |sheet.rows| then |sheet.rows| else start
  }

  /** `extract_lease_data`: the first model row from two rows below the first
      section title for the term on, its lease cash (column 3), money factor
      (column 4) and residual (column 12). No title or no such row gives
      `None`; a table too narrow for column 4, or for column 12 once a row is
      found, fails. */
  function ExtractLeaseData(sheet: Sheet, model: string, term: int): (r: Result<Option<LeaseData>, string>)
    ensures r.Err? <==> sheet.width <= 4 ||
                        (sheet.width <= 12 && SectionRow(sheet, term) < |sheet.rows| &&
                         ModelRowFrom(sheet, model, SectionRow(sheet, term) + 2) < |sheet.rows|)
    ensures r == Ok(None) <==> sheet.width > 4 &&
                               (SectionRow(sheet, term) == |sheet.rows| ||
                                ModelRowFrom(sheet, model, SectionRow(sheet, term) + 2) >= |sheet.rows|)
    ensures r.Ok? && r.value.Some? ==> Supplies(sheet, model, term, r.value.value)
  {
    if sheet.width <= 4 then Err("column 4 is out of range")
    else
      var h := SectionRow(sheet, term);
      if h == |sheet.rows| then Ok(None)
      else
        var k := ModelRowFrom(sheet, model, h + 2);
        if k >= |sheet.rows| then Ok(None)
        else if sheet.width <= 12 then Err("column 12 is out of range")
        else
          var row := sheet.rows[k];
          Ok(Some(LeaseData(CellAt(row, 3), CellAt(row, 4), CellAt(row, 12))))
  }

  /** `d` is read from a row `k` that carries the model number, lies at least
      two rows below the first title for the term, and is the first such
      row. */
  predicate Supplies(sheet: Sheet, model: string, term: int, d: LeaseData) {
    exists k :: 0 <= k < |sheet.rows| && ProgramRow(sheet, model, term, k) &&
                d == LeaseData(CellAt(sheet.rows[k], 3), CellAt(sheet.rows[k], 4), CellAt(sheet.rows[k], 12))
  }

  /** Row `k` is the program row the lookup picks for the term. */
  predicate ProgramRow(sheet: Sheet, model: string, term: int, k: nat)
    requires k < |sheet.rows|
  {
    var h := SectionRow(sheet, term);
    h < |sheet.rows| && h + 2 <= k && CellAt(sheet.rows[k], 1) == Text(model) &&
    forall i :: h + 2 <= i < k ==> CellAt(sheet.rows[i], 1) != Text(model)
  }

  /** The search is not stopped by the next section title: a model missing
      from the 24-month section is found in the section after it, and that
      row's figures are reported for 24 months. */
  lemma SearchCrossesSections()
    ensures var sheet := Sheet(13, [
        TitleRow("24 Month Lease"), BlankRow(), BlankRow(), ModelRow("OTHER", 0.5),
        TitleRow("36 Month Lease"), BlankRow(), BlankRow(), ModelRow("F4S42", 0.6)]);
      ExtractLeaseData(sheet, "F4S42", 24) == Ok(Some(LeaseData(Number(500.0), Number(0.002), Number(0.6))))
  {
    var sheet := Sheet(13, [
        TitleRow("24 Month Lease"), BlankRow(), BlankRow(), ModelRow("OTHER", 0.5),
        TitleRow("36 Month Lease"), BlankRow(), BlankRow(), ModelRow("F4S42", 0.6)]);
    assert SectionTitle(24) == "24 Month Lease" by {
      assert NatToString(24) == "24";
    }
    assert SectionRow(sheet, 24) == 0;
    assert CellAt(sheet.rows[3], 1) != Text("F4S42") by {
      assert "OTHER"[0] != "F4S42"[0];
    }
    assert ModelRowFrom(sheet, "F4S42", 2) == 7;
  }

  function BlankRow(): SheetRow {
    seq(13, _ => Blank)
  }

  function TitleRow(title: string): SheetRow {
    BlankRow()[4 := Text(title)]
  }

  function ModelRow(model: string, residual: real): SheetRow {
    BlankRow()[1 := Text(model)][3 := Number(500.0)][4 := Number(0.002)][12 := Number(residual)]
  }

  // ---------------------------------------------------------------------
  // Residual and the results table
  // ---------------------------------------------------------------------

  /** `adjust_residual`: the mileage adjustment, rounded to four places when
      there is one; the fraction itself, unrounded, when there is none. */
  function AdjustResidual(base: real, months: int, mileage: int): (r: real)
    ensures Adjustment(MidTerm(months), mileage) == 0.0 ==> r == base
    ensures Adjustment(MidTerm(months), mileage) != 0.0 ==>
              OnTenThousandths(r) && -0.00005 <= r - (base + Adjustment(MidTerm(months), mileage)) <= 0.00005
  {
    if mileage == 10000 && 33 <= months <= 48 then Round4(base + 0.01)
    else if mileage == 15000 then Round4(base - 0.02)
    else base
  }

  /** A residual given to four places is adjusted exactly: the rounding
      never moves it. */
  lemma AdjustResidualExact(base: real, months: int, mileage: int)
    requires OnTenThousandths(base)
    ensures AdjustResidual(base, months, mileage) == AdjustedRate(base, MidTerm(months), mileage)
  {
    var d := Adjustment(MidTerm(months), mileage);
    if d == 0.01 {
      ShiftByTenThousandths(base, 100);
      assert 100 as real / 10000.0 == 0.01;
    } else if d == -0.02 {
      ShiftByTenThousandths(base, -200);
      assert -200 as real / 10000.0 == -0.02;
    }
  }

  /** Adding a whole number of ten-thousandths keeps a value on the
      ten-thousandths. */
  lemma ShiftByTenThousandths(x: real, k: int)
    requires OnTenThousandths(x)
    ensures OnTenThousandths(x + k as real / 10000.0)
  {
    var y := x * 10000.0;
    assert (x + k as real / 10000.0) * 10000.0 == y + k as real;
    assert (y + k as real).Floor == y.Floor + k;
  }

  /** Both apps apply the same rule: for a residual fraction given to four
      places, the quote tool's residual is the MSRP times this app's adjusted
      fraction, to the cent. */
  lemma AppsAgreeOnResidual(base: real, term: int, msrp: real, miles: int)
    requires OnTenThousandths(base)
    ensures QuoteTool.Residual(term, base, msrp, miles) == Round2(msrp * AdjustResidual(base, term, miles))
  {
    AdjustResidualExact(base, term, miles);
    AgreeOnRate(base, term, msrp, miles);
  }

  lemma AgreeOnRate(base: real, term: int, msrp: real, miles: int)
    requires AdjustResidual(base, term, miles) == AdjustedRate(base, MidTerm(term), miles)
    ensures QuoteTool.Residual(term, base, msrp, miles) == Round2(msrp * AdjustResidual(base, term, miles))
  {
    QuoteTool.ResidualAt(term, base, msrp, miles, AdjustResidual(base, term, miles));
  }

  /** A line of the results table. */
  datatype ResultRow = ResultRow(term: int, miles: int, leaseCash: SheetCell, mf: SheetCell, residualPercent: int)

  // ---------------------------------------------------------------------
  // The residual column, on doubles
  // ---------------------------------------------------------------------

  /** The double the app holds for the adjusted residual: the sheet's value
      as read (the nearest double), and on an adjusted line
      `round(b + 0.01, 4)` or `round(b - 0.02, 4)` with the sum, the step and
      the result all doubles. The cell is a NumPy `float64`, so `round` is
      NumPy's (`Round4OnDoubles`). */
  function AdjustedDouble(base: real, months: int, mileage: int): (r: real)
    ensures Adjustment(MidTerm(months), mileage) == 0.0 ==> r == Nearest(base)
  {
    var b := Nearest(base);
    if mileage == 10000 && 33 <= months <= 48 then Round4OnDoubles(Nearest(b + CentDouble))
    else if mileage == 15000 then Round4OnDoubles(Nearest(b - TwoCentsDouble))
    else b
  }

  /** NumPy's `round(y, 4)` on a `float64`: `y * 10^4` as a double, rounded
      half to even to a whole number, divided by 10^4 as a double. */
  function Round4OnDoubles(y: real): real {
    Nearest(RoundHalfEven(Nearest(y * 10000.0)) as real / 10000.0)
  }

  /** A double within a hundred-millionth of a four-place value rounds to
      the double nearest that value: the scaled product is within a
      ten-thousandth of a whole number, which the rounding recovers. */
  lemma Round4OnDoublesNear(y: real, a: real)
    requires OnTenThousandths(a) && -10002.0 <= a <= 10002.0
    requires -0.00000001 <= y - a <= 0.00000001
    ensures Round4OnDoubles(y) == Nearest(a)
  {
    var k := (a * 10000.0).Floor;
    var p := Nearest(y * 10000.0);
    assert y * 10000.0 - k as real == (y - a) * 10000.0;
    assert Abs(y * 10000.0) <= 100030000.0;
    assert Abs(y * 10000.0) / 9007199254740992.0 <= 100030000.0 / 9007199254740992.0;
    RoundHalfEvenNear(p, k);
    assert k as real / 10000.0 == a;
    NearestCongruent(RoundHalfEven(p) as real / 10000.0, a);
  }

  /** The doubles the literals `0.01` and `0.02` denote (NearestOfCents). */
  const CentDouble: real := 5764607523034235.0 / 576460752303423488.0
  const TwoCentsDouble: real := 5764607523034235.0 / 288230376151711744.0

  /** `0.01` and `0.02` read as doubles: 5764607523034235 / 2^59 and
      5764607523034235 / 2^58. */
  lemma NearestOfCents()
    ensures Nearest(0.01) == CentDouble && Nearest(0.02) == TwoCentsDouble
  {
    Pow2Values();
    Pow2NatAdd(53, 5);
    Pow2NatAdd(53, 6);
    NearestAt(0.01, 59, 5764607523034235);
    NearestAt(0.02, 58, 5764607523034235);
  }

  /** The double nearest a small positive `x` is `n / 2^k` when `x * 2^k`
      lies in [2^52, 2^53) and within half of the whole number `n`. */
  lemma NearestAt(x: real, k: nat, n: int)
    requires 0.0 < x < 4503599627370496.0
    requires 4503599627370496.0 <= x * Pow2Nat(k) < 9007199254740992.0
    requires -0.5 < x * Pow2Nat(k) - n as real < 0.5
    ensures Nearest(x) == n as real / Pow2Nat(k)
  {
    DoubledIsProduct(x, k);
    NearestSmallScaled(x, k);
    RoundHalfEvenNear(Doubled(x, k), n);
    HalvedIsQuotient(n as real, k);
  }

  /** For a residual given to four places, the double arithmetic lands on the
      double nearest the exact four-place adjustment: the rounding to four
      places absorbs the error of the sum. */
  lemma AdjustedDoubleExact(base: real, months: int, mileage: int)
    requires OnTenThousandths(base) && -10000.0 <= base <= 10000.0
    ensures AdjustedDouble(base, months, mileage) == Nearest(AdjustResidual(base, months, mileage))
  {
    if mileage == 10000 && 33 <= months <= 48 {
      AdjustedUp(base, months, mileage);
    } else if mileage == 15000 {
      AdjustedDown(base, months, mileage);
    }
  }

  lemma AdjustedUp(base: real, months: int, mileage: int)
    requires OnTenThousandths(base) && -10000.0 <= base <= 10000.0
    requires mileage == 10000 && 33 <= months <= 48
    ensures AdjustedDouble(base, months, mileage) == Nearest(AdjustResidual(base, months, mileage))
  {
    StepExact(base, 0.01, CentDouble);
    assert AdjustResidual(base, months, mileage) == Round4(base + 0.01);
  }

  lemma AdjustedDown(base: real, months: int, mileage: int)
    requires OnTenThousandths(base) && -10000.0 <= base <= 10000.0
    requires mileage == 15000
    ensures AdjustedDouble(base, months, mileage) == Nearest(AdjustResidual(base, months, mileage))
  {
    assert Nearest(base) - TwoCentsDouble == Nearest(base) + -TwoCentsDouble;
    StepExact(base, -0.02, -TwoCentsDouble);
    assert AdjustResidual(base, months, mileage) == Round4(base + -0.02);
  }

  /** The double steps of one adjusted line, rounded to four places and read
      back, give the double nearest the exact four-place sum. */
  lemma StepExact(base: real, step: real, c: real)
    requires OnTenThousandths(base) && -10000.0 <= base <= 10000.0
    requires step == 0.01 || step == -0.02
    requires -Abs(step) / 9007199254740992.0 <= c - step <= Abs(step) / 9007199254740992.0
    ensures Round4OnDoubles(Nearest(Nearest(base) + c)) == Nearest(base + step)
    ensures Nearest(Round4(base + step)) == Nearest(base + step)
  {
    StepOnDoubles(base, step, c);
    NearestCongruent(Round4(base + step), base + step);
  }

  lemma NearestCongruent(x: real, y: real)
    requires x == y
    ensures Nearest(x) == Nearest(y)
  {
  }

  /** `round(b + c, 4)` on doubles, where `b` and `c` are the doubles read
      for the four-place `base` and `step`, is the double nearest
      `base + step`. */
  lemma StepOnDoubles(base: real, step: real, c: real)
    requires OnTenThousandths(base) && -10000.0 <= base <= 10000.0
    requires step == 0.01 || step == -0.02
    requires -Abs(step) / 9007199254740992.0 <= c - step <= Abs(step) / 9007199254740992.0
    ensures Round4OnDoubles(Nearest(Nearest(base) + c)) == Nearest(base + step)
    ensures Round4(base + step) == base + step
  {
    var b := Nearest(base);
    var sum := Nearest(b + c);
    SumError(base, step, b, c, sum);
    if step == 0.01 {
      ShiftByTenThousandths(base, 100);
      assert 100 as real / 10000.0 == 0.01;
    } else {
      ShiftByTenThousandths(base, -200);
      assert -200 as real / 10000.0 == -0.02;
    }
    Round4OnDoublesNear(sum, base + step);
    Round4Near(base + step, base + step);
  }

  /** A double sum of two rounded terms stays within a hundred-millionth of
      the exact sum. */
  lemma SumError(x: real, y: real, bx: real, bc: real, sum: real)
    requires -10000.0 <= x <= 10000.0 && -1.0 <= y <= 1.0
    requires -Abs(x) / 9007199254740992.0 <= bx - x <= Abs(x) / 9007199254740992.0
    requires -Abs(y) / 9007199254740992.0 <= bc - y <= Abs(y) / 9007199254740992.0
    requires -Abs(bx + bc) / 9007199254740992.0 <= sum - (bx + bc) <= Abs(bx + bc) / 9007199254740992.0
    ensures -0.00000001 <= sum - (x + y) <= 0.00000001
  {
    assert Abs(x) / 9007199254740992.0 <= 10000.0 / 9007199254740992.0;
    assert Abs(y) / 9007199254740992.0 <= 1.0 / 9007199254740992.0;
    assert Abs(bx + bc) <= 10002.0;
    assert Abs(bx + bc) / 9007199254740992.0 <= 10002.0 / 9007199254740992.0;
  }

  /** A value within half a step of a four-place number rounds to it. */
  lemma Round4Near(y: real, a: real)
    requires OnTenThousandths(a)
    requires -0.00004 <= y - a <= 0.00004
    ensures Round4(y) == a
  {
    var k := (a * 10000.0).Floor;
    var n := RoundHalfEven(y * 10000.0);
    assert -0.4 <= y * 10000.0 - k as real <= 0.4;
    assert n == k;
  }

  /** The residual column as the app writes it: `int(adj_resid * 100)`, the
      double product truncated toward zero, so never above the product. */
  function ResidualPercentAsWritten(adj: real): (p: int)
    ensures 0.0 <= adj ==> p as real <= adj * 100.0 + Abs(adj * 100.0) / 9007199254740992.0
    ensures 0.0 <= adj ==> adj * 100.0 - Abs(adj * 100.0) / 9007199254740992.0 < p as real + 1.0
  {
    Truncate(Nearest(adj * 100.0))
  }

  /** A residual of 58% read from the sheet shows as 57%: the double nearest
      0.58 is slightly below it, and so is its product with 100. The same
      happens on a 36-month lease at 10,000 miles with a 57% residual. The
      rounded column shows 58% in both cases. */
  lemma ResidualPercentAsWrittenShowsLess()
    ensures ResidualPercentAsWritten(AdjustedDouble(0.58, 24, 12000)) == 57
    ensures ResidualPercentAsWritten(AdjustedDouble(0.57, 36, 10000)) == 57
    ensures ResidualPercent(AdjustedDouble(0.58, 24, 12000)) == 58
    ensures ResidualPercent(AdjustedDouble(0.57, 36, 10000)) == 58
  {
    NearestOfPoint58();
    var d := 5224175567749775.0 / 9007199254740992.0;
    NearestOfHundredTimes(d);
    var m := 8162774324609023.0 / 140737488355328.0;
    assert Truncate(m) == 57;
    assert RoundHalfEven(m) == 58;
    AdjustedDoubleExact(0.57, 36, 10000);
    assert 0.57 * 10000.0 == 5700.0;
    assert AdjustResidual(0.57, 36, 10000) == 0.58;
  }

  /** The double nearest 0.58 is 5224175567749775 / 2^53. */
  lemma NearestOfPoint58()
    ensures Nearest(0.58) == 5224175567749775.0 / 9007199254740992.0
  {
    Pow2Values();
    NearestAt(0.58, 53, 5224175567749775);
  }

  /** That double times 100, rounded, is 8162774324609023 / 2^47, just
      below 58. */
  lemma NearestOfHundredTimes(d: real)
    requires d == 5224175567749775.0 / 9007199254740992.0
    ensures Nearest(d * 100.0) == 8162774324609023.0 / 140737488355328.0
  {
    Pow2Values();
    NearestAt(d * 100.0, 47, 8162774324609023);
  }

  /** The residual column as evidently intended: the double product rounded
      to the nearest whole percent, `round(adj_resid * 100)`; it is within
      half a point of the product, up to the double's error. */
  function ResidualPercent(adj: real): (p: int)
    ensures -0.5 - Abs(adj * 100.0) / 9007199254740992.0 <= p as real - adj * 100.0 <= 0.5 + Abs(adj * 100.0) / 9007199254740992.0
  {
    RoundHalfEven(Nearest(adj * 100.0))
  }

  /** A whole percentage read as a double shows as itself. */
  lemma WholePercentShown(k: int)
    requires -2000000 <= k <= 2000000
    ensures ResidualPercent(Nearest(k as real / 100.0)) == k
  {
    var x := k as real / 100.0;
    var b := Nearest(x);
    assert Abs(x) / 9007199254740992.0 <= 20000.0 / 9007199254740992.0;
    assert -0.000001 <= b * 100.0 - k as real <= 0.000001;
    var m := Nearest(b * 100.0);
    assert Abs(b * 100.0) <= 2000001.0;
    assert Abs(b * 100.0) / 9007199254740992.0 <= 2000001.0 / 9007199254740992.0;
    RoundHalfEvenNear(m, k);
  }

  /** A whole-percent residual shows as that percentage, one more at 10,000
      miles on a 33 to 48 month lease, two fewer at 15,000 miles. */
  lemma PercentCases(n: int, term: int)
    requires -1000000 <= n <= 1000000
    ensures ResidualPercent(AdjustedDouble(n as real / 100.0, term, 12000)) == n
    ensures MidTerm(term) ==> ResidualPercent(AdjustedDouble(n as real / 100.0, term, 10000)) == n + 1
    ensures ResidualPercent(AdjustedDouble(n as real / 100.0, term, 15000)) == n - 2
  {
    PercentAfter(n, term, 12000, 0);
    if MidTerm(term) {
      PercentAfter(n, term, 10000, 1);
    }
    PercentAfter(n, term, 15000, -2);
  }

  /** A whole-percent residual moved by `points` whole points. */
  lemma PercentAfter(n: int, term: int, miles: int, points: int)
    requires -1000000 <= n <= 1000000 && -2 <= points <= 1
    requires Adjustment(MidTerm(term), miles) == points as real / 100.0
    ensures ResidualPercent(AdjustedDouble(n as real / 100.0, term, miles)) == n + points
  {
    var base := n as real / 100.0;
    WholePercentOnTenThousandths(n);
    AdjustResidualExact(base, term, miles);
    AdjustedDoubleExact(base, term, miles);
    PointsAdd(n, points, AdjustResidual(base, term, miles));
    WholePercentShown(n + points);
  }

  lemma WholePercentOnTenThousandths(n: int)
    ensures OnTenThousandths(n as real / 100.0)
  {
    assert (n as real / 100.0) * 10000.0 == (100 * n) as real;
  }

  lemma PointsAdd(n: int, points: int, a: real)
    requires a == n as real / 100.0 + points as real / 100.0
    ensures a == (n + points) as real / 100.0
  {
  }

  /** The residual label of the table. */
  function PercentLabel(p: int): string {
    IntToString(p) + "%"
  }

  /** The percentage label reads back as the number shown. */
  lemma PercentLabelReadsBack(p: int)
    ensures |PercentLabel(p)| >= 2 && PercentLabel(p)[|PercentLabel(p)| - 1] == '%'
    ensures ParseInt(PercentLabel(p)[..|PercentLabel(p)| - 1]) == Some(p)
  {
    assert PercentLabel(p)[..|PercentLabel(p)| - 1] == IntToString(p);
    IntToStringRoundTrip(p);
  }

  /** The three lines of one term, 10,000, 12,000 and 15,000 miles in that
      order; a residual that is not a number fails. */
  function TermRows(term: int, d: LeaseData): (r: Result<seq<ResultRow>, string>)
    ensures r.Err? <==> !d.residual.Number?
    ensures r.Ok? ==> |r.value| == |MilesOptions|
    ensures r.Ok? ==> forall j :: 0 <= j < |r.value| ==>
                        r.value[j].term == term && r.value[j].miles == MilesOptions[j] &&
                        r.value[j].leaseCash == d.leaseCash && r.value[j].mf == d.mf &&
                        r.value[j].residualPercent == ResidualPercent(AdjustedDouble(d.residual.value, term, MilesOptions[j]))
  {
    match d.residual
    case Number(base) =>
      Ok(seq(|MilesOptions|, j requires 0 <= j < |MilesOptions| =>
        ResultRow(term, MilesOptions[j], d.leaseCash, d.mf, ResidualPercent(AdjustedDouble(base, term, MilesOptions[j])))))
    case _ => Err("residual is not a number")
  }

  /** The terms the app asks for, in order. */
  const AllTerms: seq<int> := [24, 36, 39, 48]

  /** The sheet has a program row for the model and term. */
  predicate HasData(sheet: Sheet, model: string, term: int) {
    ExtractLeaseData(sheet, model, term).Ok? && ExtractLeaseData(sheet, model, term).value.Some?
  }

  /** Looking the term up fails, or its row's residual is not a number. */
  predicate TermFails(sheet: Sheet, model: string, term: int) {
    ExtractLeaseData(sheet, model, term).Err? ||
    (HasData(sheet, model, term) && !ExtractLeaseData(sheet, model, term).value.value.residual.Number?)
  }

  /** The terms with a program row, in order. */
  function TermsWithData(sheet: Sheet, model: string, terms: seq<int>): seq<int> {
    Filter(t => HasData(sheet, model, t), terms)
  }

  /** The lines for one term: none when the sheet has no program row for
      it. */
  function TermResult(sheet: Sheet, model: string, term: int): (r: Result<seq<ResultRow>, string>)
    ensures r.Err? <==> TermFails(sheet, model, term)
    ensures r.Ok? ==> |r.value| == if HasData(sheet, model, term) then 3 else 0
    ensures r == Ok([]) <==> ExtractLeaseData(sheet, model, term) == Ok(None)
  {
    match ExtractLeaseData(sheet, model, term)
    case Err(e) => Err(e)
    case Ok(None) => Ok([])
    case Ok(Some(d)) => TermRows(term, d)
  }

  /** The results loop: for each term with data, its three lines, term by
      term in order; the first failure stops it. */
  function ResultsFor(sheet: Sheet, model: string, terms: seq<int>): (r: Result<seq<ResultRow>, string>)
    ensures r.Err? <==> exists i :: 0 <= i < |terms| && TermFails(sheet, model, terms[i])
    ensures r.Ok? ==> |r.value| == 3 * |TermsWithData(sheet, model, terms)|
    decreases |terms|
  {
    if terms == [] then Ok([])
    else
      assert forall i :: 1 <= i < |terms| ==> terms[i] == terms[1..][i - 1];
      match TermResult(sheet, model, terms[0])
      case Err(e) => Err(e)
      case Ok(rows) =>
        match ResultsFor(sheet, model, terms[1..])
        case Err(e) => Err(e)
        case Ok(more) => Ok(rows + more)
  }

  /** The table is empty, and the app says no lease data was found, exactly
      when no term has a program row and nothing failed. */
  lemma {:induction false} NoDataIffEmpty(sheet: Sheet, model: string, terms: seq<int>)
    ensures ResultsFor(sheet, model, terms) == Ok([]) <==>
              forall i :: 0 <= i < |terms| ==> ExtractLeaseData(sheet, model, terms[i]) == Ok(None)
    decreases |terms|
  {
    if terms != [] {
      NoDataIffEmpty(sheet, model, terms[1..]);
      EmptyStep(sheet, model, terms);
      assert forall i :: 1 <= i < |terms| ==> terms[i] == terms[1..][i - 1];
    }
  }

  /** The loop gives no lines exactly when the first term gives none and
      the rest give none. */
  lemma EmptyStep(sheet: Sheet, model: string, terms: seq<int>)
    requires terms != []
    ensures ResultsFor(sheet, model, terms) == Ok([]) <==>
              TermResult(sheet, model, terms[0]) == Ok([]) && ResultsFor(sheet, model, terms[1..]) == Ok([])
  {
    match TermResult(sheet, model, terms[0])
    case Err(e) =>
    case Ok(rows) =>
      match ResultsFor(sheet, model, terms[1..])
      case Err(e) =>
      case Ok(more) =>
        assert rows + more == [] <==> rows == [] && more == [];
  }

  /** Every line is for one of the terms asked for and one of the mileage
      options. */
  lemma {:induction false} ResultsLabels(sheet: Sheet, model: string, terms: seq<int>)
    requires ResultsFor(sheet, model, terms).Ok?
    ensures forall n :: 0 <= n < |ResultsFor(sheet, model, terms).value| ==>
              ResultsFor(sheet, model, terms).value[n].term in terms &&
              ResultsFor(sheet, model, terms).value[n].miles in MilesOptions
    decreases |terms|
  {
    if terms != [] {
      ResultsLabels(sheet, model, terms[1..]);
    }
  }

  /** The loop runs term by term: the lines for the terms of `a + b` are
      those for `a` followed by those for `b`. */
  lemma {:induction false} ResultsAppend(sheet: Sheet, model: string, a: seq<int>, b: seq<int>)
    requires ResultsFor(sheet, model, a + b).Ok?
    ensures ResultsFor(sheet, model, a).Ok? && ResultsFor(sheet, model, b).Ok?
    ensures ResultsFor(sheet, model, a + b).value == ResultsFor(sheet, model, a).value + ResultsFor(sheet, model, b).value
    decreases |a|
  {
    if a == [] {
      assert a + b == b;
    } else {
      var ab := a + b;
      assert ab[0] == a[0] && ab[1..] == a[1..] + b;
      ResultsAppend(sheet, model, a[1..], b);
    }
  }

  // ---------------------------------------------------------------------
  // VIN and the screen
  // ---------------------------------------------------------------------

  /** `vin_input.strip().upper()`. */
  function NormalizeVin(input: string): (v: string)
    ensures |v| <= |input|
    ensures NoSpaceAtEnds(v)
    ensures forall i :: 0 <= i < |v| ==> !IsLower(v[i])
  {
    UpperKeepsEnds(Strip(input));
    Upper(Strip(input))
  }

  lemma UpperKeepsEnds(s: string)
    requires NoSpaceAtEnds(s)
    ensures NoSpaceAtEnds(Upper(s))
  {
  }

  /** Normalising twice changes nothing. */
  lemma NormalizeVinIdempotent(input: string)
    ensures NormalizeVin(NormalizeVin(input)) == NormalizeVin(input)
  {
    var v := NormalizeVin(input);
    assert Strip(v) == v;
  }

  /** Case does not matter: a VIN typed in lower case finds the same row. */
  lemma NormalizeVinIgnoresCase(input: string)
    ensures NormalizeVin(Lower(input)) == NormalizeVin(input)
  {
    StripLower(input);
    UpperOfLower(Strip(input));
  }

  lemma UpperOfLower(s: string)
    ensures Upper(Lower(s)) == Upper(s)
  {
  }

  /** Lowering case leaves whitespace where it was, so it commutes with
      `strip`. */
  lemma StripLower(s: string)
    ensures Strip(Lower(s)) == Lower(Strip(s))
  {
    LeadingSpacesLower(s);
    TrailingSpacesLower(s);
    var a := LeadingSpaces(s);
    if a < |s| {
      LowerSlice(s, a, |s| - TrailingSpaces(s));
    }
  }

  lemma LowerSlice(s: string, a: nat, b: nat)
    requires a <= b <= |s|
    ensures Lower(s[a..b]) == Lower(s)[a..b]
  {
  }

  lemma {:induction false} LeadingSpacesLower(s: string)
    ensures LeadingSpaces(Lower(s)) == LeadingSpaces(s)
    decreases |s|
  {
    if |s| > 0 {
      LeadingSpacesLower(s[1..]);
      assert Lower(s)[1..] == Lower(s[1..]);
    }
  }

  lemma {:induction false} TrailingSpacesLower(s: string)
    ensures TrailingSpaces(Lower(s)) == TrailingSpaces(s)
    decreases |s|
  {
    if |s| > 0 {
      TrailingSpacesLower(s[..|s| - 1]);
      assert Lower(s)[..|s| - 1] == Lower(s[..|s| - 1]);
    }
  }

  /** A row of the dealer stock summary, as far as the app reads it. */
  datatype Stocked = Stocked(vin: string, modelNumber: string)

  /** What the app shows. */
  datatype Screen =
    | Idle
    | VinNotFound
    | NoLeaseData(model: string)
    | Table(model: string, rows: seq<ResultRow>)
    | Crashed(model: string)

  /** The model number stocked under `vin` (the first row with it). */
  function StockedModel(stock: seq<Stocked>, vin: string): (r: Option<string>)
    ensures r.None? <==> forall i :: 0 <= i < |stock| ==> stock[i].vin != vin
    ensures r.Some? ==> exists i :: 0 <= i < |stock| && stock[i] == Stocked(vin, r.value) &&
                                    forall j :: 0 <= j < i ==> stock[j].vin != vin
  {
    match FirstFrom(stock, (s: Stocked) => s.vin == vin, 0)
    case Some(i) => Some(stock[i].modelNumber)
    case None => None
  }

  /** The app: nothing until a VIN is typed; then the model number of the
      normalised VIN, and the results table for every term, or the message
      that there is none. */
  function Lookup(stock: seq<Stocked>, sheet: Sheet, input: string): (r: Screen)
    ensures r.Idle? <==> input == ""
    ensures r.VinNotFound? <==> input != "" && StockedModel(stock, NormalizeVin(input)).None?
    ensures r.NoLeaseData? || r.Table? || r.Crashed? ==>
              input != "" && StockedModel(stock, NormalizeVin(input)) == Some(r.model)
    ensures r.NoLeaseData? ==> forall i :: 0 <= i < |AllTerms| ==> ExtractLeaseData(sheet, r.model, AllTerms[i]) == Ok(None)
    ensures r.Table? ==> r.rows != [] && ResultsFor(sheet, r.model, AllTerms) == Ok(r.rows)
    ensures r.Crashed? ==> exists i :: 0 <= i < |AllTerms| && TermFails(sheet, r.model, AllTerms[i])
  {
    if input == "" then Idle
    else match StockedModel(stock, NormalizeVin(input))
      case None => VinNotFound
      case Some(model) =>
        match ResultsFor(sheet, model, AllTerms)
        case Err(_) => Crashed(model)
        case Ok(rows) =>
          NoDataIffEmpty(sheet, model, AllTerms);
          if rows == [] then NoLeaseData(model) else Table(model, rows)
  }
}
