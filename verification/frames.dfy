/** A pandas DataFrame of text cells, as both scripts read one: column labels
    in order and, per row, one cell per column. */
module Frames {
  import opened Seqs

  /** One cell: pandas' missing value (NaN), or text. */
  datatype Cell = NaN | Text(text: string)

  /** One row, laid out like the frame's columns. */
  type Row = seq<Cell>

  /** Column labels in order, and the rows (the index is 0, 1, 2, ...). */
  datatype Frame = Frame(columns: seq<string>, rows: seq<Row>)

  /** Every row has one cell per column. */
  predicate Shaped(f: Frame) {
    forall i :: 0 <= i < |f.rows| ==> |f.rows[i]| == |f.columns|
  }

  /** One cell per column and no label twice: a frame whose columns can be
      addressed by label. */
  predicate Named(f: Frame) {
    Shaped(f) && NoDuplicates(f.columns)
  }

  /** `astype(str)`: a missing value reads "nan". */
  function CellText(c: Cell): string {
    if c.NaN? then "nan" else c.text
  }

  /** The cell of column `name` in a row laid out by `columns`; missing when
      there is no such column. */
  function CellOf(row: Row, columns: seq<string>, name: string): (c: Cell)
    requires |row| == |columns|
    ensures name !in columns ==> c == NaN
    ensures forall j :: 0 <= j < |columns| && columns[j] == name && NoDuplicates(columns) ==> c == row[j]
  {
    var k := IndexOf(columns, name);
    if k < |columns| then row[k] else NaN
  }

  /** A row laid out by `from` re-laid out by `to`, as `pd.concat` aligns
      frames on their labels: each label keeps its cell, a label `from`
      lacks gets a missing value. */
  function Realign(row: Row, from: seq<string>, to: seq<string>): (r: Row)
    requires |row| == |from|
    ensures |r| == |to|
    ensures forall j :: 0 <= j < |to| ==> r[j] == CellOf(row, from, to[j])
  {
    seq(|to|, j requires 0 <= j < |to| => CellOf(row, from, to[j]))
  }

  /** Re-laying out a row by its own labels changes nothing. */
  lemma RealignIdentity(row: Row, columns: seq<string>)
    requires |row| == |columns| && NoDuplicates(columns)
    ensures Realign(row, columns, columns) == row
  {
  }

  /** Re-laying out in two steps, through labels that include all of the
      row's, is the same as re-laying out at once. */
  lemma RealignTwice(row: Row, a: seq<string>, b: seq<string>, c: seq<string>)
    requires |row| == |a|
    requires forall x :: x in a ==> x in b
    ensures Realign(Realign(row, a, b), b, c) == Realign(row, a, c)
  {
    var mid := Realign(row, a, b);
    forall j | 0 <= j < |c|
      ensures CellOf(mid, b, c[j]) == CellOf(row, a, c[j])
    {
      if c[j] in b {
        var k := IndexOf(b, c[j]);
        assert mid[k] == CellOf(row, a, b[k]);
      }
    }
  }

  /** `pd.DataFrame()`: no columns, no rows. */
  const Empty := Frame([], [])

  /** The labels of the concatenation of frames labelled `a` and `b`: those
      of `a`, then those of `b` that `a` lacks, each in its frame's order. */
  function ConcatColumns(a: seq<string>, b: seq<string>): (r: seq<string>)
    ensures |r| >= |a| && r[..|a|] == a
    ensures forall x :: x in r <==> x in a || x in b
    ensures NoDuplicates(a) && NoDuplicates(b) ==> NoDuplicates(r)
    ensures a == [] ==> r == b
  {
    var lacking := x => x !in a;
    var added := Filter(lacking, b);
    var r := a + added;
    assert r[..|a|] == a;
    assert a == [] ==> r == b by {
      if a == [] {
        FilterKeepsAll(lacking, b);
      }
    }
    assert NoDuplicates(a) && NoDuplicates(b) ==> NoDuplicates(r) by {
      if NoDuplicates(a) && NoDuplicates(b) {
        FilterNoDuplicates(lacking, b);
        forall i, j | 0 <= i < j < |r|
          ensures r[i] != r[j]
        {
          if i < |a| <= j {
            assert r[j] in added;
            assert r[i] in a;
          }
        }
      }
    }
    r
  }

  /** Every row of `rows` re-laid out from `from` to `to`. */
  function RealignRows(rows: seq<Row>, from: seq<string>, to: seq<string>): (r: seq<Row>)
    requires forall i :: 0 <= i < |rows| ==> |rows[i]| == |from|
    ensures |r| == |rows|
    ensures forall i :: 0 <= i < |rows| ==> r[i] == Realign(rows[i], from, to)
  {
    seq(|rows|, i requires 0 <= i < |rows| => Realign(rows[i], from, to))
  }

  /** `pd.concat([a, b], ignore_index=True)`: the union of the labels, `a`'s
      rows and then `b`'s, each re-laid out by the union (a label a frame
      lacks reads as missing in that frame's rows). */
  function Concat(a: Frame, b: Frame): (r: Frame)
    requires Shaped(a) && Shaped(b)
    ensures Shaped(r)
    ensures r.columns == ConcatColumns(a.columns, b.columns)
    ensures |r.rows| == |a.rows| + |b.rows|
    ensures forall i :: 0 <= i < |a.rows| ==> r.rows[i] == Realign(a.rows[i], a.columns, r.columns)
    ensures forall i :: 0 <= i < |b.rows| ==>
              r.rows[|a.rows| + i] == Realign(b.rows[i], b.columns, r.columns)
  {
    var cols := ConcatColumns(a.columns, b.columns);
    Frame(cols, RealignRows(a.rows, a.columns, cols) + RealignRows(b.rows, b.columns, cols))
  }

  /** Concatenating onto the empty frame the loop starts from gives the frame
      itself, when its labels are distinct. */
  lemma ConcatEmpty(f: Frame)
    requires Shaped(f) && NoDuplicates(f.columns)
    ensures Concat(Empty, f) == f
  {
    var r := Concat(Empty, f);
    assert r.columns == f.columns;
    RealignRowsIdentity(f.rows, f.columns);
    assert forall i :: 0 <= i < |f.rows| ==> r.rows[0 + i] == f.rows[i];
  }

  lemma RealignRowsIdentity(rows: seq<Row>, columns: seq<string>)
    requires forall i :: 0 <= i < |rows| ==> |rows[i]| == |columns|
    requires NoDuplicates(columns)
    ensures forall i :: 0 <= i < |rows| ==> Realign(rows[i], columns, columns) == rows[i]
  {
    forall i | 0 <= i < |rows|
      ensures Realign(rows[i], columns, columns) == rows[i]
    {
      RealignIdentity(rows[i], columns);
    }
  }

  /** Number of rows in all of `ts`. */
  function TotalRows(ts: seq<Frame>): nat {
    if |ts| == 0 then 0 else TotalRows(ts[..|ts| - 1]) + |ts[|ts| - 1].rows|
  }

  /** The rows of frames before `k`, and those of frame `k`, fit in the total. */
  lemma {:induction false} TotalRowsPrefix(ts: seq<Frame>, k: nat)
    requires k < |ts|
    ensures TotalRows(ts[..k]) + |ts[k].rows| <= TotalRows(ts)
    decreases |ts|
  {
    var n := |ts| - 1;
    if k < n {
      TotalRowsPrefix(ts[..n], k);
      assert ts[..n][..k] == ts[..k];
    } else {
      assert ts[..n] == ts[..k];
    }
  }

  /** The loop `combined = pd.concat([combined, df], ignore_index=True)` over
      `ts`, starting from the empty frame. */
  function ConcatAll(ts: seq<Frame>): (r: Frame)
    requires forall k :: 0 <= k < |ts| ==> Shaped(ts[k])
    ensures Shaped(r)
    ensures |r.rows| == TotalRows(ts)
    decreases |ts|
  {
    if |ts| == 0 then Empty
    else
      var n := |ts| - 1;
      Concat(ConcatAll(ts[..n]), ts[n])
  }

  /** Every label of every frame is a label of the concatenation. */
  lemma {:induction false} ConcatAllKeepsLabels(ts: seq<Frame>)
    requires forall k :: 0 <= k < |ts| ==> Shaped(ts[k])
    ensures forall k, x :: 0 <= k < |ts| && x in ts[k].columns ==> x in ConcatAll(ts).columns
    decreases |ts|
  {
    if |ts| > 0 {
      var n := |ts| - 1;
      var p := ts[..n];
      ConcatAllKeepsLabels(p);
      forall k, x | 0 <= k < n && x in ts[k].columns
        ensures x in ConcatAll(p).columns
      {
        assert p[k] == ts[k];
      }
    }
  }

  /** Every label of the concatenation is a label of some frame. */
  lemma {:induction false} ConcatAllLabelsFrom(ts: seq<Frame>)
    requires forall k :: 0 <= k < |ts| ==> Shaped(ts[k])
    ensures forall x :: x in ConcatAll(ts).columns ==> LabelOfSome(ts, x)
    decreases |ts|
  {
    if |ts| > 0 {
      var n := |ts| - 1;
      var p := ts[..n];
      ConcatAllLabelsFrom(p);
      forall x | x in ConcatAll(p).columns
        ensures LabelOfSome(ts, x)
      {
        var k :| 0 <= k < n && x in p[k].columns;
        assert p[k] == ts[k];
      }
    }
  }

  /** No label repeats in the concatenation when none repeats in a frame. */
  lemma {:induction false} ConcatAllDistinctLabels(ts: seq<Frame>)
    requires forall k :: 0 <= k < |ts| ==> Shaped(ts[k]) && NoDuplicates(ts[k].columns)
    ensures NoDuplicates(ConcatAll(ts).columns)
    decreases |ts|
  {
    if |ts| > 0 {
      var n := |ts| - 1;
      var p := ts[..n];
      assert forall k :: 0 <= k < n ==> p[k] == ts[k];
      ConcatAllDistinctLabels(p);
    }
  }

  /** Some frame of `ts` has label `x`. */
  predicate LabelOfSome(ts: seq<Frame>, x: string) {
    exists k :: 0 <= k < |ts| && x in ts[k].columns
  }

  /** Row `i` of frame `k` sits at position `TotalRows(ts[..k]) + i` of the
      concatenation, re-laid out by the concatenation's labels. */
  lemma ConcatAllBlock(ts: seq<Frame>, k: nat, i: nat)
    requires forall m :: 0 <= m < |ts| ==> Shaped(ts[m])
    requires k < |ts| && i < |ts[k].rows|
    ensures TotalRows(ts[..k]) + i < |ConcatAll(ts).rows|
    ensures ConcatAll(ts).rows[TotalRows(ts[..k]) + i] ==
            Realign(ts[k].rows[i], ts[k].columns, ConcatAll(ts).columns)
  {
    ConcatAllStack(ts);
    StackBlock(ts, ConcatAll(ts).columns, k, i);
  }

  /** The rows of `ts`, frame after frame, each re-laid out by `cols`: what
      the concatenation loop amounts to once all labels are known. */
  function Stack(ts: seq<Frame>, cols: seq<string>): (r: seq<Row>)
    requires forall m :: 0 <= m < |ts| ==> Shaped(ts[m])
    ensures |r| == TotalRows(ts)
    ensures forall j :: 0 <= j < |r| ==> |r[j]| == |cols|
  {
    if |ts| == 0 then []
    else
      var n := |ts| - 1;
      assert Shaped(ts[n]);
      Stack(ts[..n], cols) + RealignRows(ts[n].rows, ts[n].columns, cols)
  }

  /** Every label of every frame of `ts` is in `cols`. */
  predicate LabelsWithin(ts: seq<Frame>, cols: seq<string>) {
    forall k, x :: 0 <= k < |ts| && x in ts[k].columns ==> x in cols
  }

  /** The concatenation loop stacks the frames' rows, each re-laid out once
      by the final labels. */
  lemma {:induction false} ConcatAllStack(ts: seq<Frame>)
    requires forall m :: 0 <= m < |ts| ==> Shaped(ts[m])
    ensures ConcatAll(ts).rows == Stack(ts, ConcatAll(ts).columns)
    decreases |ts|
  {
    if |ts| > 0 {
      var n := |ts| - 1;
      var p := ts[..n];
      var front := ConcatAll(p);
      var r := ConcatAll(ts);
      ConcatAllStack(p);
      ConcatAllKeepsLabels(p);
      StackRealign(p, front.columns, r.columns);
      ConcatRows(front, ts[n]);
    }
  }

  /** The rows of `Concat(a, b)`: `a`'s then `b`'s, each re-laid out. */
  lemma ConcatRows(a: Frame, b: Frame)
    requires Shaped(a) && Shaped(b)
    ensures Concat(a, b).rows ==
            RealignRows(a.rows, a.columns, Concat(a, b).columns) + RealignRows(b.rows, b.columns, Concat(a, b).columns)
  {
  }

  /** Re-laying out stacked rows from `b` to `c` stacks them by `c`. */
  lemma {:induction false} StackRealign(ts: seq<Frame>, b: seq<string>, c: seq<string>)
    requires forall m :: 0 <= m < |ts| ==> Shaped(ts[m])
    requires LabelsWithin(ts, b)
    ensures RealignRows(Stack(ts, b), b, c) == Stack(ts, c)
    decreases |ts|
  {
    if |ts| > 0 {
      var n := |ts| - 1;
      var p := ts[..n];
      assert LabelsWithin(p, b) by {
        forall k, x | 0 <= k < |p| && x in p[k].columns
          ensures x in b
        {
          assert p[k] == ts[k];
        }
      }
      StackRealign(p, b, c);
      RealignRowsAppend(Stack(p, b), RealignRows(ts[n].rows, ts[n].columns, b), b, c);
      RealignRowsTwice(ts[n].rows, ts[n].columns, b, c);
    }
  }

  lemma RealignRowsAppend(x: seq<Row>, y: seq<Row>, from: seq<string>, to: seq<string>)
    requires forall i :: 0 <= i < |x| ==> |x[i]| == |from|
    requires forall i :: 0 <= i < |y| ==> |y[i]| == |from|
    ensures RealignRows(x + y, from, to) == RealignRows(x, from, to) + RealignRows(y, from, to)
  {
    assert forall i :: 0 <= i < |y| ==> (x + y)[|x| + i] == y[i];
  }

  lemma RealignRowsTwice(rows: seq<Row>, a: seq<string>, b: seq<string>, c: seq<string>)
    requires forall i :: 0 <= i < |rows| ==> |rows[i]| == |a|
    requires forall x :: x in a ==> x in b
    ensures RealignRows(RealignRows(rows, a, b), b, c) == RealignRows(rows, a, c)
  {
    forall i | 0 <= i < |rows|
      ensures Realign(Realign(rows[i], a, b), b, c) == Realign(rows[i], a, c)
    {
      RealignTwice(rows[i], a, b, c);
    }
  }

  /** Row `i` of frame `k` sits at `TotalRows(ts[..k]) + i` of the stack. */
  lemma {:induction false} StackBlock(ts: seq<Frame>, cols: seq<string>, k: nat, i: nat)
    requires forall m :: 0 <= m < |ts| ==> Shaped(ts[m])
    requires k < |ts| && i < |ts[k].rows|
    ensures TotalRows(ts[..k]) + i < |Stack(ts, cols)|
    ensures Stack(ts, cols)[TotalRows(ts[..k]) + i] == Realign(ts[k].rows[i], ts[k].columns, cols)
    decreases |ts|
  {
    TotalRowsPrefix(ts, k);
    var n := |ts| - 1;
    var p := ts[..n];
    if k == n {
      assert p == ts[..k];
    } else {
      assert p[..k] == ts[..k];
      assert p[k] == ts[k];
      StackBlock(p, cols, k, i);
    }
  }

  /** Every row of the concatenation comes from one of the frames, at the
      position `ConcatAllBlock` places it. */
  lemma {:induction false} ConcatAllOrigin(ts: seq<Frame>, j: nat) returns (k: nat, i: nat)
    requires forall m :: 0 <= m < |ts| ==> Shaped(ts[m])
    requires j < |ConcatAll(ts).rows|
    ensures k < |ts| && i < |ts[k].rows| && j == TotalRows(ts[..k]) + i
    decreases |ts|
  {
    var n := |ts| - 1;
    var p := ts[..n];
    if j < TotalRows(p) {
      assert |ConcatAll(p).rows| == TotalRows(p);
      k, i := ConcatAllOrigin(p, j);
      assert p[..k] == ts[..k];
    } else {
      k, i := n, j - TotalRows(p);
      assert ts[..k] == p;
    }
  }

  /** The rows of the concatenation are exactly the frames' rows, each
      re-laid out by the concatenation's labels. */
  lemma ConcatAllRows(ts: seq<Frame>)
    requires forall m :: 0 <= m < |ts| ==> Shaped(ts[m])
    ensures forall k, i :: 0 <= k < |ts| && 0 <= i < |ts[k].rows| ==>
              Realign(ts[k].rows[i], ts[k].columns, ConcatAll(ts).columns) in ConcatAll(ts).rows
    ensures forall row :: row in ConcatAll(ts).rows ==>
              exists k, i :: 0 <= k < |ts| && 0 <= i < |ts[k].rows| &&
                row == Realign(ts[k].rows[i], ts[k].columns, ConcatAll(ts).columns)
  {
    ConcatAllRowsIn(ts);
    ConcatAllRowsFrom(ts);
  }

  lemma ConcatAllRowsIn(ts: seq<Frame>)
    requires forall m :: 0 <= m < |ts| ==> Shaped(ts[m])
    ensures forall k, i :: 0 <= k < |ts| && 0 <= i < |ts[k].rows| ==>
              Realign(ts[k].rows[i], ts[k].columns, ConcatAll(ts).columns) in ConcatAll(ts).rows
  {
    var r := ConcatAll(ts);
    forall k, i | 0 <= k < |ts| && 0 <= i < |ts[k].rows|
      ensures Realign(ts[k].rows[i], ts[k].columns, r.columns) in r.rows
    {
      ConcatAllBlock(ts, k, i);
    }
  }

  lemma ConcatAllRowsFrom(ts: seq<Frame>)
    requires forall m :: 0 <= m < |ts| ==> Shaped(ts[m])
    ensures forall row :: row in ConcatAll(ts).rows ==>
              exists k, i :: 0 <= k < |ts| && 0 <= i < |ts[k].rows| &&
                row == Realign(ts[k].rows[i], ts[k].columns, ConcatAll(ts).columns)
  {
    var r := ConcatAll(ts);
    forall row | row in r.rows
      ensures exists k, i :: 0 <= k < |ts| && 0 <= i < |ts[k].rows| &&
                row == Realign(ts[k].rows[i], ts[k].columns, r.columns)
    {
      var j :| 0 <= j < |r.rows| && r.rows[j] == row;
      var k, i := ConcatAllOrigin(ts, j);
      ConcatAllBlock(ts, k, i);
    }
  }
}
