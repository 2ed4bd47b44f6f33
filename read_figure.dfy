/** The read-classification grid (`create_irma_read_fig`): a fixed 24 x 12 grid
    of pie charts, three consecutive cells per sample, four samples per row. */
module ReadFigure {
  import opened Strings
  import opened Tables
  import opened Cycles

  /** The stage groups of a sample's three cells. */
  const StageSlots: seq<seq<int>> := [[2], [3], [4, 5]]

  /** `df[(df['Stage'].isin(stages)) & (df['Sample'] == sample)]`, in table order. */
  function StageRows(rows: seq<ReadRow>, sample: string, stages: seq<int>): (r: seq<ReadRow>)
    ensures forall x :: x in r <==> x in rows && x.sample == sample && x.stage in stages
  {
    if |rows| == 0 then []
    else
      assert rows == [rows[0]] + rows[1..];
      (if rows[0].sample == sample && rows[0].stage in stages then [rows[0]] else []) + StageRows(rows[1..], sample, stages)
  }

  /** A pie trace: read counts labelled by record, named and tagged with the sample. */
  datatype PieTrace = PieTrace(name: string, values: seq<nat>, labels: seq<string>, meta: seq<string>)

  datatype PlacedPie = PlacedPie(row: nat, col: nat, pie: PieTrace)

  datatype ReadGrid = ReadGrid(rows: nat, cols: nat, traces: seq<PlacedPie>, height: nat, showLegend: bool)

  /** `go.Pie(values=d2['Reads'], labels=d2['Record'], name=sample, meta=[sample])`. */
  function PieOf(sample: string, d2: seq<ReadRow>): PieTrace
  {
    PieTrace(sample, seq(|d2|, i requires 0 <= i < |d2| => d2[i].readCount),
             seq(|d2|, i requires 0 <= i < |d2| => d2[i].record), [sample])
  }

  /** The cell of slot `b` of the `a`-th sample (0-based): the row cycle
      advances on every fourth sample, the column cycle on every slot. */
  function ReadCell(a: nat, b: nat): (cell: (nat, nat))
    requires b < 3
    ensures 1 <= cell.0 <= 24 && 1 <= cell.1 <= 12
  {
    ((a / 4) % 24 + 1, (3 * a + b) % 12 + 1)
  }

  /** The trace of slot `b` of the `a`-th sample. */
  function ReadTrace(df: seq<ReadRow>, order: seq<string>, a: nat, b: nat): PlacedPie
    requires a < |order| && b < 3
  {
    var cell := ReadCell(a, b);
    PlacedPie(cell.0, cell.1, PieOf(order[a], StageRows(df, order[a], StageSlots[b])))
  }

  /** The traces of the first `j` slots of the `a`-th sample. */
  function SlotTraces(df: seq<ReadRow>, order: seq<string>, a: nat, j: nat): seq<PlacedPie>
    requires a < |order| && j <= 3
  {
    seq(j, b requires 0 <= b < j => ReadTrace(df, order, a, b))
  }

  /** The traces of the first `i` samples. */
  function ReadTraces(df: seq<ReadRow>, order: seq<string>, i: nat): seq<PlacedPie>
    requires i <= |order|
  {
    if i == 0 then [] else ReadTraces(df, order, i - 1) + SlotTraces(df, order, i - 1, 3)
  }

  /** Adding slot `j` of the `a`-th sample, in its cell, extends the traces by that slot. */
  lemma SlotStep(before: seq<PlacedPie>, df: seq<ReadRow>, order: seq<string>, a: nat, j: nat, r: nat, c: nat)
    requires a < |order| && j < 3
    requires r == (a / 4) % 24 + 1 && c == (3 * a + j) % 12 + 1
    ensures before + SlotTraces(df, order, a, j) + [PlacedPie(r, c, PieOf(order[a], StageRows(df, order[a], StageSlots[j])))]
         == before + SlotTraces(df, order, a, j + 1)
  {
    var last := PlacedPie(r, c, PieOf(order[a], StageRows(df, order[a], StageSlots[j])));
    assert last == ReadTrace(df, order, a, j);
    assert SlotTraces(df, order, a, j + 1) == SlotTraces(df, order, a, j) + [last];
  }

  /** The row cycle advances on every fourth sample: before sample `i` it has
      advanced `(i + 3) / 4` times, and sample `i` sits in band `i / 4`. */
  lemma BandStep(i: nat, rowN: nat)
    requires rowN == ((i + 3) / 4) % 24
    ensures (i + 1) % 4 == 1 <==> i % 4 == 0
    ensures i % 4 == 0 ==> rowN + 1 == (i / 4) % 24 + 1
    ensures i % 4 == 0 ==> (if rowN + 1 == 24 then 0 else rowN + 1) == ((i + 1 + 3) / 4) % 24
    ensures i % 4 != 0 ==> rowN == ((i + 1 + 3) / 4) % 24 && i > 0 && ((i - 1) / 4) % 24 + 1 == (i / 4) % 24 + 1
  {
    if i % 4 == 0 {
      assert (i + 4) / 4 == (i + 3) / 4 + 1 && i / 4 == (i + 3) / 4;
      CycleStep((i + 3) / 4, 24);
    } else {
      assert (i + 4) / 4 == (i + 3) / 4 && i / 4 == (i - 1) / 4;
    }
  }

  /** The column cycle advances on every slot: slot `j` of sample `i` is its
      `3i + j`-th step. */
  lemma ColumnStep(i: nat, j: nat, colN: nat)
    requires colN == (3 * i + j) % 12
    ensures (if colN + 1 == 12 then 0 else colN + 1) == (3 * i + (j + 1)) % 12
  {
    CycleStep(3 * i + j, 12);
  }

  /** `create_irma_read_fig`. Python's `set` lists the samples in no specified
      order, so the order is the parameter `order`: any duplicate-free listing
      of the table's samples. */
  method CreateIrmaReadFig(df: seq<ReadRow>, order: seq<string>) returns (fig: ReadGrid)
    requires IsOrderOf(order, ReadSamples(df))
    ensures fig.rows == 24 && fig.cols == 12
    ensures fig.height == 3200 && !fig.showLegend
    ensures fig.traces == ReadTraces(df, order, |order|)
  {
    var columns, rows := 12, 24;
    var colN, rowN := 0, 0;  // positions of the two cycles
    var counter := 0;
    var r := 0;
    var traces: seq<PlacedPie> := [];
    var i := 0;
    while i < |order|
      invariant 0 <= i <= |order| && counter == i
      invariant rowN == ((i + 3) / 4) % 24
      invariant colN == (3 * i) % 12
      invariant i > 0 ==> r == ((i - 1) / 4) % 24 + 1
      invariant traces == ReadTraces(df, order, i)
    {
      var sample := order[i];
      counter := counter + 1;
      BandStep(i, rowN);
      if counter % 4 == 1 {
        r := rowN + 1;
        rowN := if rowN + 1 == rows then 0 else rowN + 1;
      }
      assert r == (i / 4) % 24 + 1;
      ghost var before := traces;
      var j := 0;
      while j < |StageSlots|
        invariant 0 <= j <= 3
        invariant colN == (3 * i + j) % 12
        invariant traces == before + SlotTraces(df, order, i, j)
      {
        var c := colN + 1;
        ColumnStep(i, j, colN);
        colN := if colN + 1 == columns then 0 else colN + 1;
        var d2 := StageRows(df, sample, StageSlots[j]);
        SlotStep(before, df, order, i, j, r, c);
        traces := traces + [PlacedPie(r, c, PieOf(sample, d2))];
        j := j + 1;
      }
      i := i + 1;
    }
    fig := ReadGrid(rows, columns, traces, 3200, false);
  }

  /** Slot `b` of the `a`-th sample is the `3a + b`-th trace, so every sample
      contributes exactly three traces. */
  lemma {:induction false} ReadTraceAt(df: seq<ReadRow>, order: seq<string>, i: nat, a: nat, b: nat)
    requires i <= |order| && a < i && b < 3
    ensures |ReadTraces(df, order, i)| == 3 * i
    ensures ReadTraces(df, order, i)[3 * a + b] == ReadTrace(df, order, a, b)
  {
    ReadTracesLength(df, order, i - 1);
    if a < i - 1 {
      ReadTraceAt(df, order, i - 1, a, b);
    }
  }

  lemma {:induction false} ReadTracesLength(df: seq<ReadRow>, order: seq<string>, i: nat)
    requires i <= |order|
    ensures |ReadTraces(df, order, i)| == 3 * i
  {
    if i > 0 { ReadTracesLength(df, order, i - 1); }
  }

  /** Each sample of the table is drawn in exactly three traces, consecutive in
      the figure, named after it. */
  lemma ThreeTracesPerSample(df: seq<ReadRow>, order: seq<string>, s: string)
    requires IsOrderOf(order, ReadSamples(df))
    requires s in ReadSamples(df)
    ensures |ReadTraces(df, order, |order|)| == 3 * |order|
    ensures exists a :: 0 <= a < |order| && order[a] == s && (forall k :: 0 <= k < 3 * |order| ==>
      (ReadTraces(df, order, |order|)[k].pie.name == s <==> k / 3 == a))
  {
    var n := |order|;
    var a :| 0 <= a < n && order[a] == s;
    ReadTracesLength(df, order, n);
    forall k | 0 <= k < 3 * n
      ensures ReadTraces(df, order, n)[k].pie.name == s <==> k / 3 == a
    {
      ReadTraceAt(df, order, n, k / 3, k % 3);
      assert 3 * (k / 3) + k % 3 == k;
    }
  }

  /** Each slot holds exactly the sample's rows of its stage group, so a
      sample without stage 5 rows still fills its third cell with stage 4. */
  lemma SlotRows(df: seq<ReadRow>, order: seq<string>, a: nat, b: nat, x: ReadRow)
    requires a < |order| && b < 3
    ensures x in StageRows(df, order[a], StageSlots[b]) <==>
      x in df && x.sample == order[a] &&
      (if b == 0 then x.stage == 2 else if b == 1 then x.stage == 3 else x.stage == 4 || x.stage == 5)
  {
  }

  /** Four samples share a row band: the three cells of the `a`-th sample are
      the columns `3 * (a mod 4) + 1` to `3 * (a mod 4) + 3` of band `a / 4`. */
  lemma ReadCellLayout(a: nat, b: nat)
    requires b < 3
    ensures ReadCell(a, b) == ((a / 4) % 24 + 1, 3 * (a % 4) + b + 1)
  {
    var q, p := a / 4, a % 4;
    assert 3 * a + b == 12 * q + (3 * p + b);
    ModUnique(3 * a + b, 12, q, 3 * p + b);
  }

  /** Up to 96 samples, no two slots share a cell. */
  lemma ReadCellsDistinct(a: nat, b: nat, a': nat, b': nat)
    requires a < 96 && a' < 96 && b < 3 && b' < 3
    requires ReadCell(a, b) == ReadCell(a', b')
    ensures a == a' && b == b'
  {
    ReadCellLayout(a, b);
    ReadCellLayout(a', b');
    assert a / 4 == a' / 4;
    assert a % 4 == a' % 4;
  }

  /** The row cycle wraps after 24 bands: the 97th sample is drawn over the first. */
  lemma ReadCellsWrap()
    ensures ReadCell(96, 0) == ReadCell(0, 0)
  {
  }
}
