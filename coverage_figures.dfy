/** The coverage figures: the all-samples grid (`createAllCoverageFig`) and the
    single-sample chart (`createSampleCoverageFig`), as sequences of traces. */
module CoverageFigures {
  import opened Common
  import opened Strings
  import opened Tables
  import opened Segments
  import opened Cycles

  // ---------------------------------------------------------------------------
  // Table slicing and filtering.

  /** `df.iloc[::20]`: every 20th row of the whole table, starting with the first;
      it keeps only rows of the table, and the first one whenever there is one. */
  function Thin(rows: seq<CoverageRow>): (r: seq<CoverageRow>)
    ensures forall x :: x in r ==> x in rows
    ensures |rows| > 0 ==> |r| > 0 && r[0] == rows[0]
    decreases |rows|
  {
    if |rows| == 0 then []
    else
      var rest := rows[if |rows| < 20 then |rows| else 20..];
      assert forall x :: x in rest ==> x in rows;
      [rows[0]] + Thin(rest)
  }

  /** The thinned table holds exactly the rows at indices 0, 20, 40, ... */
  lemma {:induction false} ThinAt(rows: seq<CoverageRow>)
    ensures |Thin(rows)| == (|rows| + 19) / 20
    ensures forall k :: 0 <= k < |Thin(rows)| ==> Thin(rows)[k] == rows[20 * k]
  {
    if |rows| >= 20 {
      var rest := rows[20..];
      ThinAt(rest);
      forall k | 1 <= k < |Thin(rows)| ensures Thin(rows)[k] == rows[20 * k] {
        assert Thin(rows)[k] == Thin(rest)[k - 1] == rest[20 * (k - 1)];
      }
    } else if |rows| > 0 {
      assert Thin(rows[|rows|..]) == [];
    }
  }

  /** The rows with a given Sample and Reference_Name, in table order. */
  function Select(rows: seq<CoverageRow>, s: string, g: string): (r: seq<CoverageRow>)
    ensures forall x :: x in r <==> x in rows && x.sample == s && x.referenceName == g
  {
    if |rows| == 0 then []
    else
      assert rows == [rows[0]] + rows[1..];
      (if rows[0].sample == s && rows[0].referenceName == g then [rows[0]] else []) + Select(rows[1..], s, g)
  }

  /** `df[df['Sample'] == s]`: the rows of sample `s` and no others. */
  function SelectSample(rows: seq<CoverageRow>, s: string): (r: seq<CoverageRow>)
    ensures forall x :: x in r <==> x in rows && x.sample == s
  {
    if |rows| == 0 then []
    else
      assert rows == [rows[0]] + rows[1..];
      (if rows[0].sample == s then [rows[0]] else []) + SelectSample(rows[1..], s)
  }

  /** `df[df['Reference_Name'] == g]`: the rows of name `g` and no others. */
  function SelectName(rows: seq<CoverageRow>, g: string): (r: seq<CoverageRow>)
    ensures forall x :: x in r <==> x in rows && x.referenceName == g
  {
    if |rows| == 0 then []
    else
      assert rows == [rows[0]] + rows[1..];
      (if rows[0].referenceName == g then [rows[0]] else []) + SelectName(rows[1..], g)
  }

  /** Filtering by sample and then by name is filtering by both at once. */
  lemma {:induction false} SelectSampleThenName(rows: seq<CoverageRow>, s: string, g: string)
    ensures SelectName(SelectSample(rows, s), g) == Select(rows, s, g)
  {
    if |rows| > 0 {
      SelectSampleThenName(rows[1..], s, g);
      var head := if rows[0].sample == s then [rows[0]] else [];
      SelectNameAppend(head, SelectSample(rows[1..], s), g);
    }
  }

  lemma SelectNameAppend(a: seq<CoverageRow>, b: seq<CoverageRow>, g: string)
    requires |a| <= 1
    ensures SelectName(a + b, g) == SelectName(a, g) + SelectName(b, g)
  {
    if |a| == 1 {
      assert (a + b)[1..] == b;
      assert a[1..] == [];
    } else {
      assert a + b == b;
    }
  }

  /** The columns a trace plots. */
  function Positions(rows: seq<CoverageRow>): (r: seq<nat>)
    ensures |r| == |rows| && forall i :: 0 <= i < |rows| ==> r[i] == rows[i].position
  {
    seq(|rows|, i requires 0 <= i < |rows| => rows[i].position)
  }

  function DepthColumn(rows: seq<CoverageRow>): (r: seq<nat>)
    ensures |r| == |rows| && forall i :: 0 <= i < |rows| ==> r[i] == rows[i].depth
  {
    seq(|rows|, i requires 0 <= i < |rows| => rows[i].depth)
  }

  // ---------------------------------------------------------------------------
  // Figures.

  /** A line trace: name, line colour, x = Position, y = depth, and customdata. */
  datatype Trace = Trace(name: string, color: string, x: seq<nat>, y: seq<nat>, customdata: seq<string>)

  /** `go.Scatter(x=df2['Position'], y=df2[cov_header], name=g, customdata=df2['Sample'])`. */
  function LineTrace(sel: seq<CoverageRow>, name: string, color: string): Trace
  {
    Trace(name, color, Positions(sel), DepthColumn(sel), seq(|sel|, i requires 0 <= i < |sel| => sel[i].sample))
  }

  /** A trace with the grid cell (1-based row and column) it is added to. */
  datatype PlacedTrace = PlacedTrace(row: nat, col: nat, trace: Trace)

  datatype GridFigure = GridFigure(rows: nat, cols: nat, titles: seq<string>, traces: seq<PlacedTrace>,
                                   height: nat, showLegend: bool)

  datatype SampleFigure = SampleFigure(title: string, height: nat, yTitle: string, xTitle: string, traces: seq<Trace>)

  /** `ceil(n / 4)`: the fewest rows of four cells that hold `n` samples. */
  function GridRows(n: nat): (rows: nat)
    ensures 4 * rows >= n && 4 * rows < n + 4
  {
    (n + 3) / 4
  }

  /** `pick_total_height`: two tiers, split at 40 samples. */
  function PickTotalHeight(n: nat): (h: nat)
    ensures h == 1200 || h == 2400
    ensures h == 1200 <==> n <= 40
  {
    if n <= 40 then 1200 else 2400
  }

  /** The cell of the `i`-th sample (0-based) of `n`: the row and column cycles
      each advance once per sample, independently. */
  function CoverageCell(i: nat, n: nat): (cell: (nat, nat))
    requires i < n
    ensures 1 <= cell.0 <= GridRows(n) && 1 <= cell.1 <= 4
  {
    (i % GridRows(n) + 1, i % 4 + 1)
  }

  /** Each of the first `j` names has a group with a colour. */
  predicate Colored(names: seq<string>, segcolor: map<string, string>, j: nat)
    requires j <= |names|
  {
    forall b :: 0 <= b < j ==> Group(names[b]) in segcolor
  }

  /** The trace for sample `a` and name `b` in the all-samples grid. */
  function CoverageTrace(t: CoverageTable, samples: seq<string>, names: seq<string>,
                         segcolor: map<string, string>, a: nat, b: nat): PlacedTrace
    requires a < |samples| && b < |names| && Group(names[b]) in segcolor
  {
    var cell := CoverageCell(a, |samples|);
    PlacedTrace(cell.0, cell.1,
      LineTrace(Select(Thin(t.rows), samples[a], names[b]), names[b], segcolor[Group(names[b])]))
  }

  /** The traces of sample `a` for the first `j` names. */
  function SampleTraces(t: CoverageTable, samples: seq<string>, names: seq<string>,
                        segcolor: map<string, string>, a: nat, j: nat): seq<PlacedTrace>
    requires a < |samples| && j <= |names|
    requires Colored(names, segcolor, j)
  {
    seq(j, b requires 0 <= b < j => CoverageTrace(t, samples, names, segcolor, a, b))
  }

  /** Adding the trace of name `j`, placed in sample `a`'s cell, extends the
      traces of sample `a` by one. */
  lemma SampleTracesStep(t: CoverageTable, samples: seq<string>, names: seq<string>,
                         segcolor: map<string, string>, a: nat, j: nat, cell: (nat, nat), trace: Trace)
    requires a < |samples| && j < |names| && Colored(names, segcolor, j) && Group(names[j]) in segcolor
    requires cell == CoverageCell(a, |samples|)
    requires trace == LineTrace(Select(Thin(t.rows), samples[a], names[j]), names[j], segcolor[Group(names[j])])
    ensures Colored(names, segcolor, j + 1)
    ensures SampleTraces(t, samples, names, segcolor, a, j + 1)
         == SampleTraces(t, samples, names, segcolor, a, j) + [PlacedTrace(cell.0, cell.1, trace)]
  {
    assert PlacedTrace(cell.0, cell.1, trace) == CoverageTrace(t, samples, names, segcolor, a, j);
  }

  /** The traces of the first `i` samples, sample after sample, name after name. */
  function CoverageTraces(t: CoverageTable, samples: seq<string>, names: seq<string>,
                          segcolor: map<string, string>, i: nat): seq<PlacedTrace>
    requires i <= |samples|
    requires i > 0 ==> Colored(names, segcolor, |names|)
  {
    if i == 0 then []
    else CoverageTraces(t, samples, names, segcolor, i - 1) + SampleTraces(t, samples, names, segcolor, i - 1, |names|)
  }

  /** Sample `i` takes the cell the two cycles point at, and each cycle then
      moves on by one. */
  lemma CellStep(i: nat, n: nat, pickRow: nat, pickCol: nat)
    requires i < n && pickRow == i % GridRows(n) && pickCol == i % 4
    ensures (pickRow + 1, pickCol + 1) == CoverageCell(i, n)
    ensures (if pickRow + 1 == GridRows(n) then 0 else pickRow + 1) == (i + 1) % GridRows(n)
    ensures (if pickCol + 1 == 4 then 0 else pickCol + 1) == (i + 1) % 4
  {
    CycleStep(i, GridRows(n));
    CycleStep(i, 4);
  }

  /** The inner loop of `createAllCoverageFig`: one trace per name for sample
      `i`, all in the sample's cell; a name whose group has no colour raises
      KeyError on that group. */
  method AddSampleTraces(t: CoverageTable, samples: seq<string>, names: seq<string>, segcolor: map<string, string>,
                         thin: seq<CoverageRow>, i: nat, row: nat, col: nat)
    returns (r: Result<seq<PlacedTrace>>)
    requires i < |samples| && thin == Thin(t.rows) && (row, col) == CoverageCell(i, |samples|)
    ensures r.Ok? <==> Colored(names, segcolor, |names|)
    ensures r.Err? ==> r.error.KeyError? && r.error.key !in segcolor
    ensures r.Ok? ==> r.value == SampleTraces(t, samples, names, segcolor, i, |names|)
  {
    var traces: seq<PlacedTrace> := [];
    var j := 0;
    while j < |names|
      invariant 0 <= j <= |names|
      invariant Colored(names, segcolor, j)
      invariant traces == SampleTraces(t, samples, names, segcolor, i, j)
    {
      var g := names[j];
      var gBase := Group(g);
      if gBase !in segcolor {
        assert !Colored(names, segcolor, |names|);
        return Err(KeyError(gBase));
      }
      var df2 := Select(thin, samples[i], g);
      var trace := LineTrace(df2, g, segcolor[gBase]);
      SampleTracesStep(t, samples, names, segcolor, i, j, (row, col), trace);
      traces := traces + [PlacedTrace(row, col, trace)];
      j := j + 1;
    }
    return Ok(traces);
  }

  /** `createAllCoverageFig`. `segments` is the comma-joined list of reference
      names; the grid has `ceil(n/4)` rows and 4 columns, and one trace per
      (sample, name) in that order. */
  method CreateAllCoverageFig(t: CoverageTable, segments: string, segcolor: map<string, string>)
    returns (r: Result<GridFigure>)
    ensures var samples := Unique(Samples(t.rows));
      |samples| == 0 ==> r == Err(ValueError)
    ensures var samples := Unique(Samples(t.rows)); var header := CoverageHeader(t.columns);
      |samples| > 0 && header !in t.columns ==> r == Err(KeyError(header))
    ensures var samples := Unique(Samples(t.rows)); var names := Split(segments, ',');
      |samples| > 0 && CoverageHeader(t.columns) in t.columns ==>
        (r.Ok? <==> Colored(names, segcolor, |names|))
    ensures r.Err? && r.error.KeyError? && r.error.key != CoverageHeader(t.columns) ==> r.error.key !in segcolor
    ensures r.Ok? ==>
      var samples := Unique(Samples(t.rows)); var names := Split(segments, ',');
      && |samples| > 0
      && Colored(names, segcolor, |names|)
      && r.value.rows == GridRows(|samples|) && r.value.cols == 4
      && r.value.titles == samples
      && r.value.height == PickTotalHeight(|samples|) && !r.value.showLegend
      && r.value.traces == CoverageTraces(t, samples, names, segcolor, |samples|)
  {
    var header := CoverageHeader(t.columns);
    var samples := Unique(Samples(t.rows));
    var numCols := 4;
    var numRows := GridRows(|samples|);
    if numRows == 0 {
      // make_subplots refuses a grid with no rows
      return Err(ValueError);
    }
    var thin := Thin(t.rows);  // every 20th row
    var names := Split(segments, ',');
    var m := |names|;
    if header !in t.columns {
      // raised by the first trace's `df2[cov_header]`, before any colour lookup;
      // a first trace exists, since there is a sample and `split` yields a name
      return Err(KeyError(header));
    }
    var traces: seq<PlacedTrace> := [];
    var pickRow, pickCol := 0, 0;  // positions of the two cycles
    var i := 0;
    while i < |samples|
      invariant 0 <= i <= |samples|
      invariant pickRow == i % numRows && pickCol == i % numCols
      invariant i > 0 ==> Colored(names, segcolor, m)
      invariant traces == CoverageTraces(t, samples, names, segcolor, i)
    {
      var row, col := pickRow + 1, pickCol + 1;
      CellStep(i, |samples|, pickRow, pickCol);
      pickRow := if pickRow + 1 == numRows then 0 else pickRow + 1;
      pickCol := if pickCol + 1 == numCols then 0 else pickCol + 1;
      var added := AddSampleTraces(t, samples, names, segcolor, thin, i, row, col);
      if added.Err? {
        return Err(added.error);
      }
      traces := traces + added.value;
      assert traces == CoverageTraces(t, samples, names, segcolor, i + 1);
      i := i + 1;
    }
    return Ok(GridFigure(numRows, numCols, samples, traces, PickTotalHeight(|samples|), false));
  }

  lemma {:induction false} CoverageTracesLength(t: CoverageTable, samples: seq<string>, names: seq<string>,
                                                segcolor: map<string, string>, i: nat)
    requires i <= |samples|
    requires Colored(names, segcolor, |names|)
    ensures |CoverageTraces(t, samples, names, segcolor, i)| == i * |names|
  {
    if i > 0 {
      CoverageTracesLength(t, samples, names, segcolor, i - 1);
      assert (i - 1) * |names| + |names| == i * |names|;
    }
  }

  /** The grid has exactly one trace per (sample, name): the trace of sample `a`
      and name `b` is the `a * |names| + b`-th. */
  lemma {:induction false} CoverageTraceAt(t: CoverageTable, samples: seq<string>, names: seq<string>,
                                           segcolor: map<string, string>, i: nat, a: nat, b: nat)
    requires i <= |samples| && a < i && b < |names|
    requires Colored(names, segcolor, |names|)
    ensures |CoverageTraces(t, samples, names, segcolor, i)| == i * |names|
    ensures a * |names| + b < i * |names|
    ensures CoverageTraces(t, samples, names, segcolor, i)[a * |names| + b] == CoverageTrace(t, samples, names, segcolor, a, b)
  {
    var m := |names|;
    var k := a * m + b;
    var prev := CoverageTraces(t, samples, names, segcolor, i - 1);
    var last := SampleTraces(t, samples, names, segcolor, i - 1, m);
    CoverageTracesLength(t, samples, names, segcolor, i);
    CoverageTracesLength(t, samples, names, segcolor, i - 1);
    assert (i - 1) * m + m == i * m;
    if a < i - 1 {
      CoverageTraceAt(t, samples, names, segcolor, i - 1, a, b);
      assert (prev + last)[k] == prev[k];
    } else {
      assert k == |prev| + b;
      assert (prev + last)[k] == last[b];
    }
  }

  /** The trace for name `g` in the single-sample chart: every row of the sample
      with that name, tagged 'all'. */
  function SampleTrace(rows: seq<CoverageRow>, sample: string, g: string, color: string): Trace
  {
    var sel := Select(rows, sample, g);
    Trace(g, color, Positions(sel), DepthColumn(sel), seq(|sel|, i requires 0 <= i < |sel| => "all"))
  }

  /** The single-sample chart's traces for the first `j` names: trace `b` is
      name `b`'s rows of the sample, in its group's colour. */
  function ChartTraces(rows: seq<CoverageRow>, sample: string, names: seq<string>,
                       segcolor: map<string, string>, j: nat): seq<Trace>
    requires j <= |names| && Colored(names, segcolor, j)
  {
    seq(j, b requires 0 <= b < j => SampleTrace(rows, sample, names[b], segcolor[Group(names[b])]))
  }

  lemma ChartTracesStep(rows: seq<CoverageRow>, sample: string, names: seq<string>,
                        segcolor: map<string, string>, j: nat, trace: Trace)
    requires j < |names| && Colored(names, segcolor, j) && Group(names[j]) in segcolor
    requires trace == SampleTrace(rows, sample, names[j], segcolor[Group(names[j])])
    ensures Colored(names, segcolor, j + 1)
    ensures ChartTraces(rows, sample, names, segcolor, j + 1) == ChartTraces(rows, sample, names, segcolor, j) + [trace]
  {
  }

  /** `createSampleCoverageFig`: one trace per name, 600 pixels high. */
  method CreateSampleCoverageFig(sample: string, t: CoverageTable, segments: string, segcolor: map<string, string>)
    returns (r: Result<SampleFigure>)
    ensures var header := CoverageHeader(t.columns);
      header !in t.columns ==> r == Err(KeyError(header))
    ensures var names := Split(segments, ',');
      CoverageHeader(t.columns) in t.columns ==> (r.Ok? <==> Colored(names, segcolor, |names|))
    ensures r.Err? && r.error.KeyError? && r.error.key != CoverageHeader(t.columns) ==> r.error.key !in segcolor
    ensures r.Ok? ==>
      var names := Split(segments, ',');
      && r.value.title == sample && r.value.height == 600
      && r.value.yTitle == "Coverage" && r.value.xTitle == "Position"
      && Colored(names, segcolor, |names|)
      && r.value.traces == ChartTraces(t.rows, sample, names, segcolor, |names|)
  {
    var header := CoverageHeader(t.columns);
    var df2 := SelectSample(t.rows, sample);
    var names := Split(segments, ',');
    if header !in t.columns {
      // raised by the first trace's `df3[cov_header]`, before any colour lookup;
      // `split` always yields a first name
      return Err(KeyError(header));
    }
    var traces: seq<Trace> := [];
    var j := 0;
    while j < |names|
      invariant 0 <= j <= |names|
      invariant Colored(names, segcolor, j)
      invariant traces == ChartTraces(t.rows, sample, names, segcolor, j)
    {
      var g := names[j];
      var gBase := Group(g);
      if gBase !in segcolor {
        assert !Colored(names, segcolor, |names|);
        return Err(KeyError(gBase));
      }
      var df3 := SelectName(df2, g);
      SelectSampleThenName(t.rows, sample, g);
      var trace := Trace(g, segcolor[gBase], Positions(df3), DepthColumn(df3),
                         seq(|df3|, k requires 0 <= k < |df3| => "all"));
      ChartTracesStep(t.rows, sample, names, segcolor, j, trace);
      traces := traces + [trace];
      j := j + 1;
    }
    return Ok(SampleFigure(sample, 600, "Coverage", "Position", traces));
  }

  // ---------------------------------------------------------------------------
  // Properties of the figures.

  /** A row is drawn in the all-samples trace of (s, g) exactly when it sits at
      a table index that is a multiple of 20 and has that Sample and name. */
  lemma ThinnedTraceRows(rows: seq<CoverageRow>, s: string, g: string, x: CoverageRow)
    ensures x in Select(Thin(rows), s, g) <==>
      x.sample == s && x.referenceName == g && exists k :: 0 <= k && 20 * k < |rows| && rows[20 * k] == x
  {
    ThinAt(rows);
    if x in Thin(rows) {
      var k :| 0 <= k < |Thin(rows)| && Thin(rows)[k] == x;
      assert 20 * k < |rows|;
    }
    if exists k :: 0 <= k && 20 * k < |rows| && rows[20 * k] == x {
      var k :| 0 <= k && 20 * k < |rows| && rows[20 * k] == x;
      assert k < |Thin(rows)|;
      assert Thin(rows)[k] == x;
    }
  }

  /** Every row the grid draws for (s, g) is also drawn by the single-sample chart of s. */
  lemma ThinnedWithinSample(rows: seq<CoverageRow>, s: string, g: string)
    ensures forall x :: x in Select(Thin(rows), s, g) ==> x in Select(rows, s, g)
  {
    forall x | x in Select(Thin(rows), s, g) ensures x in Select(rows, s, g) {
      ThinnedTraceRows(rows, s, g, x);
    }
  }

  /** The grid holds every sample: no sample is placed outside the grid. */
  lemma CoverageCellsInGrid(n: nat)
    requires n > 0
    ensures forall i :: 0 <= i < n ==>
      1 <= CoverageCell(i, n).0 <= GridRows(n) && 1 <= CoverageCell(i, n).1 <= 4
  {
  }

  /** The two cycles advance independently, so cells can coincide: with five
      samples the grid has two rows and the fifth sample lands on the first
      sample's cell, where row-major order would put it at row 2, column 1. */
  lemma CoverageCellsCollide()
    ensures GridRows(5) == 2
    ensures CoverageCell(0, 5) == CoverageCell(4, 5) == (1, 1)
  {
  }

  /** Up to four samples, the grid is one row and every sample has its own column. */
  lemma CoverageCellsDistinctInOneRow(n: nat, i: nat, j: nat)
    requires i < j < n <= 4
    ensures CoverageCell(i, n) != CoverageCell(j, n)
  {
  }
}
