/** Coverage aggregation (`pivot4heatmap`) and the heatmap's colour range
    (`createheatmap`, and `sliderMax` in `generate_df`). */
module Coverage {
  import opened Common
  import opened Strings
  import opened Tables
  import opened Segments

  // ---------------------------------------------------------------------------
  // Ordering of group keys: pandas' groupby sorts its keys, and Python compares
  // strings code point by code point.

  /** Python's `a < b` on strings. */
  predicate StrLess(a: string, b: string)
  {
    if |a| == 0 then |b| > 0
    else if |b| == 0 then false
    else a[0] < b[0] || (a[0] == b[0] && StrLess(a[1..], b[1..]))
  }

  lemma {:induction false} StrLessIrreflexive(a: string)
    ensures !StrLess(a, a)
  {
    if |a| > 0 { StrLessIrreflexive(a[1..]); }
  }

  lemma {:induction false} StrLessTransitive(a: string, b: string, c: string)
    requires StrLess(a, b) && StrLess(b, c)
    ensures StrLess(a, c)
  {
    if |a| > 0 && |b| > 0 && |c| > 0 && a[0] == b[0] == c[0] {
      StrLessTransitive(a[1..], b[1..], c[1..]);
    }
  }

  lemma {:induction false} StrLessTotal(a: string, b: string)
    requires a != b
    ensures StrLess(a, b) || StrLess(b, a)
  {
    if |a| > 0 && |b| > 0 && a[0] == b[0] {
      assert a == [a[0]] + a[1..] && b == [b[0]] + b[1..];
      StrLessTotal(a[1..], b[1..]);
    }
  }

  /** A groupby key: (Sample, Reference_Name). */
  type Key = (string, string)

  /** Python's `<` on pairs of strings. */
  predicate KeyLess(p: Key, q: Key)
  {
    StrLess(p.0, q.0) || (p.0 == q.0 && StrLess(p.1, q.1))
  }

  lemma KeyLessIrreflexive(p: Key)
    ensures !KeyLess(p, p)
  {
    StrLessIrreflexive(p.0);
    StrLessIrreflexive(p.1);
  }

  lemma KeyLessTransitive(p: Key, q: Key, r: Key)
    requires KeyLess(p, q) && KeyLess(q, r)
    ensures KeyLess(p, r)
  {
    if StrLess(p.0, q.0) && StrLess(q.0, r.0) { StrLessTransitive(p.0, q.0, r.0); }
    if p.0 == q.0 && StrLess(p.1, q.1) && q.0 == r.0 && StrLess(q.1, r.1) {
      StrLessTransitive(p.1, q.1, r.1);
    }
  }

  lemma KeyLessTotal(p: Key, q: Key)
    requires p != q
    ensures KeyLess(p, q) || KeyLess(q, p)
  {
    if p.0 != q.0 { StrLessTotal(p.0, q.0); } else { StrLessTotal(p.1, q.1); }
  }

  predicate StrictlySorted(s: seq<Key>)
  {
    forall i, j :: 0 <= i < j < |s| ==> KeyLess(s[i], s[j])
  }

  /** Adds one key to a sorted key list, keeping it sorted and duplicate-free. */
  function InsertKey(k: Key, s: seq<Key>): (r: seq<Key>)
    ensures |s| <= |r| <= |s| + 1 && |r| > 0
  {
    if |s| == 0 then [k]
    else if k == s[0] then s
    else if KeyLess(k, s[0]) then [k] + s
    else [s[0]] + InsertKey(k, s[1..])
  }

  lemma {:induction false} InsertKeySorted(k: Key, s: seq<Key>)
    requires StrictlySorted(s)
    ensures StrictlySorted(InsertKey(k, s))
    ensures forall x :: x in InsertKey(k, s) <==> x == k || x in s
  {
    if |s| == 0 {
    } else if k == s[0] {
    } else if KeyLess(k, s[0]) {
      forall j | 0 <= j < |s| ensures KeyLess(k, s[j]) {
        if j > 0 { KeyLessTransitive(k, s[0], s[j]); }
      }
    } else {
      KeyLessTotal(k, s[0]);
      InsertKeySorted(k, s[1..]);
      var t := InsertKey(k, s[1..]);
      forall x | x in t ensures KeyLess(s[0], x) {
        if x != k {
          var j :| 0 <= j < |s[1..]| && s[1..][j] == x;
          assert s[j + 1] == x;
        }
      }
      assert forall x :: x in s <==> x == s[0] || x in s[1..] by {
        assert s == [s[0]] + s[1..];
      }
    }
  }

  /** The key of a coverage row. */
  function KeyOf(row: CoverageRow): Key
  {
    (row.sample, row.referenceName)
  }

  /** The group keys of `groupby(['Sample', 'Reference_Name'])`, in pandas' order:
      never more keys than rows, and at least one key for a non-empty table. */
  function GroupKeys(rows: seq<CoverageRow>): (keys: seq<Key>)
    ensures |keys| <= |rows|
    ensures |keys| > 0 <==> |rows| > 0
  {
    if |rows| == 0 then []
    else InsertKey(KeyOf(rows[|rows| - 1]), GroupKeys(rows[..|rows| - 1]))
  }

  /** The groupby keys are sorted, each appears once, and they are exactly the
      (Sample, Reference_Name) pairs that occur in the table. */
  lemma {:induction false} GroupKeysExact(rows: seq<CoverageRow>)
    ensures StrictlySorted(GroupKeys(rows))
    ensures forall k :: k in GroupKeys(rows) <==> exists i :: 0 <= i < |rows| && KeyOf(rows[i]) == k
  {
    if |rows| > 0 {
      var init := rows[..|rows| - 1];
      GroupKeysExact(init);
      InsertKeySorted(KeyOf(rows[|rows| - 1]), GroupKeys(init));
      forall k ensures (exists i :: 0 <= i < |rows| && KeyOf(rows[i]) == k) ==> k in GroupKeys(rows) {
        if i :| 0 <= i < |rows| && KeyOf(rows[i]) == k {
          if i < |rows| - 1 { assert KeyOf(init[i]) == k; }
        }
      }
      forall k | k in GroupKeys(rows) ensures exists i :: 0 <= i < |rows| && KeyOf(rows[i]) == k {
        if k != KeyOf(rows[|rows| - 1]) {
          var i :| 0 <= i < |init| && KeyOf(init[i]) == k;
          assert KeyOf(rows[i]) == k;
        }
      }
    }
  }

  lemma SortedDistinct(s: seq<Key>)
    requires StrictlySorted(s)
    ensures NoDuplicates(s)
  {
    forall i, j | 0 <= i < j < |s| ensures s[i] != s[j] {
      if s[i] == s[j] { KeyLessIrreflexive(s[i]); }
    }
  }

  // ---------------------------------------------------------------------------
  // Means.

  /** The depths of the rows with one (Sample, Reference_Name) key, in table order. */
  function DepthsOf(rows: seq<CoverageRow>, k: Key): (ds: seq<nat>)
    ensures |ds| <= |rows|
  {
    if |rows| == 0 then []
    else DepthsOf(rows[..|rows| - 1], k) + (if KeyOf(rows[|rows| - 1]) == k then [rows[|rows| - 1].depth] else [])
  }

  lemma {:induction false} DepthsOfPresent(rows: seq<CoverageRow>, k: Key)
    ensures |DepthsOf(rows, k)| > 0 <==> exists i :: 0 <= i < |rows| && KeyOf(rows[i]) == k
  {
    if |rows| > 0 {
      var init := rows[..|rows| - 1];
      DepthsOfPresent(init, k);
      if exists i :: 0 <= i < |rows| && KeyOf(rows[i]) == k {
        var i :| 0 <= i < |rows| && KeyOf(rows[i]) == k;
        if i < |rows| - 1 { assert KeyOf(init[i]) == k; }
      }
      if exists i :: 0 <= i < |init| && KeyOf(init[i]) == k {
        var i :| 0 <= i < |init| && KeyOf(init[i]) == k;
        assert KeyOf(rows[i]) == k;
      }
    }
  }

  /** Every groupby key has at least one row. */
  lemma KeyHasRows(rows: seq<CoverageRow>, k: Key)
    requires k in GroupKeys(rows)
    ensures |DepthsOf(rows, k)| > 0
  {
    GroupKeysExact(rows);
    DepthsOfPresent(rows, k);
  }

  function Sum(xs: seq<nat>): nat
  {
    if |xs| == 0 then 0 else Sum(xs[..|xs| - 1]) + xs[|xs| - 1]
  }

  /** The arithmetic mean of a non-empty group. */
  function Mean(xs: seq<nat>): (m: real)
    requires |xs| > 0
    ensures m * |xs| as real == Sum(xs) as real
  {
    Sum(xs) as real / |xs| as real
  }

  /** A group whose depths are all `d` has mean `d`. */
  lemma {:induction false} SumOfUniform(xs: seq<nat>, d: nat)
    requires forall i :: 0 <= i < |xs| ==> xs[i] == d
    ensures Sum(xs) == |xs| * d
  {
    if |xs| > 0 { SumOfUniform(xs[..|xs| - 1], d); }
  }

  // ---------------------------------------------------------------------------
  // pivot4heatmap

  /** One row of the aggregated table: Sample, Segment and the mean depth.
      Segment is `None` where pandas' split leaves a missing value. */
  datatype HeatRow = HeatRow(sample: string, segment: Option<string>, mean: real)

  /** The aggregated table `df4`, with the name of its depth column. */
  datatype HeatTable = HeatTable(header: string, rows: seq<HeatRow>)

  /** The columns of the aggregated table. */
  function HeatColumns(t: HeatTable): seq<string>
  {
    ["Sample", "Segment", t.header]
  }

  /** The number of columns `str.split('_', expand=True)` produces: the most
      pieces any name splits into. */
  function SplitWidth(names: seq<string>): nat
  {
    if |names| == 0 then 0
    else
      var w := SplitWidth(names[..|names| - 1]);
      var n := |Split(names[|names| - 1], '_')|;
      if n > w then n else w
  }

  lemma {:induction false} SplitWidthBound(names: seq<string>)
    ensures forall k :: 0 <= k < |names| ==> |Split(names[k], '_')| <= SplitWidth(names)
    ensures |names| > 0 ==> exists k :: 0 <= k < |names| && |Split(names[k], '_')| == SplitWidth(names)
  {
    if |names| > 0 {
      SplitWidthBound(names[..|names| - 1]);
      var init := names[..|names| - 1];
      assert forall k :: 0 <= k < |init| ==> init[k] == names[k];
    }
  }

  /** The Segment of one name: with three split columns, the middle one (missing
      when the name has a single piece); otherwise assigning three columns raises
      ValueError and the Segment is the whole Reference_Name. */
  function SegmentOf(name: string, threeColumns: bool): (seg: Option<string>)
    ensures seg.None? <==> threeColumns && '_' !in name
    ensures threeColumns && seg.Some? ==> '_' !in seg.value
  {
    SplitHasSecond(name, '_');
    if !threeColumns then Some(name)
    else
      var tokens := Split(name, '_');
      if |tokens| >= 2 then Some(tokens[1]) else None
  }

  function KeyNames(keys: seq<Key>): (names: seq<string>)
    ensures |names| == |keys| && forall i :: 0 <= i < |keys| ==> names[i] == keys[i].1
  {
    seq(|keys|, i requires 0 <= i < |keys| => keys[i].1)
  }

  function AggregateRow(rows: seq<CoverageRow>, k: Key, threeColumns: bool): HeatRow
    requires k in GroupKeys(rows)
  {
    KeyHasRows(rows, k);
    HeatRow(k.0, SegmentOf(k.1, threeColumns), Mean(DepthsOf(rows, k)))
  }

  /** `pivot4heatmap`: selecting the depth column raises KeyError when it is
      missing; otherwise one row per groupby key, in key order. */
  function Pivot4Heatmap(t: CoverageTable): (r: Result<HeatTable>)
    ensures r.Err? <==> CoverageHeader(t.columns) !in t.columns
    ensures r.Err? ==> r.error == KeyError("Coverage Depth")
    ensures r.Ok? ==> r.value.header == CoverageHeader(t.columns) && |r.value.rows| == |GroupKeys(t.rows)|
  {
    var header := CoverageHeader(t.columns);
    if header !in t.columns then Err(KeyError(header))
    else
      var keys := GroupKeys(t.rows);
      var three := SplitWidth(KeyNames(keys)) == 3;
      Ok(HeatTable(header, seq(|keys|, i requires 0 <= i < |keys| => AggregateRow(t.rows, keys[i], three))))
  }

  /** The aggregation fails exactly when neither spelling of the depth column
      exists, with KeyError on the name it fell back to. */
  lemma PivotFails(t: CoverageTable)
    ensures Pivot4Heatmap(t).Err? <==> "Coverage_Depth" !in t.columns && "Coverage Depth" !in t.columns
    ensures Pivot4Heatmap(t).Err? ==> Pivot4Heatmap(t).error == KeyError("Coverage Depth")
  {
  }

  /** The groupby keys are sorted, each appears once, and they are exactly the
      (Sample, Reference_Name) pairs that occur in the table: pairs without rows
      are absent. */
  lemma PivotKeys(t: CoverageTable)
    ensures StrictlySorted(GroupKeys(t.rows)) && NoDuplicates(GroupKeys(t.rows))
    ensures forall k :: k in GroupKeys(t.rows) <==> exists i :: 0 <= i < |t.rows| && KeyOf(t.rows[i]) == k
  {
    GroupKeysExact(t.rows);
    SortedDistinct(GroupKeys(t.rows));
  }

  /** The aggregated table has one row per groupby key, in key order, holding
      the key's sample and the arithmetic mean of that key's depths. */
  lemma PivotMeans(t: CoverageTable, i: nat)
    requires Pivot4Heatmap(t).Ok? && i < |GroupKeys(t.rows)|
    ensures Pivot4Heatmap(t).value.header == CoverageHeader(t.columns)
    ensures |Pivot4Heatmap(t).value.rows| == |GroupKeys(t.rows)|
    ensures var k := GroupKeys(t.rows)[i];
      var row := Pivot4Heatmap(t).value.rows[i];
      && row.sample == k.0
      && |DepthsOf(t.rows, k)| > 0
      && row.mean == Mean(DepthsOf(t.rows, k))
  {
    var keys := GroupKeys(t.rows);
    KeyHasRows(t.rows, keys[i]);
    var three := SplitWidth(KeyNames(keys)) == 3;
    assert Pivot4Heatmap(t).value.rows[i] == AggregateRow(t.rows, keys[i], three);
  }

  /** The Segment column: the middle '_'-token when the names split into exactly
      three columns, the whole Reference_Name otherwise; either way one row per
      Reference_Name, never merged by segment. */
  lemma PivotSegments(t: CoverageTable)
    requires Pivot4Heatmap(t).Ok?
    ensures var keys := GroupKeys(t.rows);
      var out := Pivot4Heatmap(t).value;
      forall i :: 0 <= i < |keys| ==>
        if SplitWidth(KeyNames(keys)) == 3 then
          ('_' in keys[i].1 ==> out.rows[i].segment == Some(Group(keys[i].1)))
          && ('_' !in keys[i].1 ==> out.rows[i].segment == None)
        else out.rows[i].segment == Some(keys[i].1)
  {
    var keys := GroupKeys(t.rows);
    forall i | 0 <= i < |keys| { SplitHasSecond(keys[i].1, '_'); }
  }

  /** A table whose names all have two pieces ("A_HA") gets whole names as
      segments, although its colour groups are the second pieces. */
  lemma TwoPieceNamesKeepWholeName(names: seq<string>)
    requires |names| > 0
    requires forall k :: 0 <= k < |names| ==> |Split(names[k], '_')| == 2
    ensures SplitWidth(names) == 2
  {
    SplitWidthBound(names);
  }

  // ---------------------------------------------------------------------------
  // The ceiling and the heatmap.

  /** `df4[cov_header].max()`: `None` stands for pandas' NaN on an empty column. */
  function MaxMean(rows: seq<HeatRow>): (m: Option<real>)
    ensures m.None? <==> |rows| == 0
    ensures m.Some? ==> exists i :: 0 <= i < |rows| && rows[i].mean == m.value
    ensures m.Some? ==> forall i :: 0 <= i < |rows| ==> rows[i].mean <= m.value
  {
    if |rows| == 0 then None
    else
      var last := rows[|rows| - 1].mean;
      match MaxMean(rows[..|rows| - 1])
      case None => Some(last)
      case Some(m) => Some(if m < last then last else m)
  }

  /** The heatmap trace: one cell per aggregated row and the colour range. */
  datatype Heatmap = Heatmap(x: seq<string>, y: seq<Option<string>>, z: seq<real>, zmin: real, zmax: Option<real>)

  /** `createheatmap`: the depth column is resolved on the aggregated table; the
      colour range runs from 0 to the supplied ceiling, or to the column's
      maximum when none is supplied. */
  function CreateHeatmap(t: HeatTable, sliderMax: Option<real>): (h: Result<Heatmap>)
    ensures h.Ok? <==> t.header == "Coverage_Depth" || t.header == "Coverage Depth"
    ensures h.Ok? ==> h.value.zmin == 0.0
    ensures h.Ok? && sliderMax.Some? ==> h.value.zmax == sliderMax
    ensures h.Ok? && sliderMax.None? ==> h.value.zmax == MaxMean(t.rows)
    ensures h.Ok? ==> |h.value.x| == |h.value.y| == |h.value.z| == |t.rows|
    ensures h.Ok? ==> forall i :: 0 <= i < |t.rows| ==>
      h.value.x[i] == t.rows[i].sample && h.value.y[i] == t.rows[i].segment && h.value.z[i] == t.rows[i].mean
  {
    var header := CoverageHeader(HeatColumns(t));
    if header != t.header then Err(KeyError(header))
    else
      var ceiling := if sliderMax.None? then MaxMean(t.rows) else sliderMax;
      Ok(Heatmap(seq(|t.rows|, i requires 0 <= i < |t.rows| => t.rows[i].sample),
                 seq(|t.rows|, i requires 0 <= i < |t.rows| => t.rows[i].segment),
                 seq(|t.rows|, i requires 0 <= i < |t.rows| => t.rows[i].mean),
                 0.0, ceiling))
  }

  /** The aggregated table's depth column resolves to the same name again, so
      the heatmap of an aggregation always builds, and with no ceiling supplied
      its range tops out at the largest mean. */
  lemma HeatmapOfPivot(t: CoverageTable)
    requires Pivot4Heatmap(t).Ok?
    ensures CoverageHeader(HeatColumns(Pivot4Heatmap(t).value)) == Pivot4Heatmap(t).value.header
    ensures CreateHeatmap(Pivot4Heatmap(t).value, None).Ok?
  {
  }

  /** With every depth equal to `d`, every mean is `d`, and so is the default
      ceiling of a non-empty table. */
  lemma UniformDepthCeiling(t: CoverageTable, d: nat)
    requires Pivot4Heatmap(t).Ok? && |t.rows| > 0
    requires forall i :: 0 <= i < |t.rows| ==> t.rows[i].depth == d
    ensures forall i :: 0 <= i < |Pivot4Heatmap(t).value.rows| ==> Pivot4Heatmap(t).value.rows[i].mean == d as real
    ensures MaxMean(Pivot4Heatmap(t).value.rows) == Some(d as real)
  {
    var rows := Pivot4Heatmap(t).value.rows;
    RowKeyPresent(t.rows, 0);
    PivotMeans(t, 0);
    forall i | 0 <= i < |rows| ensures rows[i].mean == d as real {
      UniformMean(t, d, i);
    }
    MaxOfUniform(rows, d as real);
  }

  lemma UniformMean(t: CoverageTable, d: nat, i: nat)
    requires Pivot4Heatmap(t).Ok? && i < |GroupKeys(t.rows)|
    requires forall i :: 0 <= i < |t.rows| ==> t.rows[i].depth == d
    ensures Pivot4Heatmap(t).value.rows[i].mean == d as real
  {
    var k := GroupKeys(t.rows)[i];
    var ds := DepthsOf(t.rows, k);
    KeyHasRows(t.rows, k);
    DepthsUniform(t.rows, k, d);
    MeanOfUniform(ds, d);
    assert Pivot4Heatmap(t).value.rows[i].mean == Mean(ds);
  }

  lemma MaxOfUniform(rows: seq<HeatRow>, m: real)
    requires |rows| > 0 && forall i :: 0 <= i < |rows| ==> rows[i].mean == m
    ensures MaxMean(rows) == Some(m)
  {
  }

  /** A non-empty group whose depths are all `d` has mean `d`. */
  lemma MeanOfUniform(xs: seq<nat>, d: nat)
    requires |xs| > 0 && forall j :: 0 <= j < |xs| ==> xs[j] == d
    ensures Mean(xs) == d as real
  {
    SumOfUniform(xs, d);
    CancelCount(Mean(xs), |xs|, Sum(xs), d);
  }

  lemma CancelCount(m: real, n: nat, s: nat, d: nat)
    requires n > 0 && m * n as real == s as real && s == n * d
    ensures m == d as real
  {
    assert (n * d) as real == n as real * d as real;
  }

  /** The key of every row is a groupby key. */
  lemma RowKeyPresent(rows: seq<CoverageRow>, i: nat)
    requires i < |rows|
    ensures KeyOf(rows[i]) in GroupKeys(rows)
  {
    GroupKeysExact(rows);
  }

  lemma {:induction false} DepthsUniform(rows: seq<CoverageRow>, k: Key, d: nat)
    requires forall i :: 0 <= i < |rows| ==> rows[i].depth == d
    ensures forall j :: 0 <= j < |DepthsOf(rows, k)| ==> DepthsOf(rows, k)[j] == d
  {
    if |rows| > 0 { DepthsUniform(rows[..|rows| - 1], k, d); }
  }
}
