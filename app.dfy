/** The callbacks that hold the core together: `generate_df`, which derives
    every artifact of one selection, and the drill-down click logic of the
    first `callback_coverage`, which keeps its state in module globals. */
module App {
  import opened Common
  import opened Strings
  import opened Tables
  import opened Segments
  import opened Coverage
  import opened CoverageFigures
  import opened ReadFigure

  /** What `generate_df` hands back for rendering, before JSON serialisation. */
  datatype Bundle = Bundle(df: CoverageTable, df4: HeatTable, covHeader: string, sliderMax: Option<real>,
                           segments: string, segset: string, segcolor: map<string, string>,
                           allFig: GridFigure, readFig: ReadGrid)

  /** A selection is complete when instrument, run and output directory are all chosen. */
  predicate SelectionComplete(machine: string, run: string, irma: string)
  {
    machine != "" && run != "" && irma != ""
  }

  /** Every reference name's group is one of `groups`, so its colour lookup succeeds. */
  predicate AllColored(names: seq<string>, groups: seq<string>)
  {
    forall b :: 0 <= b < |names| ==> Group(names[b]) in groups
  }

  /** `generate_df`, from the two loaded tables on. The orders of the two Python
      `set`s are the parameters `groupOrder` and `sampleOrder`. */
  method GenerateDf(machine: string, run: string, irma: string, df: CoverageTable, readDf: seq<ReadRow>,
                    groupOrder: seq<string>, sampleOrder: seq<string>)
    returns (r: Result<Bundle>)
    requires IsOrderOf(groupOrder, SegGroups(Unique(ReferenceNames(df.rows))))
    requires IsOrderOf(sampleOrder, ReadSamples(readDf))
    ensures !SelectionComplete(machine, run, irma) ==> r == Err(PreventUpdate)
    ensures SelectionComplete(machine, run, irma) && |groupOrder| > |G10| ==> r == Err(IndexError)
    ensures (SelectionComplete(machine, run, irma) && |groupOrder| <= |G10|
             && "Coverage_Depth" !in df.columns && "Coverage Depth" !in df.columns) ==> r == Err(KeyError("Coverage Depth"))
    ensures (SelectionComplete(machine, run, irma) && |groupOrder| <= |G10|
             && CoverageHeader(df.columns) in df.columns && |df.rows| == 0) ==> r == Err(ValueError)
    ensures r.Ok? <==>
      && SelectionComplete(machine, run, irma) && |groupOrder| <= |G10|
      && CoverageHeader(df.columns) in df.columns && |df.rows| > 0
      && AllColored(Split(Join(Unique(ReferenceNames(df.rows)), ','), ','), groupOrder)
    ensures r.Ok? ==>
      var b := r.value;
      var names := Unique(ReferenceNames(df.rows));
      && Pivot4Heatmap(df) == Ok(b.df4) && b.df == df
      && b.covHeader == CoverageHeader(df.columns)
      && b.sliderMax == MaxMean(b.df4.rows)
      && b.segments == Join(names, ',') && b.segset == Join(groupOrder, ',')
      && b.segcolor.Keys == (set k | 0 <= k < |groupOrder| :: groupOrder[k])
      && (forall k :: 0 <= k < |groupOrder| ==> b.segcolor[groupOrder[k]] == G10[k])
      && b.allFig.rows == GridRows(|Unique(Samples(df.rows))|) && b.allFig.cols == 4
      && b.allFig.titles == Unique(Samples(df.rows))
      && b.allFig.height == PickTotalHeight(|Unique(Samples(df.rows))|) && !b.allFig.showLegend
      && b.allFig.traces == CoverageTraces(df, Unique(Samples(df.rows)), Split(b.segments, ','), b.segcolor,
                                           |Unique(Samples(df.rows))|)
      && b.readFig.rows == 24 && b.readFig.cols == 12
      && b.readFig.height == 3200 && !b.readFig.showLegend
      && b.readFig.traces == ReadTraces(readDf, sampleOrder, |sampleOrder|)
  {
    if machine == "" || run == "" || irma == "" {
      return Err(PreventUpdate);
    }
    var seg := ReturnSegData(df, groupOrder);
    if seg.Err? {
      return Err(seg.error);
    }
    var segments, segset, segcolor := seg.value.segments, seg.value.segset, seg.value.segcolor;
    assert forall g :: g in segcolor <==> g in groupOrder;
    PivotFails(df);
    var pivot := Pivot4Heatmap(df);
    if pivot.Err? {
      return Err(pivot.error);
    }
    assert CoverageHeader(df.columns) in df.columns;
    var df4 := pivot.value;
    HeatmapOfPivot(df);
    var covHeader := CoverageHeader(HeatColumns(df4));
    var sliderMax := MaxMean(df4.rows);
    SamplesPresent(df.rows);
    var allFig := CreateAllCoverageFig(df, Join(segments, ','), segcolor);
    ghost var names := Split(Join(segments, ','), ',');
    assert |df.rows| > 0 ==> (allFig.Ok? <==> AllColored(names, groupOrder)) by {
      if |df.rows| == 0 {
      } else if AllColored(names, groupOrder) {
        assert Colored(names, segcolor, |names|);
      } else {
        var b :| 0 <= b < |names| && Group(names[b]) !in groupOrder;
        assert Group(names[b]) !in segcolor;
      }
    }
    if allFig.Err? {
      return Err(allFig.error);
    }
    var readFig := CreateIrmaReadFig(readDf, sampleOrder);
    return Ok(Bundle(df, df4, covHeader, sliderMax, Join(segments, ','), Join(segset, ','), segcolor,
                     allFig.value, readFig));
  }

  /** A table has samples exactly when it has rows. */
  lemma SamplesPresent(rows: seq<CoverageRow>)
    ensures |Unique(Samples(rows))| > 0 <==> |rows| > 0
  {
    if |rows| > 0 {
      assert rows[0].sample in Samples(rows);
    }
  }

  /** When reference names hold no ',' and either all or none of them hold a
      '_', every colour the figure builders look up exists, so only the number
      of groups, the depth column and an empty table can stop `generate_df`. */
  lemma ColorsFoundForUniformNames(df: CoverageTable, groupOrder: seq<string>)
    requires IsOrderOf(groupOrder, SegGroups(Unique(ReferenceNames(df.rows))))
    requires |df.rows| > 0
    requires forall i :: 0 <= i < |df.rows| ==> ',' !in df.rows[i].referenceName
    requires (forall i :: 0 <= i < |df.rows| ==> '_' in df.rows[i].referenceName)
          || (forall i :: 0 <= i < |df.rows| ==> '_' !in df.rows[i].referenceName)
    ensures AllColored(Split(Join(Unique(ReferenceNames(df.rows)), ','), ','), groupOrder)
  {
    var names := Unique(ReferenceNames(df.rows));
    assert df.rows[0].referenceName in ReferenceNames(df.rows);
    forall k | 0 <= k < |names| ensures ',' !in names[k] && ('_' in names[k] || '_' !in df.rows[0].referenceName) {
      assert names[k] in ReferenceNames(df.rows);
    }
    SplitJoin(names, ',');
    forall b | 0 <= b < |names| ensures Group(names[b]) in groupOrder {
      GroupHasColor(names, groupOrder, names[b]);
    }
  }

  // ---------------------------------------------------------------------------
  // Drill-down clicks.

  /** What the coverage graph shows after a callback: the all-samples grid, the
      single-sample chart of one sample, or nothing (the callback returns None). */
  datatype View = AllSamples | OneSample(sample: string) | NoFigure

  /** The decision of `callback_coverage` and the new `previousClick`, given the
      old `previousClick`, the heatmap click's x (if any) and the back button's
      click count (if any). Without a heatmap click the grid is shown, and the
      recorded count changes only when the grid is shown. */
  function ClickView(previousClick: int, plotClick: Option<string>, buttonClick: Option<nat>): (r: (int, View))
    ensures plotClick.None? ==> r.1 == AllSamples
    ensures r.1 == AllSamples || r.0 == previousClick
  {
    var returnClick := if buttonClick.None? then 0 else buttonClick.value;
    if plotClick.None? || returnClick > previousClick then (returnClick, AllSamples)
    else if plotClick.value != "all" then (previousClick, OneSample(plotClick.value))
    else (previousClick, NoFigure)
  }

  /** The module globals `previousClick` and `returnClick`, which every viewer shares. */
  class ClickState {
    var previousClick: int
    var returnClick: int

    constructor ()
      ensures previousClick == 0 && returnClick == 0
    {
      previousClick, returnClick := 0, 0;
    }

    /** The click logic of the first `callback_coverage`. */
    method CallbackCoverage(plotClick: Option<string>, buttonClick: Option<nat>) returns (v: View)
      modifies this
      ensures returnClick == if buttonClick.None? then 0 else buttonClick.value
      ensures (previousClick, v) == ClickView(old(previousClick), plotClick, buttonClick)
      ensures plotClick.None? || returnClick > old(previousClick) ==> v == AllSamples && previousClick == returnClick
      ensures plotClick.Some? && returnClick <= old(previousClick) ==> previousClick == old(previousClick)
    {
      returnClick := if buttonClick.None? then 0 else buttonClick.value;
      if plotClick.None? || returnClick > previousClick {
        previousClick := returnClick;
        return AllSamples;
      } else if plotClick.value != "all" {
        return OneSample(plotClick.value);
      }
      return NoFigure;
    }
  }

  /** The three outcomes: a new back-button count (or no heatmap click) shows
      the grid and records the count; otherwise a clicked sample is shown
      without changing the state; a click on 'all' shows nothing. */
  lemma ClickViewCases(p: int, plotClick: Option<string>, buttonClick: Option<nat>)
    ensures var count := if buttonClick.None? then 0 else buttonClick.value;
      var (p', v) := ClickView(p, plotClick, buttonClick);
      && (v == AllSamples <==> plotClick.None? || count > p)
      && (v == AllSamples ==> p' == count)
      && (v != AllSamples ==> p' == p && plotClick.Some?)
      && (v.OneSample? <==> plotClick.Some? && count <= p && plotClick.value != "all")
      && (v.OneSample? ==> v.sample == plotClick.value)
  {
  }

  /** The back-button count is only acted on once: after any callback, a
      heatmap click that comes with the same count never falls back to the grid. */
  lemma StaleCountIgnored(p: int, plotClick: Option<string>, buttonClick: Option<nat>, x: string)
    ensures ClickView(ClickView(p, plotClick, buttonClick).0, Some(x), buttonClick).1 != AllSamples
  {
  }

  /** After any non-empty run of callbacks, the recorded count is either the
      initial one or the back-button count received by one of the callbacks. */
  lemma {:induction false} RecordedCountIsLastShown(p: int, clicks: seq<(Option<string>, Option<nat>)>)
    requires |clicks| > 0
    ensures var p' := Replay(p, clicks);
      p' == p || exists i :: 0 <= i < |clicks| && p' == (if clicks[i].1.None? then 0 else clicks[i].1.value)
  {
    var init := clicks[..|clicks| - 1];
    var last := clicks[|clicks| - 1];
    if |init| > 0 {
      RecordedCountIsLastShown(p, init);
      var q := Replay(p, init);
      if q != p {
        var i :| 0 <= i < |init| && q == (if init[i].1.None? then 0 else init[i].1.value);
        assert clicks[i] == init[i];
      }
    }
  }

  /** The state after a sequence of callbacks. */
  function Replay(p: int, clicks: seq<(Option<string>, Option<nat>)>): int
  {
    if |clicks| == 0 then p
    else ClickView(Replay(p, clicks[..|clicks| - 1]), clicks[|clicks| - 1].0, clicks[|clicks| - 1].1).0
  }
}
