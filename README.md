# iSpy coverage dashboard: a verified model of its data pipeline

iSpy is a Dash application (`app.py`) for looking at IRMA assembly results.
The user picks an instrument, a run and an IRMA output directory. From two
tables, the application then derives:

- the per-sample, per-reference mean coverage behind a heatmap;
- a colour for each segment group;
- a grid with one coverage chart per sample;
- a drill-down chart for one clicked sample;
- a 24 x 12 grid of read-classification pie charts.

The two input tables are per-position coverage rows and per-stage read counts.

This project models that pipeline in Dafny and proves properties of the model:

- `Strings`: Python's `str.split` and `str.join`, and pandas `unique`.
- `Tables`: the two input tables.
- `Segments`: `returnSegData` and the group of a reference name.
- `Coverage`: `pivot4heatmap`, the maximum used as the slider ceiling, and `createheatmap`.
- `Cycles`: `itertools.cycle` counters.
- `CoverageFigures`: `createAllCoverageFig`, `pick_total_height` and `createSampleCoverageFig`.
- `ReadFigure`: `create_irma_read_fig`.
- `App`: `generate_df` and the click logic of `callback_coverage`, as a class over the two module globals.

The loops of the source are methods with loop invariants. Each method is proved against a
specification function of its inputs. A Python exception becomes an `Err` of `Common.Result`:

- `KeyError(key)` for a missing column or a missing colour;
- `IndexError` when there are more than ten groups;
- `ValueError` when plotly is asked for a grid with zero rows;
- `PreventUpdate` for the incomplete-selection guard.

Some orders are left open rather than fixed. The order in which a Python `set` lists its elements is a
parameter, constrained only to list each distinct value once. pandas' `groupby` order is modelled as
sorting the keys by code point.

Behaviour of the code worth knowing:

- **Palette size.** The palette has ten colours. An eleventh group raises IndexError (`app.py:183-184`).
- **Colour order.** Colours follow the iteration order of a `set` (`app.py:181`).
- **Aggregation key.** Rows are aggregated per (Sample, Reference_Name) (`app.py:193`).
- **Thinning.** `iloc[::20]` keeps every 20th row of the whole table, before it is split by sample and
  name (`app.py:236`).
- **Read-grid height.** The read grid is always 3200 pixels high and always has 24 rows (`app.py:143`, `app.py:165`).
- **Grid placement.** The row and column cycles of the coverage grid advance independently.
  With five samples, the first and the fifth share a cell (`app.py:233-247`).
- **Mixed names.** Some names may have a '_' while others do not. Then `returnSegData` keys its colours
  by whole names, but the figure builders look up the second token and raise KeyError unless that token
  is itself one of the whole names (`app.py:177-180`, `app.py:249-259`).
- **Empty groups.** No empty group is ever averaged: every groupby key has at least one row.

## Model

| member | source | states |
|---|---|---|
| Strings.Split | app.py:248-252 | `str.split` always yields at least one piece and no piece holds the delimiter |
| Strings.Join | app.py:103 | the joined string starts with the first part and holds the delimiter once there are two or more parts; with Strings.JoinSplit and Strings.SplitJoin it is the inverse of `split` |
| Strings.SplitNoDelimiter | app.py:249-252 | a name without the delimiter splits into itself alone, so `[1]` raises IndexError |
| Strings.SplitHasSecond | app.py:177-180 | a second piece exists exactly when the delimiter occurs |
| Strings.SplitJoin | app.py:103 | joining the reference names with ',' and splitting again gives the names back when none holds a ',' |
| Strings.JoinSplit | app.py:248 | splitting a string on ',' and joining the pieces gives the string back |
| Strings.Unique | app.py:176 | `unique()` lists every value of the column exactly once and nothing else |
| Tables.CoverageHeader | app.py:98-101 | the depth column is `Coverage_Depth` exactly when present, else `Coverage Depth`; it exists iff either spelling does |
| Segments.GroupOfPlainName | app.py:249-252 | a name without '_' is its own group |
| Segments.GroupOfParts | app.py:250 | the group of `subtype_g...` is `g`, the text between the first two '_' |
| Segments.Group | app.py:249-252 | a name with a '_' never is its own group (its group is a '_'-free token); with GroupOfPlainName and GroupOfParts this is the per-name rule |
| Segments.SegGroups | app.py:177-180 | one group per distinct reference name |
| Segments.SegGroupsAllOrNothing | app.py:177-180 | all names have '_' ⇒ each group is the second token; one name without '_' ⇒ the groups are the whole names |
| Segments.ReturnSegData | app.py:175-185 | succeeds iff at most ten groups (else IndexError); returns the distinct names and the groups; colour keys are exactly the groups and group `k` gets `G10[k]` |
| Segments.G10Distinct | app.py:184 | the palette has ten distinct colours |
| Segments.ColorsDistinct | app.py:183-184 | distinct groups get distinct colours |
| Segments.GroupHasColor | app.py:248-259 | when all names have '_' (or the name has none) the group looked up by the figures is a coloured group |
| Segments.MixedNamesMissColor | app.py:177-180 | for names `A_HA` and `B` the groups are the whole names, while the figure looks up `HA`, which has no colour |
| Coverage.StrLessIrreflexive | app.py:193 | string order used by groupby is irreflexive |
| Coverage.StrLessTransitive | app.py:193 | string order used by groupby is transitive |
| Coverage.StrLessTotal | app.py:193 | string order used by groupby is total on distinct strings |
| Coverage.KeyLessIrreflexive | app.py:193 | (Sample, Reference_Name) order is irreflexive |
| Coverage.KeyLessTransitive | app.py:193 | (Sample, Reference_Name) order is transitive |
| Coverage.KeyLessTotal | app.py:193 | (Sample, Reference_Name) order is total on distinct keys |
| Coverage.InsertKeySorted | app.py:193 | adding a key keeps the key list sorted and adds exactly that key |
| Coverage.GroupKeys | app.py:193 | never more keys than rows, and a key exists iff the table has rows; GroupKeysExact gives their order and contents |
| Coverage.GroupKeysExact | app.py:193 | groupby keys are sorted and are exactly the pairs occurring in the table |
| Coverage.SortedDistinct | app.py:193 | sorted keys hold no duplicate |
| Coverage.DepthsOfPresent | app.py:193 | a key has depths exactly when some row carries it |
| Coverage.DepthsOf | app.py:193 | a key's depths are never more than the rows; DepthsOfPresent says when there are any |
| Coverage.KeyHasRows | app.py:193 | every groupby key has at least one row, so no mean is of an empty group |
| Coverage.Mean | app.py:193 | the mean times the group size is the sum of the depths |
| Coverage.MeanOfUniform | app.py:193 | a group whose depths are all `d` has mean `d` |
| Coverage.SplitWidthBound | app.py:195 | the expanded split has as many columns as the most pieces of any name, and some name reaches it |
| Coverage.PivotFails | app.py:187-192 | aggregation fails iff neither depth spelling exists, with KeyError on `Coverage Depth` |
| Coverage.Pivot4Heatmap | app.py:187-199 | KeyError("Coverage Depth") iff the depth column is missing; otherwise the resolved header and one row per groupby key |
| Coverage.SegmentOf | app.py:194-197 | the Segment is missing iff three columns are split and the name has no '_'; a split Segment holds no '_' |
| Coverage.PivotKeys | app.py:192-193 | aggregated keys are sorted, duplicate-free and exactly the present pairs |
| Coverage.PivotMeans | app.py:192-199 | one row per key, in key order, with its sample and the mean of that key's depths |
| Coverage.PivotSegments | app.py:194-198 | with three split columns Segment is the group (missing for names without '_'); otherwise the whole name |
| Coverage.TwoPieceNamesKeepWholeName | app.py:194-197 | names of exactly two pieces give a two-column split, so Segment falls back to the whole name |
| Coverage.MaxMean | app.py:102 | the maximum is absent iff the table is empty, is attained by a row, and bounds every row |
| Coverage.CreateHeatmap | app.py:201-223 | builds iff the header is a depth spelling; zmin 0; zmax is the ceiling given or else the maximum mean; one cell per row with its sample, segment and mean |
| Coverage.HeatmapOfPivot | app.py:96-102 | the aggregated table's depth column resolves to its own header, so its heatmap always builds |
| Coverage.UniformDepthCeiling | app.py:102 | uniform depth `d` gives every mean `d` and a default ceiling of `d` |
| Coverage.RowKeyPresent | app.py:193 | every row's key is a groupby key |
| Cycles.CycleStep | app.py:233-234 | one `next` on a cycle advances the position by one, wrapping to the start |
| CoverageFigures.ThinAt | app.py:236 | `iloc[::20]` keeps ceil(n/20) rows, the k-th being row 20k |
| CoverageFigures.Thin | app.py:236 | thinning keeps only rows of the table and always the first row |
| CoverageFigures.Select | app.py:253 | the selection holds exactly the rows with that sample and name |
| CoverageFigures.SelectSample | app.py:282 | exactly the rows of the given sample |
| CoverageFigures.SelectName | app.py:289 | exactly the rows of the given reference name |
| CoverageFigures.SelectSampleThenName | app.py:282-289 | filtering by sample then by name equals filtering by both |
| CoverageFigures.GridRows | app.py:232 | the row count is ceil(n/4) |
| CoverageFigures.PickTotalHeight | app.py:266-270 | height is 1200 iff at most 40 samples, else 2400 |
| CoverageFigures.CoverageCell | app.py:247 | every sample's cell lies inside the grid |
| CoverageFigures.CellStep | app.py:233-247 | sample `i` is placed in the cell the two cycles point at, and each cycle then moves on by one |
| CoverageFigures.AddSampleTraces | app.py:248-265 | one sample's traces: succeeds iff every name's group has a colour (else KeyError on a colourless group), giving one trace per name in the sample's cell |
| CoverageFigures.CreateAllCoverageFig | app.py:225-275 | no samples ⇒ ValueError; missing depth ⇒ KeyError; else succeeds iff every name's group has a colour; grid of ceil(n/4) x 4, titles the samples, tiered height, no legend, traces sample by sample and name by name |
| CoverageFigures.CoverageTracesLength | app.py:246-265 | the grid has one trace per (sample, name) |
| CoverageFigures.CoverageTraceAt | app.py:246-265 | trace `a*m+b` is sample `a`'s thinned rows of name `b`, in its cell and group colour |
| CoverageFigures.CreateSampleCoverageFig | app.py:277-304 | missing depth ⇒ KeyError; else succeeds iff every group has a colour (else KeyError on a colourless group); titled by the sample, 600 high, axes Coverage/Position, trace `b` is name `b`'s rows of that sample in its group's colour, tagged `all` |
| CoverageFigures.ThinnedTraceRows | app.py:236-253 | a row appears in a grid trace iff its index is a multiple of 20 and it has that sample and name |
| CoverageFigures.ThinnedWithinSample | app.py:236-253 | every row drawn in the grid is drawn in the single-sample chart |
| CoverageFigures.CoverageCellsInGrid | app.py:232-247 | no sample falls outside the grid |
| CoverageFigures.CoverageCellsCollide | app.py:232-247 | with five samples the first and fifth share cell (1,1) |
| CoverageFigures.CoverageCellsDistinctInOneRow | app.py:232-247 | up to four samples each get a cell of their own |
| ReadFigure.StageRows | app.py:160 | the slot holds exactly the sample's rows of the given stages |
| ReadFigure.ReadCell | app.py:149-158 | every slot's cell lies inside the 24 x 12 grid |
| ReadFigure.BandStep | app.py:149-155 | the row cycle advances on every fourth sample, so sample `i` lands in band `i / 4` |
| ReadFigure.ColumnStep | app.py:149-158 | the column cycle advances once per slot |
| ReadFigure.CreateIrmaReadFig | app.py:141-172 | a 24 x 12 grid, 3200 high, no legend, three pies per sample in set order |
| ReadFigure.ReadTraceAt | app.py:152-163 | trace `3a+b` is slot `b` of sample `a` |
| ReadFigure.ReadTracesLength | app.py:152-163 | there are three traces per sample |
| ReadFigure.ThreeTracesPerSample | app.py:152-163 | each sample of the table names exactly three consecutive traces |
| ReadFigure.SlotRows | app.py:157-160 | slots hold stage 2, stage 3, and stages 4 or 5 |
| ReadFigure.ReadCellLayout | app.py:149-158 | four samples share a row band; sample `a` fills columns 3(a mod 4)+1..+3 |
| ReadFigure.ReadCellsDistinct | app.py:149-158 | up to 96 samples no two slots share a cell |
| ReadFigure.ReadCellsWrap | app.py:149-155 | the 97th sample is drawn over the first |
| App.GenerateDf | app.py:89-114 | incomplete selection ⇒ PreventUpdate; over ten groups ⇒ IndexError; no depth column ⇒ KeyError; empty table ⇒ ValueError; succeeds iff additionally every name's group has a colour; the bundle holds the aggregation, its header, its maximum as slider ceiling, the joined names and groups, the colours; the grid figure's 4 columns, its rows, sample titles, height, hidden legend and traces; the read figure's 24 x 12 grid, 3200 height, hidden legend and traces |
| App.SamplesPresent | app.py:230 | the table has samples iff it has rows |
| App.ColorsFoundForUniformNames | app.py:95-103 | names without ',' that all have '_' (or none) always find their colour |
| App.ClickState.constructor | app.py:314 | both click counters start at 0 |
| App.ClickState.CallbackCoverage | app.py:320-334 | records the button count (0 when absent); no heatmap click or a new count shows the grid and records it; otherwise the state stays and the clicked sample (or nothing for `all`) is shown |
| App.ClickView | app.py:326-334 | without a heatmap click the grid is shown, and the recorded count changes only when the grid is shown |
| App.ClickViewCases | app.py:326-334 | the grid is shown iff no heatmap click or the count exceeds the recorded one; a sample is shown iff a heatmap click on a sample other than `all` with no new count |
| App.StaleCountIgnored | app.py:326-331 | after any callback, a heatmap click with the same button count never falls back to the grid |
| App.RecordedCountIsLastShown | app.py:326-331 | over any run of callbacks the recorded count is the initial one or one of the counts received |

## Left out

- File and directory I/O is left out: the YAML configuration, `os.listdir`, `glob`, and the `mean_coverages.tsv` written at `app.py:97`.
- `irma2dash` is not part of this model. The two tables it loads are inputs of `App.GenerateDf`.
- JSON serialisation of the bundle and of figures (`to_json`, `json.dumps`, `pio.from_json`) is left out. The bundle is a datatype.
- `illumina_demux_table` and its QC colour binning are not modelled. They are a separate callback reading an HTML report.
- Page layout, dropdown callbacks and the heatmap slider wiring are not modelled.
- Plotly presentation settings are not modelled: margins, spacing, colour scales, hover templates and axis sides.
- Coverage depths are natural numbers and means are exact reals. Floating-point rounding and pandas NaN are not modelled, except that an empty maximum is `None`.
- The second `callback_coverage` (`app.py:350-354`) is not modelled. It builds a figure and returns nothing, so its output is always empty.
- `App.ClickState.CallbackCoverage` returns which figure is shown, not the figure itself. The grid is the bundle's `allFig`. A sample's chart is `CreateSampleCoverageFig` with the bundle's table, names and colours.
- The module-global `segcolor` that `callback_coverage` reassigns is not modelled. No other code reads it.
- `stage_counter` in `create_irma_read_fig` is not modelled. It is counted but never read.
- `App.GenerateDf` requires the set-iteration orders as parameters. It does not model the interpreter's hash order.
- The zero-row `ValueError` of `make_subplots` is plotly's own argument validation. It is modelled as an error result.
