/** Segment classification and colour assignment: the group of a reference
    name and the palette entry each group receives (`returnSegData`). */
module Segments {
  import opened Common
  import opened Strings
  import opened Tables

  /** plotly's qualitative G10 palette, in its published order. */
  const G10: seq<string> := ["#3366CC", "#DC3912", "#FF9900", "#109618", "#990099",
                             "#0099C6", "#DD4477", "#66AA00", "#B82E2E", "#316395"]

  /** The group of one reference name as the figure builders compute it, name by
      name: the second '_'-token, or the whole name when `split('_')[1]` raises
      IndexError. A name with a '_' never is its own group. */
  function Group(name: string): (g: string)
    ensures '_' in name ==> '_' !in g
  {
    SplitHasSecond(name, '_');
    var tokens := Split(name, '_');
    if |tokens| >= 2 then tokens[1] else name
  }

  /** A name without '_' is its own group. */
  lemma GroupOfPlainName(name: string)
    requires '_' !in name
    ensures Group(name) == name
  {
    SplitNoDelimiter(name, '_');
  }

  /** In `subtype_group` or `subtype_group_rest...` the group is the text
      between the first and the second '_'. */
  lemma GroupOfParts(subtype: string, g: string, rest: string)
    requires '_' !in subtype && '_' !in g
    requires rest == [] || rest[0] == '_'
    ensures Group(subtype + "_" + g + rest) == g
  {
    var name := subtype + "_" + g + rest;
    assert name == subtype + ['_'] + (g + rest);
    SplitAtFirst(subtype, g + rest, '_');
    SplitPrefix(g, rest, '_');
    if rest == [] {
      assert Split(rest, '_')[0] == "";
    } else {
      assert rest == [rest[0]] + rest[1..];
      assert Split(rest, '_')[0] == "";
    }
    assert Split(name, '_')[1] == g + Split(rest, '_')[0];
  }

  /** The group list of `returnSegData` before de-duplication: each name's second
      token, unless one name has no second token, in which case the comprehension
      raises IndexError and the names themselves are kept. */
  function SegGroups(names: seq<string>): (groups: seq<string>)
    ensures |groups| == |names|
  {
    if forall k :: 0 <= k < |names| ==> |Split(names[k], '_')| >= 2
    then seq(|names|, k requires 0 <= k < |names| => Split(names[k], '_')[1])
    else names
  }

  /** The fallback is all or nothing: every group is the name's own group when
      every name has a '_', and every group is the unchanged name otherwise. */
  lemma SegGroupsAllOrNothing(names: seq<string>)
    ensures (forall k :: 0 <= k < |names| ==> '_' in names[k]) ==>
      forall k :: 0 <= k < |names| ==> SegGroups(names)[k] == Group(names[k])
    ensures (exists k :: 0 <= k < |names| && '_' !in names[k]) ==> SegGroups(names) == names
  {
    forall k | 0 <= k < |names| {
      SplitHasSecond(names[k], '_');
    }
  }

  /** The outputs of `returnSegData`: the distinct reference names, the distinct
      groups and the colour of each group. */
  datatype SegData = SegData(segments: seq<string>, segset: seq<string>, segcolor: map<string, string>)

  /** `returnSegData`. The order in which `list(set(...))` lists the groups is
      not specified by Python, so it is the parameter `order`: any duplicate-free
      listing of the groups. The colour loop indexes G10 directly and so raises
      IndexError at the eleventh group. */
  method ReturnSegData(t: CoverageTable, order: seq<string>) returns (r: Result<SegData>)
    requires IsOrderOf(order, SegGroups(Unique(ReferenceNames(t.rows))))
    ensures r.Ok? <==> |order| <= |G10|
    ensures r.Err? ==> r.error == IndexError
    ensures r.Ok? ==> r.value.segments == Unique(ReferenceNames(t.rows)) && r.value.segset == order
    ensures r.Ok? ==> r.value.segcolor.Keys == set k | 0 <= k < |order| :: order[k]
    ensures r.Ok? ==> forall k :: 0 <= k < |order| ==> r.value.segcolor[order[k]] == G10[k]
  {
    var segments := Unique(ReferenceNames(t.rows));
    var segset := order;
    var segcolor: map<string, string> := map[];
    var i := 0;
    while i < |segset|
      invariant 0 <= i <= |segset| && i <= |G10|
      invariant segcolor.Keys == set k | 0 <= k < i :: segset[k]
      invariant forall k :: 0 <= k < i ==> segcolor[segset[k]] == G10[k]
    {
      if i >= |G10| {
        return Err(IndexError);
      }
      segcolor := segcolor[segset[i] := G10[i]];
      i := i + 1;
    }
    return Ok(SegData(segments, segset, segcolor));
  }

  /** G10 lists ten different colours. */
  lemma G10Distinct()
    ensures |G10| == 10 && NoDuplicates(G10)
  {
  }

  /** Distinct groups get distinct colours. */
  lemma {:induction false} ColorsDistinct(order: seq<string>, segcolor: map<string, string>, a: string, b: string)
    requires NoDuplicates(order) && |order| <= |G10|
    requires forall k :: 0 <= k < |order| ==> order[k] in segcolor && segcolor[order[k]] == G10[k]
    requires a in order && b in order && a != b
    ensures segcolor[a] != segcolor[b]
  {
    G10Distinct();
    var i :| 0 <= i < |order| && order[i] == a;
    var j :| 0 <= j < |order| && order[j] == b;
    assert G10[i] != G10[j];
  }

  /** Every name whose group the figure builders look up has a colour when every
      name has a '_', and so does every name without a '_' in any case. */
  lemma GroupHasColor(names: seq<string>, order: seq<string>, name: string)
    requires IsOrderOf(order, SegGroups(names))
    requires name in names
    requires (forall k :: 0 <= k < |names| ==> '_' in names[k]) || '_' !in name
    ensures Group(name) in order
  {
    SegGroupsAllOrNothing(names);
    var k :| 0 <= k < |names| && names[k] == name;
    if forall j :: 0 <= j < |names| ==> '_' in names[j] {
      assert SegGroups(names)[k] == Group(name);
    } else {
      GroupOfPlainName(name);
      assert SegGroups(names) == names;
    }
  }

  /** With one name lacking '_' and another having it, the groups are the whole
      names, so the figure builders' lookup of the second name's token fails:
      ["A_HA", "B"] gives groups ["A_HA", "B"] but the builders look up "HA". */
  lemma MixedNamesMissColor()
    ensures SegGroups(["A_HA", "B"]) == ["A_HA", "B"]
    ensures Group("A_HA") == "HA" && "HA" !in SegGroups(["A_HA", "B"])
  {
    var names := ["A_HA", "B"];
    SegGroupsAllOrNothing(names);
    assert '_' !in names[1];
    GroupOfParts("A", "HA", "");
    assert "A" + "_" + "HA" + "" == "A_HA";
  }
}
