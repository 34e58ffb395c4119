/**
 * The WMS GetMap parameter rules of mapwms.c: how LAYERS switches layers
 * on and orders them, the BBOX, WIDTH/HEIGHT, BGCOLOR and STYLES checks,
 * the nested layer groups of the capabilities document and the choice of
 * the capabilities version.
 */
module Wms {
  import opened Wrappers
  import opened CStrings
  import opened CNumbers
  import opened MapString

  // ---------------------------------------------------------------------
  // Index selection
  // ---------------------------------------------------------------------

  /** The indices below `n` that satisfy `p`, in increasing order. */
  function Select(n: nat, p: nat -> bool): (r: seq<nat>)
    ensures forall k :: 0 <= k < |r| ==> r[k] < n && p(r[k])
  {
    if n == 0 then [] else Select(n - 1, p) + (if p(n - 1) then [n - 1] else [])
  }

  lemma {:induction false} SelectMembers(n: nat, p: nat -> bool, j: nat)
    ensures j in Select(n, p) <==> j < n && p(j)
  {
    if n > 0 {
      SelectMembers(n - 1, p, j);
    }
  }

  lemma {:induction false} SelectIncreasing(n: nat, p: nat -> bool)
    ensures forall a, b :: 0 <= a < b < |Select(n, p)| ==> Select(n, p)[a] < Select(n, p)[b]
  {
    if n > 0 {
      SelectIncreasing(n - 1, p);
    }
  }

  lemma {:induction false} SelectSame(n: nat, p: nat -> bool, q: nat -> bool)
    requires forall j :: 0 <= j < n ==> p(j) == q(j)
    ensures Select(n, p) == Select(n, q)
  {
    if n > 0 {
      SelectSame(n - 1, p, q);
    }
  }

  /** No index occurs twice. */
  predicate Distinct(s: seq<nat>) {
    forall a, b :: 0 <= a < b < |s| ==> s[a] != s[b]
  }

  lemma SelectDistinct(n: nat, p: nat -> bool)
    ensures Distinct(Select(n, p))
  {
    SelectIncreasing(n, p);
  }

  lemma DistinctAppend(x: seq<nat>, y: seq<nat>)
    requires Distinct(x) && Distinct(y)
    requires forall a, b :: 0 <= a < |x| && 0 <= b < |y| ==> x[a] != y[b]
    ensures Distinct(x + y)
  {
  }

  // ---------------------------------------------------------------------
  // LAYERS (msWMSLoadGetMapParams)
  // ---------------------------------------------------------------------

  datatype Status = Off | On | Default

  datatype Layer = Layer(name: Option<string>, group: Option<string>, status: Status)

  /**
   * A requested name selects a layer when it is, case-insensitively, the
   * layer's name, the map's name or the layer's group.
   */
  predicate Names(mapName: Option<string>, l: Layer, k: string) {
    || (l.name.Some? && EqualFold(l.name.value, k))
    || (mapName.Some? && EqualFold(mapName.value, k))
    || (l.group.Some? && EqualFold(l.group.value, k))
  }

  /** The layers one requested name selects, in map order. */
  function Hits(mapName: Option<string>, layers: seq<Layer>, k: string): seq<nat> {
    Select(|layers|, (j: nat) => j < |layers| && Names(mapName, layers[j], k))
  }

  /** Some requested name selects layer `j`. */
  predicate Requested(mapName: Option<string>, layers: seq<Layer>, names: seq<string>, j: nat)
    requires j < |layers|
  {
    exists k :: 0 <= k < |names| && Names(mapName, layers[j], names[k])
  }

  /** The DEFAULT layers, drawn first. */
  function Defaults(layers: seq<Layer>): seq<nat> {
    Select(|layers|, (j: nat) => j < |layers| && layers[j].status == Default)
  }

  /** The layers left OFF, placed after the requested ones. */
  function Unrequested(mapName: Option<string>, layers: seq<Layer>, names: seq<string>): seq<nat> {
    Select(|layers|, (j: nat) => j < |layers| && layers[j].status != Default && !Requested(mapName, layers, names, j))
  }

  /** As written: every hit of every requested name is appended, once per hit. */
  function Matched(mapName: Option<string>, layers: seq<Layer>, names: seq<string>): seq<nat>
    decreases |names|
  {
    if |names| == 0 then []
    else Matched(mapName, layers, names[..|names| - 1]) + Hits(mapName, layers, names[|names| - 1])
  }

  /** Intended: a layer is appended for its first hit only, and only when it is not DEFAULT. */
  function Placed(mapName: Option<string>, layers: seq<Layer>, names: seq<string>): seq<nat>
    decreases |names|
  {
    if |names| == 0 then []
    else
      var before := Placed(mapName, layers, names[..|names| - 1]);
      var k := names[|names| - 1];
      before + Select(|layers|, (j: nat) => j < |layers| && layers[j].status != Default && Names(mapName, layers[j], k) && j !in before)
  }

  /** The number of requested names that select nothing. */
  function Missing(mapName: Option<string>, layers: seq<Layer>, names: seq<string>): nat
    decreases |names|
  {
    if |names| == 0 then 0
    else
      Missing(mapName, layers, names[..|names| - 1])
      + (if |Hits(mapName, layers, names[|names| - 1])| == 0 then 1 else 0)
  }

  function StatusAfter(mapName: Option<string>, layers: seq<Layer>, names: seq<string>, j: nat): Status
    requires j < |layers|
  {
    if Requested(mapName, layers, names, j) then On
    else if layers[j].status == Default then Default
    else Off
  }

  /** What one LAYERS parameter leaves behind: statuses, drawing order and the two counters. */
  datatype Selection = Selection(statuses: seq<Status>, order: seq<nat>, valid: nat, invalid: nat)

  function Statuses(mapName: Option<string>, layers: seq<Layer>, names: seq<string>): (r: seq<Status>)
    ensures |r| == |layers|
  {
    seq(|layers|, j requires 0 <= j < |layers| => StatusAfter(mapName, layers, names, j))
  }

  /** The LAYERS loop as written. */
  function SelectLayersAsWritten(mapName: Option<string>, layers: seq<Layer>, value: string): (r: Selection)
    ensures |r.statuses| == |layers|
  {
    var names := Split(value, ',');
    var matched := Matched(mapName, layers, names);
    Selection(Statuses(mapName, layers, names),
              Defaults(layers) + matched + Unrequested(mapName, layers, names),
              |matched|, Missing(mapName, layers, names))
  }

  /** The LAYERS loop with each layer placed once. */
  function SelectLayers(mapName: Option<string>, layers: seq<Layer>, value: string): (r: Selection)
    ensures |r.statuses| == |layers|
  {
    var names := Split(value, ',');
    Selection(Statuses(mapName, layers, names),
              Defaults(layers) + Placed(mapName, layers, names) + Unrequested(mapName, layers, names),
              |Matched(mapName, layers, names)|, Missing(mapName, layers, names))
  }

  /** The request is refused (LayerNotDefined) after the parameter loop. */
  predicate LayersRefused(s: Selection) {
    s.valid == 0 || s.invalid > 0
  }

  lemma {:induction false} MatchedEmpty(mapName: Option<string>, layers: seq<Layer>, names: seq<string>)
    ensures |Matched(mapName, layers, names)| == 0 <==>
              forall k :: 0 <= k < |names| ==> |Hits(mapName, layers, names[k])| == 0
    decreases |names|
  {
    if |names| > 0 {
      var front := names[..|names| - 1];
      MatchedEmpty(mapName, layers, front);
      assert forall k :: 0 <= k < |front| ==> front[k] == names[k];
    }
  }

  lemma {:induction false} MissingCounts(mapName: Option<string>, layers: seq<Layer>, names: seq<string>)
    ensures Missing(mapName, layers, names) > 0 <==>
              exists k :: 0 <= k < |names| && |Hits(mapName, layers, names[k])| == 0
    decreases |names|
  {
    if |names| > 0 {
      var front := names[..|names| - 1];
      MissingCounts(mapName, layers, front);
      assert forall k :: 0 <= k < |front| ==> front[k] == names[k];
    }
  }

  lemma RefusedByNames(mapName: Option<string>, layers: seq<Layer>, names: seq<string>)
    requires |names| >= 1
    ensures (|Matched(mapName, layers, names)| == 0 || Missing(mapName, layers, names) > 0) <==>
              exists k :: 0 <= k < |names| && |Hits(mapName, layers, names[k])| == 0
  {
    MatchedEmpty(mapName, layers, names);
    MissingCounts(mapName, layers, names);
    if |Matched(mapName, layers, names)| == 0 {
      assert |Hits(mapName, layers, names[0])| == 0;
    }
  }

  /** The request is refused exactly when some requested name selects no layer. */
  lemma LayersRefusedExactly(mapName: Option<string>, layers: seq<Layer>, value: string)
    ensures LayersRefused(SelectLayersAsWritten(mapName, layers, value)) <==>
              exists k :: 0 <= k < |Split(value, ',')| && |Hits(mapName, layers, Split(value, ',')[k])| == 0
  {
    RefusedByNames(mapName, layers, Split(value, ','));
    assert SelectLayersAsWritten(mapName, layers, value).valid == |Matched(mapName, layers, Split(value, ','))|;
    assert SelectLayersAsWritten(mapName, layers, value).invalid == Missing(mapName, layers, Split(value, ','));
    assert |Split(value, ',')| >= 1;
  }

  /** A layer is switched on exactly when some requested name selects it. */
  lemma StatusesFollowRequest(mapName: Option<string>, layers: seq<Layer>, value: string, j: nat)
    requires j < |layers|
    ensures SelectLayers(mapName, layers, value).statuses[j] == On <==>
              exists k :: 0 <= k < |Split(value, ',')| && j in Hits(mapName, layers, Split(value, ',')[k])
    ensures SelectLayers(mapName, layers, value).statuses[j] == Default <==>
              layers[j].status == Default && !Requested(mapName, layers, Split(value, ','), j)
  {
    var names := Split(value, ',');
    forall k | 0 <= k < |names|
      ensures j in Hits(mapName, layers, names[k]) <==> Names(mapName, layers[j], names[k])
    {
      SelectMembers(|layers|, (j: nat) => j < |layers| && Names(mapName, layers[j], names[k]), j);
    }
  }

  lemma {:induction false} PlacedMembers(mapName: Option<string>, layers: seq<Layer>, names: seq<string>, j: nat)
    requires j < |layers|
    ensures j in Placed(mapName, layers, names) <==>
              layers[j].status != Default && Requested(mapName, layers, names, j)
    decreases |names|
  {
    if |names| > 0 {
      var front := names[..|names| - 1];
      var before := Placed(mapName, layers, front);
      var k := names[|names| - 1];
      PlacedMembers(mapName, layers, front, j);
      SelectMembers(|layers|, (j: nat) => j < |layers| && layers[j].status != Default && Names(mapName, layers[j], k) && j !in before, j);
      assert forall i :: 0 <= i < |front| ==> front[i] == names[i];
      if Requested(mapName, layers, names, j) && !Requested(mapName, layers, front, j) {
        var i :| 0 <= i < |names| && Names(mapName, layers[j], names[i]);
        assert i == |names| - 1;
      }
    }
  }

  lemma {:induction false} PlacedDistinct(mapName: Option<string>, layers: seq<Layer>, names: seq<string>)
    ensures Distinct(Placed(mapName, layers, names))
    ensures forall a :: 0 <= a < |Placed(mapName, layers, names)| ==> Placed(mapName, layers, names)[a] < |layers|
    decreases |names|
  {
    if |names| > 0 {
      var front := names[..|names| - 1];
      var before := Placed(mapName, layers, front);
      var k := names[|names| - 1];
      var p := (j: nat) => j < |layers| && layers[j].status != Default && Names(mapName, layers[j], k) && j !in before;
      PlacedDistinct(mapName, layers, front);
      SelectDistinct(|layers|, p);
      DistinctAppend(before, Select(|layers|, p));
    }
  }

  /**
   * With each layer placed once, the drawing order is a permutation of the
   * map's layers: every layer occurs, exactly once.
   */
  lemma SelectLayersPermutes(mapName: Option<string>, layers: seq<Layer>, value: string)
    ensures Distinct(SelectLayers(mapName, layers, value).order)
    ensures forall j :: 0 <= j < |layers| ==> j in SelectLayers(mapName, layers, value).order
    ensures forall a :: 0 <= a < |SelectLayers(mapName, layers, value).order| ==>
              SelectLayers(mapName, layers, value).order[a] < |layers|
  {
    var names := Split(value, ',');
    var d := Defaults(layers);
    var pl := Placed(mapName, layers, names);
    var u := Unrequested(mapName, layers, names);
    var pd := (j: nat) => j < |layers| && layers[j].status == Default;
    var pu := (j: nat) => j < |layers| && layers[j].status != Default && !Requested(mapName, layers, names, j);
    SelectDistinct(|layers|, pd);
    SelectDistinct(|layers|, pu);
    PlacedDistinct(mapName, layers, names);
    assert forall a :: 0 <= a < |pl| ==> layers[pl[a]].status != Default && Requested(mapName, layers, names, pl[a]) by {
      forall a | 0 <= a < |pl|
        ensures layers[pl[a]].status != Default && Requested(mapName, layers, names, pl[a])
      {
        PlacedMembers(mapName, layers, names, pl[a]);
      }
    }
    DistinctAppend(d, pl);
    DistinctAppend(d + pl, u);
    forall j | 0 <= j < |layers|
      ensures j in d + pl + u
    {
      SelectMembers(|layers|, pd, j);
      SelectMembers(|layers|, pu, j);
      PlacedMembers(mapName, layers, names, j);
    }
  }

  /** No requested name selects a DEFAULT layer. */
  predicate NoDefaultNamed(mapName: Option<string>, layers: seq<Layer>, names: seq<string>) {
    forall j, k :: 0 <= j < |layers| && 0 <= k < |names| && Names(mapName, layers[j], names[k]) ==>
      layers[j].status != Default
  }

  /** No layer is selected by two requested names. */
  predicate NamedOnce(mapName: Option<string>, layers: seq<Layer>, names: seq<string>) {
    forall j, k1, k2 ::
      (0 <= j < |layers| && 0 <= k1 < |names| && 0 <= k2 < |names| &&
       Names(mapName, layers[j], names[k1]) && Names(mapName, layers[j], names[k2])) ==> k1 == k2
  }

  lemma {:induction false} MatchedIsPlaced(mapName: Option<string>, layers: seq<Layer>, names: seq<string>)
    requires NoDefaultNamed(mapName, layers, names) && NamedOnce(mapName, layers, names)
    ensures Matched(mapName, layers, names) == Placed(mapName, layers, names)
    decreases |names|
  {
    if |names| > 0 {
      var front := names[..|names| - 1];
      var before := Placed(mapName, layers, front);
      var k := names[|names| - 1];
      assert forall i :: 0 <= i < |front| ==> front[i] == names[i];
      MatchedIsPlaced(mapName, layers, front);
      forall j | 0 <= j < |layers| && Names(mapName, layers[j], k)
        ensures layers[j].status != Default && j !in before
      {
        PlacedMembers(mapName, layers, front, j);
        assert !Requested(mapName, layers, front, j) by {
          forall i | 0 <= i < |front|
            ensures !Names(mapName, layers[j], front[i])
          {
            assert front[i] == names[i];
          }
        }
      }
      SelectSame(|layers|, (j: nat) => j < |layers| && Names(mapName, layers[j], k),
                           (j: nat) => j < |layers| && layers[j].status != Default && Names(mapName, layers[j], k) && j !in before);
    }
  }

  /**
   * When no DEFAULT layer is requested and no layer is requested twice,
   * the loop as written gives the intended order.
   */
  lemma SelectLayersAsWrittenAgrees(mapName: Option<string>, layers: seq<Layer>, value: string)
    requires NoDefaultNamed(mapName, layers, Split(value, ','))
    requires NamedOnce(mapName, layers, Split(value, ','))
    ensures SelectLayersAsWritten(mapName, layers, value) == SelectLayers(mapName, layers, value)
  {
    MatchedIsPlaced(mapName, layers, Split(value, ','));
  }

  /**
   * Requesting a DEFAULT layer by name puts it in the order twice, once as
   * DEFAULT and once as requested, so the order holds more entries than the
   * map has layers.
   */
  lemma SelectLayersAsWrittenRepeats()
    ensures SelectLayersAsWritten(None, [Layer(Some("a"), None, Default)], "a").order == [0, 0]
    ensures SelectLayers(None, [Layer(Some("a"), None, Default)], "a").order == [0]
  {
    var layers := [Layer(Some("a"), None, Default)];
    assert Split("a", ',') == ["a"] by {
      assert IndexOfChar("a", ',').None?;
    }
    assert Names(None, layers[0], "a") by {
      LowerAllAt("a");
    }
    assert Defaults(layers) == [0];
    assert Hits(None, layers, "a") == [0];
    assert Matched(None, layers, ["a"]) == [0] by {
      assert ["a"][..0] == [];
    }
    assert Placed(None, layers, ["a"]) == [] by {
      assert ["a"][..0] == [];
    }
    assert Requested(None, layers, ["a"], 0) by {
      assert Names(None, layers[0], ["a"][0]);
    }
    assert Unrequested(None, layers, ["a"]) == [];
  }

  /** `Select` over two indices. */
  lemma SelectTwo(p: nat -> bool)
    ensures Select(2, p) == (if p(0) then [0] else []) + (if p(1) then [1] else [])
  {
    assert Select(1, p) == Select(0, p) + (if p(0) then [0] else []);
  }

  /** Two names, each selecting the layer at its own position, request both layers. */
  lemma BothRequested(layers: seq<Layer>, x: string, y: string)
    requires |layers| == 2 && Names(None, layers[0], x) && Names(None, layers[1], y)
    ensures Requested(None, layers, [x, y], 0) && Requested(None, layers, [x, y], 1)
  {
    assert [x, y][0] == x && [x, y][1] == y;
  }

  /** When every layer is requested or DEFAULT, none is left off. */
  lemma UnrequestedNone(mapName: Option<string>, layers: seq<Layer>, names: seq<string>)
    requires forall j :: 0 <= j < |layers| ==> layers[j].status == Default || Requested(mapName, layers, names, j)
    ensures Unrequested(mapName, layers, names) == []
  {
    var u := Unrequested(mapName, layers, names);
    var pu := (j: nat) => j < |layers| && layers[j].status != Default && !Requested(mapName, layers, names, j);
    SelectNone(|layers|, pu);
  }

  /** `Select` of a predicate no index below `n` satisfies is empty. */
  lemma {:induction false} SelectNone(n: nat, p: nat -> bool)
    requires forall j: nat :: j < n ==> !p(j)
    ensures Select(n, p) == []
  {
    if n > 0 {
      SelectNone(n - 1, p);
    }
  }

  /** Two requested names: the hits of the first, then those of the second. */
  lemma MatchedTwo(mapName: Option<string>, layers: seq<Layer>, x: string, y: string)
    ensures Matched(mapName, layers, [x, y]) == Hits(mapName, layers, x) + Hits(mapName, layers, y)
  {
    assert [x, y][..1] == [x];
    assert [x][..0] == [];
    calc {
      Matched(mapName, layers, [x, y]);
      Matched(mapName, layers, [x]) + Hits(mapName, layers, y);
      Matched(mapName, layers, []) + Hits(mapName, layers, x) + Hits(mapName, layers, y);
    }
  }

  /** Over two layers, a name hits each layer it names, in layer order. */
  lemma HitsTwo(layers: seq<Layer>, k: string)
    requires |layers| == 2
    ensures Hits(None, layers, k) ==
              (if Names(None, layers[0], k) then [0] else []) + (if Names(None, layers[1], k) then [1] else [])
  {
    SelectTwo((j: nat) => j < |layers| && Names(None, layers[j], k));
  }

  /** Over two layers, the DEFAULT ones in layer order. */
  lemma DefaultsTwo(layers: seq<Layer>)
    requires |layers| == 2
    ensures Defaults(layers) ==
              (if layers[0].status == Default then [0] else []) + (if layers[1].status == Default then [1] else [])
  {
    SelectTwo((j: nat) => j < |layers| && layers[j].status == Default);
  }

  /** Two layers, the first DEFAULT, and two names each selecting just one of them, in layer order. */
  lemma TwoNamesTwoLayers(layers: seq<Layer>, x: string, y: string)
    requires |layers| == 2 && layers[0].status == Default && layers[1].status != Default
    requires Names(None, layers[0], x) && !Names(None, layers[1], x)
    requires Names(None, layers[1], y) && !Names(None, layers[0], y)
    ensures Defaults(layers) == [0]
    ensures Matched(None, layers, [x, y]) == [0, 1]
    ensures Unrequested(None, layers, [x, y]) == []
  {
    DefaultsTwo(layers);
    HitsTwo(layers, x);
    HitsTwo(layers, y);
    MatchedTwo(None, layers, x, y);
    BothRequested(layers, x, y);
    UnrequestedNone(None, layers, [x, y]);
  }

  /**
   * In that case the DEFAULT layer is put in the order twice as written,
   * ahead of the requested one, and both layers end up ON.
   */
  lemma TwoNamesAsWritten(layers: seq<Layer>, value: string, x: string, y: string)
    requires Split(value, ',') == [x, y]
    requires |layers| == 2 && layers[0].status == Default && layers[1].status != Default
    requires Names(None, layers[0], x) && !Names(None, layers[1], x)
    requires Names(None, layers[1], y) && !Names(None, layers[0], y)
    ensures SelectLayersAsWritten(None, layers, value).order == [0, 0, 1]
    ensures SelectLayersAsWritten(None, layers, value).statuses == [On, On]
  {
    AsWrittenParts(None, layers, value);
    TwoNamesTwoLayers(layers, x, y);
    TwoNamesOn(layers, x, y);
    assert [0] + [0, 1] + [] == [0, 0, 1];
  }

  /** The parts of one LAYERS pass as written. */
  lemma AsWrittenParts(mapName: Option<string>, layers: seq<Layer>, value: string)
    ensures var names := Split(value, ',');
      && SelectLayersAsWritten(mapName, layers, value).order ==
           Defaults(layers) + Matched(mapName, layers, names) + Unrequested(mapName, layers, names)
      && SelectLayersAsWritten(mapName, layers, value).statuses == Statuses(mapName, layers, names)
  {
  }

  /** Both layers, each selected by its own name, are switched on. */
  lemma TwoNamesOn(layers: seq<Layer>, x: string, y: string)
    requires |layers| == 2 && Names(None, layers[0], x) && Names(None, layers[1], y)
    ensures Statuses(None, layers, [x, y]) == [On, On]
  {
    BothRequested(layers, x, y);
  }

  /**
   * So the first two entries of the order, the ones drawn for the two
   * layers, never name the requested layer 1; placed once, it is drawn.
   */
  lemma TwoNamesCrowdOut(layers: seq<Layer>, value: string, x: string, y: string)
    requires Split(value, ',') == [x, y]
    requires |layers| == 2 && layers[0].status == Default && layers[1].status != Default
    requires Names(None, layers[0], x) && !Names(None, layers[1], x)
    requires Names(None, layers[1], y) && !Names(None, layers[0], y)
    ensures SelectLayersAsWritten(None, layers, value).order == [0, 0, 1]
    ensures 1 !in SelectLayersAsWritten(None, layers, value).order[..|layers|]
    ensures SelectLayersAsWritten(None, layers, value).statuses == [On, On]
    ensures 1 in SelectLayers(None, layers, value).order && Distinct(SelectLayers(None, layers, value).order)
  {
    TwoNamesAsWritten(layers, value, x, y);
    PlacesEveryLayerOnce(layers, value);
    assert [0, 0, 1][..2] == [0, 0];
  }

  lemma SplitAB()
    ensures Split("a,b", ',') == ["a", "b"]
  {
    assert IndexOfChar("a,b", ',') == Some(1);
    assert "a,b"[..1] == "a";
    assert DropRun("a,b"[1..], ',') == "b" by {
      assert "a,b"[1..] == ",b";
    }
    assert IndexOfChar("b", ',').None?;
  }

  lemma NamesAB()
    ensures Names(None, Layer(Some("a"), None, Default), "a") && !Names(None, Layer(Some("b"), None, Off), "a")
    ensures Names(None, Layer(Some("b"), None, Off), "b") && !Names(None, Layer(Some("a"), None, Default), "b")
  {
    LowerAllAt("a");
    LowerAllAt("b");
  }

  /**
   * The repeat keeps a requested layer from being drawn: with `a` DEFAULT
   * and `b` OFF, LAYERS=a,b gives the order [0, 0, 1] as written, so the
   * first two entries, the ones drawn for the two layers, never name `b`;
   * with each layer placed once, `b` is in the order and nothing repeats.
   */
  lemma SelectLayersAsWrittenCrowdsOut()
    ensures var layers := [Layer(Some("a"), None, Default), Layer(Some("b"), None, Off)];
      var w := SelectLayersAsWritten(None, layers, "a,b");
      && w.order == [0, 0, 1] && 1 !in w.order[..|layers|]
      && w.statuses == [On, On]
      && 1 in SelectLayers(None, layers, "a,b").order && Distinct(SelectLayers(None, layers, "a,b").order)
  {
    var layers := [Layer(Some("a"), None, Default), Layer(Some("b"), None, Off)];
    SplitAB();
    NamesAB();
    TwoNamesCrowdOut(layers, "a,b", "a", "b");
  }

  /** With each layer placed once, layer 1 is in the order and nothing repeats. */
  lemma PlacesEveryLayerOnce(layers: seq<Layer>, value: string)
    requires |layers| == 2
    ensures 1 in SelectLayers(None, layers, value).order && Distinct(SelectLayers(None, layers, value).order)
  {
    SelectLayersPermutes(None, layers, value);
  }

  // ---------------------------------------------------------------------
  // BBOX, WIDTH/HEIGHT, BGCOLOR
  // ---------------------------------------------------------------------

  datatype Extent = Extent(minx: real, miny: real, maxx: real, maxy: real)

  datatype GetMapError =
    | BboxArgumentCount
    | BboxValues
    | ImageSizeOutOfRange
    | StyleNotDefined
    | LayerNotDefined

  /** `atof` */
  function Atof(s: string): real {
    Strtod(s).value
  }

  /** BBOX=minx,miny,maxx,maxy: four numbers, minimum strictly below maximum on both axes. */
  function ParseBbox(value: string): (r: Result<Extent, GetMapError>)
    ensures r.Success? ==> r.value.minx < r.value.maxx && r.value.miny < r.value.maxy
    ensures |Split(value, ',')| != 4 ==> r == Failure(BboxArgumentCount)
  {
    var t := Split(value, ',');
    if |t| != 4 then Failure(BboxArgumentCount)
    else
      var e := Extent(Atof(t[0]), Atof(t[1]), Atof(t[2]), Atof(t[3]));
      if e.minx >= e.maxx || e.miny >= e.maxy then Failure(BboxValues) else Success(e)
  }

  /** The BBOX text of four integer coordinates. */
  function BboxText(minx: int, miny: int, maxx: int, maxy: int): string {
    JoinWith([IntToDecimal(minx), IntToDecimal(miny), IntToDecimal(maxx), IntToDecimal(maxy)], ",")
  }

  lemma DecimalHasNoComma(n: int)
    ensures ',' !in IntToDecimal(n)
  {
    var s := IntToDecimal(n);
    forall i | 0 <= i < |s|
      ensures s[i] != ','
    {
      if n >= 0 || i > 0 {
        assert IsDigit(s[i]);
      }
    }
  }

  lemma BboxTextSplits(minx: int, miny: int, maxx: int, maxy: int)
    ensures Split(BboxText(minx, miny, maxx, maxy), ',') ==
              [IntToDecimal(minx), IntToDecimal(miny), IntToDecimal(maxx), IntToDecimal(maxy)]
  {
    var a := [IntToDecimal(minx), IntToDecimal(miny), IntToDecimal(maxx), IntToDecimal(maxy)];
    DecimalHasNoComma(minx);
    DecimalHasNoComma(miny);
    DecimalHasNoComma(maxx);
    DecimalHasNoComma(maxy);
    SplitJoin(a, ',');
  }

  /** A BBOX written from integers reads back exactly, and is refused exactly when it is not ordered. */
  lemma BboxRoundTrip(minx: int, miny: int, maxx: int, maxy: int)
    ensures minx < maxx && miny < maxy ==>
              ParseBbox(BboxText(minx, miny, maxx, maxy)) == Success(Extent(minx as real, miny as real, maxx as real, maxy as real))
    ensures !(minx < maxx && miny < maxy) ==>
              ParseBbox(BboxText(minx, miny, maxx, maxy)) == Failure(BboxValues)
  {
    BboxTextSplits(minx, miny, maxx, maxy);
    StrtodOfDecimal(minx);
    StrtodOfDecimal(miny);
    StrtodOfDecimal(maxx);
    StrtodOfDecimal(maxy);
  }

  /** The size check after the parameter loop; a refused size is reset to 400 by 300. */
  datatype Size = Size(width: int, height: int)

  function CheckSize(s: Size, maxsize: int): (r: Result<Size, (GetMapError, Size)>)
    ensures r.Success? <==> 1 <= s.width <= maxsize && 1 <= s.height <= maxsize
    ensures r.Success? ==> r.value == s
    ensures r.Failure? ==> r.error == (ImageSizeOutOfRange, Size(400, 300))
  {
    if s.width > maxsize || s.height > maxsize || s.width < 1 || s.height < 1 then
      Failure((ImageSizeOutOfRange, Size(400, 300)))
    else Success(s)
  }

  /** WIDTH and HEIGHT are read with `atoi`; sizes written in decimal within bounds are kept. */
  lemma SizeFromText(width: int, height: int, maxsize: int)
    ensures CheckSize(Size(Atoi(IntToDecimal(width)), Atoi(IntToDecimal(height))), maxsize).Success? <==>
              1 <= width <= maxsize && 1 <= height <= maxsize
  {
    AtoiOfDecimal(width);
    AtoiOfDecimal(height);
  }

  datatype Color = Color(red: int, green: int, blue: int)

  /** The three 8-bit components of a `long`, as `(c/0x10000)&0xff`, `(c/0x100)&0xff`, `c&0xff`. */
  function Components(c: int): (r: Color)
    ensures 0 <= r.red < 256 && 0 <= r.green < 256 && 0 <= r.blue < 256
  {
    Color(Quot(c, 0x10000) % 256, Quot(c, 0x100) % 256, c % 256)
  }

  /** BGCOLOR is read as a base-16 `strtol` (a leading `0x` is allowed). */
  function BgColor(value: string): (r: Color)
    ensures 0 <= r.red < 256 && 0 <= r.green < 256 && 0 <= r.blue < 256
  {
    Components(Strtol(value, 16).value)
  }

  /** The components of a packed RGB value give it back. */
  lemma ComponentsPack(c: int)
    requires 0 <= c < 0x1000000
    ensures Components(c).red * 0x10000 + Components(c).green * 0x100 + Components(c).blue == c
  {
    var b, q := c % 256, c / 256;
    var g, h := q % 256, q / 256;
    assert c == q * 256 + b;
    assert q == h * 256 + g;
    assert c == h * 0x10000 + (g * 256 + b);
    assert 0 <= g * 256 + b < 0x10000;
    assert c / 0x10000 == h;
    assert h < 256;
  }

  /** Packing three components and taking it apart again is the identity. */
  lemma ComponentsRoundTrip(red: int, green: int, blue: int)
    requires 0 <= red < 256 && 0 <= green < 256 && 0 <= blue < 256
    ensures Components(red * 0x10000 + green * 0x100 + blue) == Color(red, green, blue)
  {
    var c := red * 0x10000 + green * 0x100 + blue;
    assert c / 0x10000 == red;
    assert c / 0x100 == red * 0x100 + green;
    assert (red * 0x100 + green) % 256 == green;
    assert c % 256 == blue;
  }

  // ---------------------------------------------------------------------
  // STYLES
  // ---------------------------------------------------------------------

  /** Only the empty style and `default` (any case) are supported. */
  predicate DefaultStyle(t: string) {
    |t| == 0 || EqualFold(t, "default")
  }

  predicate DefaultStyles(ts: seq<string>) {
    forall k :: 0 <= k < |ts| ==> DefaultStyle(ts[k])
  }

  function FirstBadStyle(ts: seq<string>, i: nat): (r: Option<nat>)
    requires i <= |ts|
    ensures r.Some? ==> i <= r.value < |ts| && !DefaultStyle(ts[r.value])
    ensures r.None? <==> forall k :: i <= k < |ts| ==> DefaultStyle(ts[k])
    decreases |ts| - i
  {
    if i == |ts| then None
    else if !DefaultStyle(ts[i]) then Some(i)
    else FirstBadStyle(ts, i + 1)
  }

  /** The STYLES check: when given and non-empty, every comma-separated style must be a default one. */
  function CheckStyles(styles: Option<string>): (r: Result<(), GetMapError>)
    ensures r.Failure? ==> r.error == StyleNotDefined
  {
    if styles.None? || |styles.value| == 0 then Success(())
    else if FirstBadStyle(Split(styles.value, ','), 0).Some? then Failure(StyleNotDefined)
    else Success(())
  }

  lemma StylesAccepted(styles: string)
    ensures CheckStyles(Some(styles)).Success? <==>
              DefaultStyles(Split(styles, ','))
  {
    var ts := Split(styles, ',');
    if |styles| == 0 {
      assert IndexOfChar(styles, ',').None?;
      assert ts == [styles];
      assert DefaultStyle(ts[0]);
    } else {
      assert CheckStyles(Some(styles)).Success? <==> FirstBadStyle(ts, 0).None?;
      assert FirstBadStyle(ts, 0).None? <==> DefaultStyles(ts);
    }
  }

  /** `STYLES=default,...,default` is accepted for any number of layers. */
  lemma DefaultStylesAccepted(n: nat)
    requires n >= 1
    ensures CheckStyles(Some(JoinWith(seq(n, _ => "default"), ","))).Success?
  {
    var a := seq(n, _ => "default");
    var d := "default";
    assert DefaultStyle(d) by {
      LowerAllAt(d);
    }
    assert forall k :: 0 <= k < |a| ==> ',' !in a[k] by {
      assert ',' !in d;
    }
    SplitJoin(a, ',');
    StylesAccepted(JoinWith(a, ","));
  }

  // ---------------------------------------------------------------------
  // Nested layer groups (msWMSPrepareNestedGroups, msWMSIsSubGroup)
  // ---------------------------------------------------------------------

  datatype NestError = GroupAndLayerGroup | NoLeadingSlash

  /**
   * The nested groups of one layer from its GROUP and its "layer_group"
   * metadata: none when the metadata is absent or empty; an error when
   * both are set or the metadata does not start with `/`; otherwise the
   * `/`-separated path after the leading slash.
   */
  function NestedGroups(group: Option<string>, layerGroup: Option<string>): (r: Result<seq<string>, NestError>)
    ensures r.Success? && |r.value| > 0 ==> layerGroup.Some? && |layerGroup.value| > 0 && layerGroup.value[0] == '/'
    ensures r.Failure? ==> layerGroup.Some? && |layerGroup.value| > 0
  {
    if layerGroup.None? || |layerGroup.value| == 0 then Success([])
    else if group.Some? && |group.value| != 0 then Failure(GroupAndLayerGroup)
    else if layerGroup.value[0] != '/' then Failure(NoLeadingSlash)
    else Success(Split(layerGroup.value[1..], '/'))
  }

  /** A group path written as `/a/b/c` reads back as its components. */
  lemma NestedGroupsRoundTrip(group: Option<string>, path: seq<string>)
    requires group.None? || |group.value| == 0
    requires |path| >= 1
    requires forall k :: 0 <= k < |path| ==> |path[k]| > 0 && '/' !in path[k]
    ensures NestedGroups(group, Some("/" + JoinWith(path, "/"))) == Success(path)
  {
    var text := "/" + JoinWith(path, "/");
    assert text[1..] == JoinWith(path, "/");
    SplitJoin(path, '/');
  }

  /** A layer with both a GROUP and a "layer_group" gets no nested groups. */
  lemma NestedGroupsConflict(group: string, layerGroup: string)
    requires |group| > 0 && |layerGroup| > 0
    ensures NestedGroups(Some(group), Some(layerGroup)) == Failure(GroupAndLayerGroup)
  {
  }

  /** strncmp(cur, other, strlen(cur)) == 0 */
  predicate GroupPrefix(cur: string, other: string) {
    StartsWith(other, cur)
  }

  /** The comparison loop as written, from index `i`; `None` is a read past the end of `other`. */
  function SubGroupFrom(cur: seq<string>, level: nat, other: seq<string>, i: nat): (r: Option<bool>)
    requires level < |cur|
    requires i <= level + 1
    decreases level + 1 - i
  {
    if i > level then Some(true)
    else if i >= |other| then None
    else if !GroupPrefix(cur[i], other[i]) then Some(false)
    else SubGroupFrom(cur, level, other, i + 1)
  }

  /** msWMSIsSubGroup as written: the guard lets `|other| == level` through. */
  function IsSubGroupAsWritten(cur: seq<string>, level: nat, other: seq<string>): (r: Option<bool>)
    requires level < |cur|
  {
    if |other| == 0 || |other| < level then Some(false)
    else SubGroupFrom(cur, level, other, 0)
  }

  /**
   * The intended test: `other` has a group at every level up to `level`,
   * and each of those starts with the current group at that level.
   */
  function IsSubGroup(cur: seq<string>, level: nat, other: seq<string>): (r: bool)
    requires level < |cur|
    ensures r <==> level < |other| && forall i :: 0 <= i <= level ==> GroupPrefix(cur[i], other[i])
  {
    level < |other| && AllPrefixes(cur, other, level)
  }

  predicate AllPrefixes(cur: seq<string>, other: seq<string>, level: nat)
    requires level < |cur| && level < |other|
  {
    forall i :: 0 <= i <= level ==> GroupPrefix(cur[i], other[i])
  }

  lemma {:induction false} SubGroupFromAgrees(cur: seq<string>, level: nat, other: seq<string>, i: nat)
    requires level < |cur| && level < |other| && i <= level + 1
    requires forall k :: 0 <= k < i ==> GroupPrefix(cur[k], other[k])
    ensures SubGroupFrom(cur, level, other, i) == Some(AllPrefixes(cur, other, level))
    decreases level + 1 - i
  {
    if i <= level && GroupPrefix(cur[i], other[i]) {
      SubGroupFromAgrees(cur, level, other, i + 1);
    }
  }

  /** Whenever `other` is not exactly `level` groups deep, the test as written gives the intended answer. */
  lemma IsSubGroupAsWrittenAgrees(cur: seq<string>, level: nat, other: seq<string>)
    requires level < |cur|
    requires |other| != level
    ensures IsSubGroupAsWritten(cur, level, other) == Some(IsSubGroup(cur, level, other))
  {
    if |other| > level {
      SubGroupFromAgrees(cur, level, other, 0);
    }
  }

  /** A group path one level short with matching groups makes the loop read `other[level]`, past its end. */
  lemma IsSubGroupAsWrittenOverruns()
    ensures IsSubGroupAsWritten(["a", "b"], 1, ["a"]) == None
    ensures !IsSubGroup(["a", "b"], 1, ["a"])
  {
    assert GroupPrefix("a", "a");
    assert SubGroupFrom(["a", "b"], 1, ["a"], 0) == SubGroupFrom(["a", "b"], 1, ["a"], 1);
  }

  /** Every group path is a sub-group of itself at each of its levels. */
  lemma IsSubGroupReflexive(g: seq<string>, level: nat)
    requires level < |g|
    ensures IsSubGroup(g, level, g)
  {
    forall i | 0 <= i <= level
      ensures GroupPrefix(g[i], g[i])
    {
      assert g[i][..|g[i]|] == g[i];
    }
  }

  /** A sub-group at one level is a sub-group at every shallower level. */
  lemma IsSubGroupShallower(cur: seq<string>, level: nat, other: seq<string>, shallower: nat)
    requires shallower <= level < |cur|
    requires IsSubGroup(cur, level, other)
    ensures IsSubGroup(cur, shallower, other)
  {
  }

  // ---------------------------------------------------------------------
  // Capabilities version
  // ---------------------------------------------------------------------

  /** OWS version numbers, packed as major * 0x10000 + minor * 0x100 + revision. */
  const Ows100 := 0x010000
  const Ows107 := 0x010007
  const Ows110 := 0x010100
  const Ows111 := 0x010101

  predicate Supported(v: int) {
    v == Ows100 || v == Ows107 || v == Ows110 || v == Ows111
  }

  /** The version of the capabilities document returned for a requested version (negative: none given). */
  function CapabilitiesVersion(requested: int): (v: int)
    ensures Supported(v)
  {
    var n := if requested < 0 then Ows111 else requested;
    if n < Ows107 then Ows100
    else if n < Ows110 then Ows107
    else if n == Ows110 then Ows110
    else Ows111
  }

  /**
   * From 1.0.0 upward the answer is the highest supported version not
   * above the request; below it, 1.0.0; without a version, 1.1.1.
   */
  lemma CapabilitiesVersionHighest(requested: int)
    ensures requested >= Ows100 ==> CapabilitiesVersion(requested) <= requested
    ensures requested >= Ows100 ==> forall v :: Supported(v) && v <= requested ==> v <= CapabilitiesVersion(requested)
    ensures 0 <= requested < Ows100 ==> CapabilitiesVersion(requested) == Ows100
    ensures requested < 0 ==> CapabilitiesVersion(requested) == Ows111
  {
  }

  /** A supported version is answered with itself, so the choice is idempotent. */
  lemma CapabilitiesVersionIdempotent(requested: int)
    ensures CapabilitiesVersion(CapabilitiesVersion(requested)) == CapabilitiesVersion(requested)
    ensures Supported(requested) ==> CapabilitiesVersion(requested) == requested
  {
  }

  /** Asking for a later version never gives an earlier document. */
  lemma CapabilitiesVersionMonotone(a: int, b: int)
    requires 0 <= a <= b
    ensures CapabilitiesVersion(a) <= CapabilitiesVersion(b)
  {
  }

  // ---------------------------------------------------------------------
  // The checks after the parameter loop
  // ---------------------------------------------------------------------

  /**
   * The layer, size and style refusals after the parameter loop, in the
   * order they are tested: the layer counters, then the image size, then
   * the styles. The time and SRS refusals among them are not modelled.
   */
  function CheckGetMap(sel: Selection, size: Size, maxsize: int, styles: Option<string>): (r: Result<Size, (GetMapError, Size)>)
    ensures r.Success? ==> r.value == size
  {
    if LayersRefused(sel) then Failure((LayerNotDefined, size))
    else match CheckSize(size, maxsize)
      case Failure(e) => Failure(e)
      case Success(_) =>
        if CheckStyles(styles).Failure? then Failure((StyleNotDefined, size)) else Success(size)
  }

  /** The layer, size and style checks of a GetMap pass exactly when every requested name selects a layer, the size is in range and the styles are default ones. */
  lemma CheckGetMapAccepts(mapName: Option<string>, layers: seq<Layer>, value: string, size: Size, maxsize: int, styles: string)
    ensures CheckGetMap(SelectLayersAsWritten(mapName, layers, value), size, maxsize, Some(styles)).Success? <==>
              (forall k :: 0 <= k < |Split(value, ',')| ==> |Hits(mapName, layers, Split(value, ',')[k])| > 0)
              && 1 <= size.width <= maxsize && 1 <= size.height <= maxsize
              && DefaultStyles(Split(styles, ','))
  {
    LayersRefusedExactly(mapName, layers, value);
    StylesAccepted(styles);
  }

  // ---------------------------------------------------------------------
  // The layer counters over the whole request
  // ---------------------------------------------------------------------

  /** The two layer counters; msWMSLoadGetMapParams sets them to zero once, before its parameter loop. */
  datatype Counters = Counters(valid: nat, invalid: nat)

  /** The counts one LAYERS parameter adds, those of its own pass (`SelectLayersAsWritten`). */
  function PassCounters(mapName: Option<string>, layers: seq<Layer>, value: string): Counters {
    var names := Split(value, ',');
    Counters(|Matched(mapName, layers, names)|, Missing(mapName, layers, names))
  }

  /** The counters after a series of passes: each adds to both, and nothing resets them. */
  function Total(passes: seq<Counters>): Counters
    decreases |passes|
  {
    if |passes| == 0 then Counters(0, 0)
    else
      var before := Total(passes[..|passes| - 1]);
      var last := passes[|passes| - 1];
      Counters(before.valid + last.valid, before.invalid + last.invalid)
  }

  /** The counters after the LAYERS parameters of a request, given in request order. */
  function CountersAfter(mapName: Option<string>, layers: seq<Layer>, values: seq<string>): Counters {
    Total(seq(|values|, i requires 0 <= i < |values| => PassCounters(mapName, layers, values[i])))
  }

  /** Every name of one LAYERS value selects some layer. */
  predicate AllNamesHit(mapName: Option<string>, layers: seq<Layer>, value: string) {
    forall k :: 0 <= k < |Split(value, ',')| ==> |Hits(mapName, layers, Split(value, ',')[k])| > 0
  }

  /** One pass counts an invalid name exactly when some name misses, and a valid one whenever none does. */
  lemma PassCounts(mapName: Option<string>, layers: seq<Layer>, value: string)
    ensures PassCounters(mapName, layers, value).invalid > 0 <==> !AllNamesHit(mapName, layers, value)
    ensures AllNamesHit(mapName, layers, value) ==> PassCounters(mapName, layers, value).valid > 0
  {
    var names := Split(value, ',');
    MissingCounts(mapName, layers, names);
    MatchedEmpty(mapName, layers, names);
    if AllNamesHit(mapName, layers, value) {
      assert |Hits(mapName, layers, names[0])| > 0;
    }
  }

  /** The invalid total is positive exactly when some pass counts an invalid name. */
  lemma {:induction false} TotalInvalid(passes: seq<Counters>)
    ensures Total(passes).invalid > 0 <==> exists i :: 0 <= i < |passes| && passes[i].invalid > 0
    decreases |passes|
  {
    if |passes| > 0 {
      var front := passes[..|passes| - 1];
      TotalInvalid(front);
      if Total(front).invalid > 0 {
        var i :| 0 <= i < |front| && front[i].invalid > 0;
        assert passes[i] == front[i];
      }
      assert forall i :: 0 <= i < |front| ==> passes[i] == front[i];
    }
  }

  /**
   * Over the whole request the layer check refuses exactly when there is no
   * LAYERS parameter, or some name of some LAYERS parameter selects no
   * layer; an earlier bad parameter is not undone by a later good one.
   */
  lemma LayersRefusedAll(mapName: Option<string>, layers: seq<Layer>, values: seq<string>)
    ensures var c := CountersAfter(mapName, layers, values);
      (c.valid == 0 || c.invalid > 0) <==>
        |values| == 0 || exists i :: 0 <= i < |values| && !AllNamesHit(mapName, layers, values[i])
  {
    var passes := seq(|values|, i requires 0 <= i < |values| => PassCounters(mapName, layers, values[i]));
    TotalInvalid(passes);
    forall i | 0 <= i < |values|
      ensures passes[i].invalid > 0 <==> !AllNamesHit(mapName, layers, values[i])
    {
      PassCounts(mapName, layers, values[i]);
    }
    if |values| > 0 {
      PassCounts(mapName, layers, values[|values| - 1]);
    }
  }

  /**
   * The layer, size and style checks of a GetMap with any number of LAYERS
   * parameters pass exactly when there is one, every name in them selects a
   * layer, the size is in range and the styles are default ones.
   */
  lemma CheckGetMapAcceptsAll(mapName: Option<string>, layers: seq<Layer>, values: seq<string>,
                              statuses: seq<Status>, order: seq<nat>, size: Size, maxsize: int, styles: string)
    ensures var c := CountersAfter(mapName, layers, values);
      CheckGetMap(Selection(statuses, order, c.valid, c.invalid), size, maxsize, Some(styles)).Success? <==>
        |values| > 0 && (forall i :: 0 <= i < |values| ==> AllNamesHit(mapName, layers, values[i]))
        && 1 <= size.width <= maxsize && 1 <= size.height <= maxsize
        && DefaultStyles(Split(styles, ','))
  {
    LayersRefusedAll(mapName, layers, values);
    StylesAccepted(styles);
  }
}
