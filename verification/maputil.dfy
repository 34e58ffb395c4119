/**
 * Utilities of maputil.c: palette lookup, the evaluation of string
 * expressions, the choice of a shape's class, the constraint of an extent
 * to bounds, group lookups over the map's layers, and on-demand style
 * allocation.
 */
module MapUtil {
  import opened Wrappers
  import opened CStrings
  import MapFile

  // ---------------------------------------------------------------------
  // getRgbColor
  // ---------------------------------------------------------------------

  /** The status and the three components getRgbColor hands back. */
  datatype Rgb = Rgb(status: int, red: int, green: int, blue: int)

  /** `getRgbColor`: palette entries are numbered from 1. */
  function GetRgbColor(palette: seq<MapFile.Color>, i: int): (r: Rgb)
    ensures r.status == 0 <==> 1 <= i <= |palette|
    ensures r.status != 0 ==> r.status == 1 && r.red == -1 && r.green == -1 && r.blue == -1
    ensures r.status == 0 ==> MapFile.Color(r.red, r.green, r.blue) == palette[i - 1]
  {
    if 0 < i <= |palette| then
      var c := palette[i - 1];
      Rgb(0, c.red, c.green, c.blue)
    else Rgb(1, -1, -1, -1)
  }

  // ---------------------------------------------------------------------
  // msEvalExpression
  // ---------------------------------------------------------------------

  /** An expressionObj: its type, its text (None for NULL) and whether the
      MS_EXP_INSENSITIVE flag is set. */
  datatype Expression = Expression(kind: MapFile.ExprType, text: Option<string>, insensitive: bool)

  /** The verdicts msEvalExpression takes from code outside this model: the
      logical-expression parser for MS_EXPRESSION, the regular-expression
      engine for MS_REGEX. */
  datatype Outside = Outside(parsed: bool, regexMatch: bool)

  /** `msEvalExpression` over the shape's attribute values `items`. A NULL
      text is always true. A string expression compares the item at
      `itemIndex`, exactly or ignoring case; an index of -1 or past the
      items is false. */
  function EvalExpression(e: Expression, itemIndex: int, items: seq<string>, outside: Outside): (r: bool)
    requires itemIndex >= -1
    ensures e.text.None? ==> r
    ensures e.text.Some? && e.kind == MapFile.Str ==>
              (r <==> 0 <= itemIndex < |items| &&
                      (if e.insensitive then EqualFold(e.text.value, items[itemIndex])
                       else e.text.value == items[itemIndex]))
    ensures e.text.Some? && e.kind == MapFile.Regex ==>
              (r <==> 0 <= itemIndex < |items| && outside.regexMatch)
    ensures e.text.Some? && e.kind == MapFile.Expression ==> (r <==> outside.parsed)
    ensures e.text.Some? && e.kind !in {MapFile.Str, MapFile.Regex, MapFile.Expression} ==> !r
  {
    if e.text.None? then true
    else match e.kind
      case Str =>
        if itemIndex == -1 || itemIndex >= |items| then false
        else if e.insensitive then EqualFold(e.text.value, items[itemIndex])
        else e.text.value == items[itemIndex]
      case Expression => outside.parsed
      case Regex =>
        if itemIndex == -1 || itemIndex >= |items| then false
        else outside.regexMatch
      case _ => false
  }

  /** A case-insensitive string expression holds whenever the exact one does. */
  lemma InsensitiveWeaker(text: string, itemIndex: int, items: seq<string>, outside: Outside)
    requires itemIndex >= -1
    requires EvalExpression(Expression(MapFile.Str, Some(text), false), itemIndex, items, outside)
    ensures EvalExpression(Expression(MapFile.Str, Some(text), true), itemIndex, items, outside)
  {
  }

  /** The outcome of a string expression does not depend on the verdicts
      taken from outside. */
  lemma StringIgnoresOutside(e: Expression, itemIndex: int, items: seq<string>, o1: Outside, o2: Outside)
    requires itemIndex >= -1 && e.kind == MapFile.Str
    ensures EvalExpression(e, itemIndex, items, o1) == EvalExpression(e, itemIndex, items, o2)
  {
  }

  // ---------------------------------------------------------------------
  // msShapeGetClass
  // ---------------------------------------------------------------------

  /** The parts of a classObj that class selection reads. */
  datatype Class = Class(minScale: real, maxScale: real, deleted: bool, expression: Expression)

  /** A scale is outside a class's range when it is positive and above a
      set maximum, or at or below a set minimum. */
  predicate InScale(c: Class, scale: real) {
    !(scale > 0.0 && ((c.maxScale > 0.0 && scale > c.maxScale) || (c.minScale > 0.0 && scale <= c.minScale)))
  }

  /** Whether class `i` is chosen for a shape with values `items`; `outside`
      gives each class's verdicts from the parser and the regex engine. */
  predicate Selects(classes: seq<Class>, i: nat, classItemIndex: int, items: seq<string>,
                    scale: real, outside: nat -> Outside)
    requires i < |classes| && classItemIndex >= -1
  {
    InScale(classes[i], scale) && !classes[i].deleted &&
    EvalExpression(classes[i].expression, classItemIndex, items, outside(i))
  }

  /** The search of msShapeGetClass from class `i` on. */
  function FirstClassFrom(classes: seq<Class>, i: nat, classItemIndex: int, items: seq<string>,
                          scale: real, outside: nat -> Outside): (r: int)
    requires i <= |classes| && classItemIndex >= -1
    ensures r == -1 || i <= r < |classes|
    ensures r >= 0 ==> Selects(classes, r, classItemIndex, items, scale, outside)
    ensures r >= 0 ==> forall j :: i <= j < r ==> !Selects(classes, j, classItemIndex, items, scale, outside)
    ensures r == -1 ==> forall j :: i <= j < |classes| ==> !Selects(classes, j, classItemIndex, items, scale, outside)
    decreases |classes| - i
  {
    if i == |classes| then -1
    else if Selects(classes, i, classItemIndex, items, scale, outside) then i
    else FirstClassFrom(classes, i + 1, classItemIndex, items, scale, outside)
  }

  /** `msShapeGetClass`. An INLINE layer keeps the class index the shape
      already carries when it is a class of the layer and the scale suits
      it; any other layer takes the first class, not deleted and in scale,
      whose expression holds. -1 means no class. */
  function ShapeGetClass(inline: bool, classes: seq<Class>, classItemIndex: int,
                         shapeClass: int, items: seq<string>, scale: real,
                         outside: nat -> Outside): (r: int)
    requires classItemIndex >= -1
    ensures -1 <= r < |classes|
    ensures inline ==> (r >= 0 <==> 0 <= shapeClass < |classes| && InScale(classes[shapeClass], scale))
    ensures inline && r >= 0 ==> r == shapeClass
    ensures !inline && r >= 0 ==> Selects(classes, r, classItemIndex, items, scale, outside)
    ensures !inline && r >= 0 ==>
              forall j :: 0 <= j < r ==> !Selects(classes, j, classItemIndex, items, scale, outside)
    ensures !inline ==> (r == -1 <==>
              forall j :: 0 <= j < |classes| ==> !Selects(classes, j, classItemIndex, items, scale, outside))
  {
    if inline then
      if shapeClass < 0 || shapeClass >= |classes| then -1
      else if !InScale(classes[shapeClass], scale) then -1
      else shapeClass
    else FirstClassFrom(classes, 0, classItemIndex, items, scale, outside)
  }

  /** A class without an expression text, not deleted and in scale, is taken
      unless an earlier class is. */
  lemma NoExpressionMatches(classes: seq<Class>, k: nat, classItemIndex: int, items: seq<string>,
                            scale: real, outside: nat -> Outside)
    requires classItemIndex >= -1 && k < |classes|
    requires classes[k].expression.text.None? && !classes[k].deleted && InScale(classes[k], scale)
    ensures 0 <= ShapeGetClass(false, classes, classItemIndex, -1, items, scale, outside) <= k
  {
    assert Selects(classes, k, classItemIndex, items, scale, outside);
  }

  // ---------------------------------------------------------------------
  // msConstrainExtent
  // ---------------------------------------------------------------------

  /** A rectObj; doubles are exact reals here. */
  datatype Rect = Rect(minx: real, miny: real, maxx: real, maxy: real)

  /** One axis of msConstrainExtent: an interval [lo, hi] wholly below
      [bmin, bmax] moves up by `off`, one wholly above moves down by `off`,
      any other stays. */
  function Slide(lo: real, hi: real, bmin: real, bmax: real, off: real): (r: (real, real))
    ensures r.1 - r.0 == hi - lo
    ensures bmin < hi && lo < bmax ==> r == (lo, hi)
  {
    if hi <= bmin then (lo + off, hi + off)
    else if lo >= bmax then (lo - off, hi - off)
    else (lo, hi)
  }

  /** The distance between [lo, hi] and [bmin, bmax], 0 when they overlap. */
  function Gap(lo: real, hi: real, bmin: real, bmax: real): real {
    if hi <= bmin then bmin - hi
    else if lo >= bmax then lo - bmax
    else 0.0
  }

  /** The shift along one axis: `overlay` of the rectangle's size along it. */
  function Offset(overlay: real, lo: real, hi: real): real {
    overlay * (hi - lo)
  }

  /** The x half of msConstrainExtent: a rectangle wholly left of the bounds
      moves right by `overlay` of its width, one wholly right moves left. */
  function ShiftX(bounds: Rect, rect: Rect, overlay: real): (r: Rect)
  {
    var p := Slide(rect.minx, rect.maxx, bounds.minx, bounds.maxx, Offset(overlay, rect.minx, rect.maxx));
    rect.(minx := p.0, maxx := p.1)
  }

  /** The y half of msConstrainExtent as written: a rectangle wholly below
      the bounds is moved down, one wholly above is moved up, that is, the
      slide runs with the offset negated. */
  function ShiftYAsWritten(bounds: Rect, rect: Rect, overlay: real): (r: Rect)
  {
    var p := Slide(rect.miny, rect.maxy, bounds.miny, bounds.maxy, -Offset(overlay, rect.miny, rect.maxy));
    rect.(miny := p.0, maxy := p.1)
  }

  /** The y half moving towards the bounds, as the x half does. */
  function ShiftY(bounds: Rect, rect: Rect, overlay: real): (r: Rect)
  {
    var p := Slide(rect.miny, rect.maxy, bounds.miny, bounds.maxy, Offset(overlay, rect.miny, rect.maxy));
    rect.(miny := p.0, maxy := p.1)
  }

  /** `msConstrainExtent` as the source writes it. */
  function ConstrainExtentAsWritten(bounds: Rect, rect: Rect, overlay: real): (r: Rect)
    ensures r.maxx - r.minx == rect.maxx - rect.minx
    ensures r.maxy - r.miny == rect.maxy - rect.miny
    ensures bounds.minx < rect.maxx && rect.minx < bounds.maxx ==> r.minx == rect.minx
    ensures bounds.miny < rect.maxy && rect.miny < bounds.maxy ==> r.miny == rect.miny
  {
    ShiftYAsWritten(bounds, ShiftX(bounds, rect, overlay), overlay)
  }

  /** `msConstrainExtent` with the y shift pointing at the bounds. */
  function ConstrainExtent(bounds: Rect, rect: Rect, overlay: real): (r: Rect)
    ensures r.maxx - r.minx == rect.maxx - rect.minx
    ensures r.maxy - r.miny == rect.maxy - rect.miny
    ensures bounds.minx < rect.maxx && rect.minx < bounds.maxx ==> r.minx == rect.minx
    ensures bounds.miny < rect.maxy && rect.miny < bounds.maxy ==> r.miny == rect.miny
  {
    ShiftY(bounds, ShiftX(bounds, rect, overlay), overlay)
  }

  function GapX(bounds: Rect, rect: Rect): real { Gap(rect.minx, rect.maxx, bounds.minx, bounds.maxx) }
  function GapY(bounds: Rect, rect: Rect): real { Gap(rect.miny, rect.maxy, bounds.miny, bounds.maxy) }

  /** A product of positive reals is positive. */
  lemma MulPositive(a: real, b: real)
    requires a > 0.0 && b > 0.0
    ensures a * b > 0.0
  {
  }

  /** A product of non-negative reals is non-negative. */
  lemma MulNonNegative(a: real, b: real)
    requires a >= 0.0 && b >= 0.0
    ensures a * b >= 0.0
  {
  }

  /** Sliding by a positive offset no larger than the interval shrinks the gap. */
  lemma SlideNearer(lo: real, hi: real, bmin: real, bmax: real, off: real)
    requires bmin <= bmax && 0.0 < off <= hi - lo && Gap(lo, hi, bmin, bmax) > 0.0
    ensures var p := Slide(lo, hi, bmin, bmax, off); Gap(p.0, p.1, bmin, bmax) < Gap(lo, hi, bmin, bmax)
  {
  }

  /** Sliding by a negative offset widens the gap. */
  lemma SlideAway(lo: real, hi: real, bmin: real, bmax: real, off: real)
    requires bmin <= bmax && lo <= hi && off < 0.0 && Gap(lo, hi, bmin, bmax) > 0.0
    ensures var p := Slide(lo, hi, bmin, bmax, off); Gap(p.0, p.1, bmin, bmax) > Gap(lo, hi, bmin, bmax)
  {
  }

  /** As written, a rectangle of positive height wholly below or above the
      bounds moves further away from them along y, whatever the positive
      overlay. */
  lemma ConstrainExtentAsWrittenMovesAway(bounds: Rect, rect: Rect, overlay: real)
    requires bounds.miny <= bounds.maxy && rect.miny < rect.maxy && overlay > 0.0
    requires GapY(bounds, rect) > 0.0
    ensures GapY(bounds, ConstrainExtentAsWritten(bounds, rect, overlay)) > GapY(bounds, rect)
  {
    var x := ShiftX(bounds, rect, overlay);
    assert x.miny == rect.miny && x.maxy == rect.maxy;
    MulPositive(overlay, rect.maxy - rect.miny);
    SlideAway(rect.miny, rect.maxy, bounds.miny, bounds.maxy, -Offset(overlay, rect.miny, rect.maxy));
  }

  /** A concrete case: the bounds (0,0)-(10,10), the rectangle (0,-5)-(10,-1)
      and overlay 0.5 give (0,-7)-(10,-3), two units further down. */
  lemma ConstrainExtentAsWrittenExample()
    ensures ConstrainExtentAsWritten(Rect(0.0, 0.0, 10.0, 10.0), Rect(0.0, -5.0, 10.0, -1.0), 0.5)
              == Rect(0.0, -7.0, 10.0, -3.0)
  {
  }

  /** With an overlay in (0, 1] the shift is positive and at most the size. */
  lemma OffsetBounds(overlay: real, lo: real, hi: real)
    requires 0.0 < overlay <= 1.0 && lo < hi
    ensures 0.0 < Offset(overlay, lo, hi) <= hi - lo
  {
    MulPositive(overlay, hi - lo);
    assert (1.0 - overlay) * (hi - lo) >= 0.0 by {
      MulNonNegative(1.0 - overlay, hi - lo);
    }
  }

  /** With an overlay in (0, 1], a rectangle of positive size outside the
      bounds along an axis ends up nearer to them along that axis. */
  lemma ConstrainExtentApproaches(bounds: Rect, rect: Rect, overlay: real)
    requires bounds.minx <= bounds.maxx && bounds.miny <= bounds.maxy
    requires rect.minx < rect.maxx && rect.miny < rect.maxy && 0.0 < overlay <= 1.0
    ensures var r := ConstrainExtent(bounds, rect, overlay);
            (GapX(bounds, rect) > 0.0 ==> GapX(bounds, r) < GapX(bounds, rect)) &&
            (GapY(bounds, rect) > 0.0 ==> GapY(bounds, r) < GapY(bounds, rect))
  {
    var x := ShiftX(bounds, rect, overlay);
    var r := ShiftY(bounds, x, overlay);
    assert x.miny == rect.miny && x.maxy == rect.maxy;
    assert r.minx == x.minx && r.maxx == x.maxx;
    assert GapX(bounds, r) == GapX(bounds, x);
    if GapX(bounds, rect) > 0.0 {
      OffsetBounds(overlay, rect.minx, rect.maxx);
      SlideNearer(rect.minx, rect.maxx, bounds.minx, bounds.maxx, Offset(overlay, rect.minx, rect.maxx));
    }
    if GapY(bounds, rect) > 0.0 {
      OffsetBounds(overlay, rect.miny, rect.maxy);
      SlideNearer(rect.miny, rect.maxy, bounds.miny, bounds.maxy, Offset(overlay, rect.miny, rect.maxy));
    }
  }

  // ---------------------------------------------------------------------
  // msGetLayersIndexByGroup and msGetAllGroupNames
  // ---------------------------------------------------------------------

  /** A layer as group lookups see it. */
  datatype Layer = Layer(group: Option<string>, deleted: bool)

  predicate Increasing(s: seq<nat>) {
    forall i, j :: 0 <= i < j < |s| ==> s[i] < s[j]
  }

  /** The indices from `i` on of the layers whose group equals `name`. */
  function IndicesFrom(groups: seq<Option<string>>, name: string, i: nat): (r: seq<nat>)
    requires i <= |groups|
    ensures forall k :: 0 <= k < |r| ==> i <= r[k] < |groups|
    ensures Increasing(r)
    ensures forall j :: i <= j < |groups| ==> (groups[j] == Some(name) <==> j in r)
    ensures forall k :: 0 <= k < |r| ==> groups[r[k]] == Some(name)
    decreases |groups| - i
  {
    if i == |groups| then []
    else if groups[i] == Some(name) then [i] + IndicesFrom(groups, name, i + 1)
    else IndicesFrom(groups, name, i + 1)
  }

  /** `msGetLayersIndexByGroup`: the increasing indices of the layers in
      group `name`, compared exactly; NULL for a NULL name or when no layer
      is in the group. */
  function LayersIndexByGroup(groups: seq<Option<string>>, name: Option<string>): (r: Option<seq<nat>>)
    ensures r.Some? ==> name.Some? && |r.value| > 0 && Increasing(r.value)
    ensures r.Some? ==> forall j :: 0 <= j < |groups| ==> (groups[j] == name <==> j in r.value)
    ensures r.Some? ==> forall k :: 0 <= k < |r.value| ==> r.value[k] < |groups|
    ensures r.None? <==> name.None? || name !in groups
  {
    if name.None? then None
    else
      var found := IndicesFrom(groups, name.value, 0);
      if |found| == 0 then
        assert forall j :: 0 <= j < |groups| ==> groups[j] != name;
        None
      else
        assert name in groups by { assert groups[found[0]] == name; }
        Some(found)
  }

  /** The group a layer contributes to msGetAllGroupNames: none for a layer
      without a group or with status MS_DELETE. */
  function GroupOf(l: Layer): Option<string> {
    if l.group.Some? && !l.deleted then l.group else None
  }

  /** The groups seen in `s`, each once, in order of first appearance. */
  function FirstSeen(s: seq<Option<string>>): (r: seq<string>)
    decreases |s|
  {
    if |s| == 0 then []
    else
      var r := FirstSeen(s[..|s| - 1]);
      match s[|s| - 1]
      case None => r
      case Some(g) => if g in r then r else r + [g]
  }

  predicate Distinct(s: seq<string>) {
    forall i, j :: 0 <= i < j < |s| ==> s[i] != s[j]
  }

  /** FirstSeen lists every group of the sequence once and nothing else. */
  lemma {:induction false} FirstSeenContents(s: seq<Option<string>>)
    ensures Distinct(FirstSeen(s))
    ensures forall g :: g in FirstSeen(s) <==> Some(g) in s
    decreases |s|
  {
    if |s| > 0 {
      var p := s[..|s| - 1];
      FirstSeenContents(p);
      assert s == p + [s[|s| - 1]];
    }
  }

  /** The layer order msGetAllGroupNames uses: the map's, or 0..n-1 when the
      map has none. */
  function DefaultOrder(order: Option<seq<nat>>, n: nat): (r: seq<nat>)
    ensures order.Some? ==> r == order.value
    ensures order.None? ==> |r| == n && forall i :: 0 <= i < n ==> r[i] == i
  {
    if order.Some? then order.value else seq(n, (i: int) requires 0 <= i => i as nat)
  }

  /** A layer order of the right length whose entries name layers. */
  predicate ValidOrder(order: seq<nat>, n: nat) {
    |order| == n && forall i :: 0 <= i < |order| ==> order[i] < n
  }

  /** The group of each layer in the given order. */
  function GroupsInOrder(layers: seq<Layer>, order: seq<nat>): (r: seq<Option<string>>)
    requires ValidOrder(order, |layers|)
    ensures |r| == |order|
  {
    seq(|order|, (i: int) requires 0 <= i < |order| => GroupOf(layers[order[i]]))
  }

  /** `msGetAllGroupNames`: the distinct groups of the layers that are not
      deleted, in layer order; a map without a layer order first gets the
      order 0..n-1, which is returned as the second result. */
  method GetAllGroupNames(layers: seq<Layer>, order: Option<seq<nat>>) returns (groups: seq<string>, layerOrder: seq<nat>)
    requires order.Some? ==> ValidOrder(order.value, |layers|)
    ensures layerOrder == DefaultOrder(order, |layers|)
    ensures ValidOrder(layerOrder, |layers|)
    ensures groups == FirstSeen(GroupsInOrder(layers, layerOrder))
  {
    layerOrder := DefaultOrder(order, |layers|);
    var all := GroupsInOrder(layers, layerOrder);
    groups := [];
    var i := 0;
    while i < |layers|
      invariant 0 <= i <= |layers|
      invariant groups == FirstSeen(all[..i])
    {
      var l := layers[layerOrder[i]];
      assert all[..i + 1][..i] == all[..i];
      if l.group.Some? && l.deleted == false {
        var found := false;
        var j := 0;
        while j < |groups|
          invariant 0 <= j <= |groups|
          invariant found <==> l.group.value in groups[..j]
        {
          if groups[j] == l.group.value {
            found := true;
            assert groups[..j + 1][j] == groups[j];
            break;
          }
          assert groups[..j + 1] == groups[..j] + [groups[j]];
          j := j + 1;
        }
        assert found <==> l.group.value in groups by {
          if !found { assert groups[..j] == groups; }
        }
        if !found {
          groups := groups + [l.group.value];
        }
      }
      i := i + 1;
    }
    assert all[..|layers|] == all;
  }

  /** The groups listed are distinct, and are exactly the groups of the
      layers, not deleted, that the order visits. */
  lemma AllGroupNamesContents(layers: seq<Layer>, order: seq<nat>)
    requires ValidOrder(order, |layers|)
    ensures Distinct(FirstSeen(GroupsInOrder(layers, order)))
    ensures forall g :: g in FirstSeen(GroupsInOrder(layers, order)) <==>
              exists i :: 0 <= i < |order| && GroupOf(layers[order[i]]) == Some(g)
  {
    var s := GroupsInOrder(layers, order);
    FirstSeenContents(s);
    forall g ensures Some(g) in s <==> exists i :: 0 <= i < |order| && GroupOf(layers[order[i]]) == Some(g) {
      if exists i :: 0 <= i < |order| && GroupOf(layers[order[i]]) == Some(g) {
        var i :| 0 <= i < |order| && GroupOf(layers[order[i]]) == Some(g);
        assert s[i] == Some(g);
      }
    }
  }

  /** Without a layer order every layer is visited: the groups listed are
      those of all layers that are not deleted. */
  lemma AllGroupNamesDefault(layers: seq<Layer>)
    ensures forall g :: g in FirstSeen(GroupsInOrder(layers, DefaultOrder(None, |layers|))) <==>
              exists k :: 0 <= k < |layers| && GroupOf(layers[k]) == Some(g)
  {
    var order := DefaultOrder(None, |layers|);
    AllGroupNamesContents(layers, order);
    forall g ensures (exists i :: 0 <= i < |order| && GroupOf(layers[order[i]]) == Some(g)) <==>
                     (exists k :: 0 <= k < |layers| && GroupOf(layers[k]) == Some(g)) {
      if exists k :: 0 <= k < |layers| && GroupOf(layers[k]) == Some(g) {
        var k :| 0 <= k < |layers| && GroupOf(layers[k]) == Some(g);
        assert order[k] == k;
      }
    }
  }

  // ---------------------------------------------------------------------
  // msMaybeAllocateStyle
  // ---------------------------------------------------------------------

  /** The style slots of a classObj: whether each slot holds a style, and
      numstyles. */
  datatype StyleSlots = StyleSlots(filled: seq<bool>, numStyles: nat)

  /** The result of msMaybeAllocateStyle: its status and the class after the call. */
  datatype Allocation = Allocation(success: bool, slots: Option<StyleSlots>)

  /** `msMaybeAllocateStyle`: fails for a NULL class or an index outside
      0..numstyles; an empty slot is given a style and numstyles grows by
      one, unless initialising the style fails (`initOk` false), in which
      case the slot is filled but numstyles stays. */
  function MaybeAllocateStyle(c: Option<StyleSlots>, idx: int, initOk: bool): (r: Allocation)
    requires c.Some? && 0 <= idx <= c.value.numStyles ==> idx < |c.value.filled|
    ensures c.None? || idx < 0 || (c.Some? && idx > c.value.numStyles) ==> r == Allocation(false, c)
    ensures r.success ==> c.Some? && r.slots.Some? && 0 <= idx < |c.value.filled|
    ensures r.success ==> r.slots.value.filled == c.value.filled[idx := true]
    ensures r.success ==>
              r.slots.value.numStyles == c.value.numStyles + (if c.value.filled[idx] then 0 else 1)
  {
    if c.None? then Allocation(false, c)
    else if idx < 0 || idx > c.value.numStyles then Allocation(false, c)
    else if c.value.filled[idx] then Allocation(true, c)
    else
      var slots := c.value.(filled := c.value.filled[idx := true]);
      if initOk then Allocation(true, Some(slots.(numStyles := c.value.numStyles + 1)))
      else Allocation(false, Some(slots))
  }

  /** A second call for the same slot changes nothing. */
  lemma MaybeAllocateStyleIdempotent(c: StyleSlots, idx: int, initOk: bool, again: bool)
    requires 0 <= idx <= c.numStyles && idx < |c.filled|
    requires MaybeAllocateStyle(Some(c), idx, initOk).success
    ensures var s := MaybeAllocateStyle(Some(c), idx, initOk).slots.value;
            MaybeAllocateStyle(Some(s), idx, again) == Allocation(true, Some(s))
  {
  }
}
