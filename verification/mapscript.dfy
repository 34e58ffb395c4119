/**
 * The PHP MapScript wrappers of mapscript_i.c that hold logic of their
 * own: the CGI request's parameter store, the bounds-checked getters of
 * lines, shapes and layers, and the recomputation of a shape's bounds.
 *
 * Arrays become sequences and a NULL result becomes None. The error a
 * getter registers with msSetError is not kept, only that the result is
 * NULL.
 */
module MapScript {
  import opened Wrappers
  import opened CStrings
  import MapUtil

  // ---------------------------------------------------------------------
  // Bounds-checked access
  // ---------------------------------------------------------------------

  /** The element at `i`, None when `i` lies outside the array: the test
      shared by mapObj_getLayer, lineObj_get, shapeObj_get and the CGI
      request's getName and getValue. */
  function At<T>(s: seq<T>, i: int): (r: Option<T>)
    ensures r.Some? <==> 0 <= i < |s|
    ensures r.Some? ==> r.value == s[i]
  {
    if i < 0 || i >= |s| then None else Some(s[i])
  }

  /** `mapObj_getLayer`: the layer at `i` of the map's layer array, None
      outside `[0, numlayers)`. */
  function GetLayer<L>(layers: seq<L>, i: int): (r: Option<L>)
    ensures r.Some? <==> 0 <= i < |layers|
    ensures r.Some? ==> r.value == layers[i]
  {
    At(layers, i)
  }

  // ---------------------------------------------------------------------
  // Lines and shapes
  // ---------------------------------------------------------------------

  /** pointObj without its measure. */
  datatype Point = Point(x: real, y: real)

  /** lineObj: `numpoints` is the length of `points`. */
  datatype Line = Line(points: seq<Point>)

  /** shapeObj: `numlines` is the length of `lines`. */
  datatype Shape = Shape(lines: seq<Line>, bounds: MapUtil.Rect)

  /** `lineObj_get`. */
  function LineGet(l: Line, i: int): (r: Option<Point>)
    ensures r.Some? <==> 0 <= i < |l.points|
    ensures r.Some? ==> r.value == l.points[i]
  {
    At(l.points, i)
  }

  /** `lineObj_add`: the point is copied into a new last slot. */
  function LineAdd(l: Line, p: Point): (r: Line)
    ensures |r.points| == |l.points| + 1
  {
    Line(l.points + [p])
  }

  /** A point added to a line is read back at the old `numpoints`, and
      every earlier point reads as before. */
  lemma LineAddGet(l: Line, p: Point, i: int)
    ensures LineGet(LineAdd(l, p), |l.points|) == Some(p)
    ensures i != |l.points| ==> LineGet(LineAdd(l, p), i) == LineGet(l, i)
  {
  }

  /** `shapeObj_get`. */
  function ShapeGet(s: Shape, i: int): (r: Option<Line>)
    ensures r.Some? <==> 0 <= i < |s.lines|
    ensures r.Some? ==> r.value == s.lines[i]
  {
    At(s.lines, i)
  }

  /** The point lies inside the rectangle, edges included. */
  predicate Within(b: MapUtil.Rect, p: Point) {
    b.minx <= p.x <= b.maxx && b.miny <= p.y <= b.maxy
  }

  /** Some point of the lines has `v` as its x coordinate. */
  predicate SomeX(lines: seq<Line>, v: real) {
    exists i, j :: 0 <= i < |lines| && 0 <= j < |lines[i].points| && lines[i].points[j].x == v
  }

  /** Some point of the lines has `v` as its y coordinate. */
  predicate SomeY(lines: seq<Line>, v: real) {
    exists i, j :: 0 <= i < |lines| && 0 <= j < |lines[i].points| && lines[i].points[j].y == v
  }

  /** Every edge of `b` is a coordinate of one of the points. */
  predicate Attained(lines: seq<Line>, b: MapUtil.Rect) {
    SomeX(lines, b.minx) && SomeX(lines, b.maxx) && SomeY(lines, b.miny) && SomeY(lines, b.maxy)
  }

  /** The rectangle is the bounding box of the lines' points: every point
      lies inside it and each edge touches a point. */
  predicate IsBoundingBox(lines: seq<Line>, b: MapUtil.Rect) {
    && (forall i, j :: 0 <= i < |lines| && 0 <= j < |lines[i].points| ==> Within(b, lines[i].points[j]))
    && Attained(lines, b)
  }

  /** `b` widened to take in `p`. */
  function Widen(b: MapUtil.Rect, p: Point): (r: MapUtil.Rect)
    ensures Within(r, p)
    ensures Within(b, p) ==> r == b
  {
    MapUtil.Rect(if p.x < b.minx then p.x else b.minx, if p.y < b.miny then p.y else b.miny,
                 if p.x > b.maxx then p.x else b.maxx, if p.y > b.maxy then p.y else b.maxy)
  }

  /** `shapeObj_setBounds`: start from the first point of the first line,
      then widen over every point of every line. The first line must have
      a point: the C code reads it unconditionally. */
  method SetBounds(s: Shape) returns (r: Shape)
    requires |s.lines| > 0 && |s.lines[0].points| > 0
    ensures r.lines == s.lines
    ensures IsBoundingBox(s.lines, r.bounds)
  {
    var lines := s.lines;
    var p0 := lines[0].points[0];
    var b := MapUtil.Rect(p0.x, p0.y, p0.x, p0.y);
    var i := 0;
    while i < |lines|
      invariant 0 <= i <= |lines|
      invariant forall a, c :: 0 <= a < i && 0 <= c < |lines[a].points| ==> Within(b, lines[a].points[c])
      invariant Within(b, p0) && Attained(lines, b)
    {
      var j := 0;
      while j < |lines[i].points|
        invariant 0 <= j <= |lines[i].points|
        invariant forall a, c :: 0 <= a < i && 0 <= c < |lines[a].points| ==> Within(b, lines[a].points[c])
        invariant forall c :: 0 <= c < j ==> Within(b, lines[i].points[c])
        invariant Within(b, p0) && Attained(lines, b)
      {
        var p := lines[i].points[j];
        var b' := Widen(b, p);
        WidenAttained(lines, b, i, j);
        WidenKeeps(b, p);
        b := b';
        j := j + 1;
      }
      i := i + 1;
    }
    r := s.(bounds := b);
  }

  /** Widening over a point of the lines keeps every edge on a point. */
  lemma WidenAttained(lines: seq<Line>, b: MapUtil.Rect, i: nat, j: nat)
    requires i < |lines| && j < |lines[i].points|
    requires Attained(lines, b)
    ensures Attained(lines, Widen(b, lines[i].points[j]))
  {
    var p := lines[i].points[j];
    var r := Widen(b, p);
    assert r.minx == p.x || r.minx == b.minx;
    assert r.maxx == p.x || r.maxx == b.maxx;
    assert r.miny == p.y || r.miny == b.miny;
    assert r.maxy == p.y || r.maxy == b.maxy;
  }

  /** Widening only grows the rectangle. */
  lemma WidenKeeps(b: MapUtil.Rect, p: Point)
    ensures forall q :: Within(b, q) ==> Within(Widen(b, p), q)
  {
  }

  /** There is only one bounding box: whatever order the points are visited
      in, the bounds come out the same. */
  lemma BoundingBoxUnique(lines: seq<Line>, b: MapUtil.Rect, b': MapUtil.Rect)
    requires IsBoundingBox(lines, b) && IsBoundingBox(lines, b')
    ensures b == b'
  {
    SameMinX(lines, b, b');
    SameMinX(lines, b', b);
    SameMaxX(lines, b, b');
    SameMaxX(lines, b', b);
    SameMinY(lines, b, b');
    SameMinY(lines, b', b);
    SameMaxY(lines, b, b');
    SameMaxY(lines, b', b);
  }

  lemma SameMinX(lines: seq<Line>, b: MapUtil.Rect, b': MapUtil.Rect)
    requires IsBoundingBox(lines, b) && IsBoundingBox(lines, b')
    ensures b'.minx <= b.minx
  {
    var i, j :| 0 <= i < |lines| && 0 <= j < |lines[i].points| && lines[i].points[j].x == b.minx;
    assert Within(b', lines[i].points[j]);
  }

  lemma SameMaxX(lines: seq<Line>, b: MapUtil.Rect, b': MapUtil.Rect)
    requires IsBoundingBox(lines, b) && IsBoundingBox(lines, b')
    ensures b'.maxx >= b.maxx
  {
    var i, j :| 0 <= i < |lines| && 0 <= j < |lines[i].points| && lines[i].points[j].x == b.maxx;
    assert Within(b', lines[i].points[j]);
  }

  lemma SameMinY(lines: seq<Line>, b: MapUtil.Rect, b': MapUtil.Rect)
    requires IsBoundingBox(lines, b) && IsBoundingBox(lines, b')
    ensures b'.miny <= b.miny
  {
    var i, j :| 0 <= i < |lines| && 0 <= j < |lines[i].points| && lines[i].points[j].y == b.miny;
    assert Within(b', lines[i].points[j]);
  }

  lemma SameMaxY(lines: seq<Line>, b: MapUtil.Rect, b': MapUtil.Rect)
    requires IsBoundingBox(lines, b) && IsBoundingBox(lines, b')
    ensures b'.maxy >= b.maxy
  {
    var i, j :| 0 <= i < |lines| && 0 <= j < |lines[i].points| && lines[i].points[j].y == b.maxy;
    assert Within(b', lines[i].points[j]);
  }

  // ---------------------------------------------------------------------
  // CGI request parameters
  // ---------------------------------------------------------------------

  /** MS_MAX_CGI_PARAMS: the number of slots the name and value arrays
      are allocated with. */
  const MaxCgiParams := 100

  datatype Param = Param(name: string, value: string)

  /** cgiRequestObj: `NumParams` is the length of `params`. */
  datatype Request = Request(params: seq<Param>)

  /** The first parameter whose name equals `name` ignoring case. */
  function FindName(params: seq<Param>, name: string): (r: Option<nat>)
    ensures r.Some? ==> r.value < |params| && EqualFold(params[r.value].name, name)
    ensures r.Some? ==> forall k :: 0 <= k < r.value ==> !EqualFold(params[k].name, name)
    ensures r.None? ==> forall k :: 0 <= k < |params| ==> !EqualFold(params[k].name, name)
    decreases |params|
  {
    if |params| == 0 then None
    else if EqualFold(params[0].name, name) then Some(0)
    else match FindName(params[1..], name)
      case None => None
      case Some(k) => Some(k + 1)
  }

  /** `cgirequestObj_getName`. */
  function GetName(req: Request, index: int): (r: Option<string>)
    ensures r.Some? <==> 0 <= index < |req.params|
    ensures r.Some? ==> r.value == req.params[index].name
  {
    match At(req.params, index)
    case None => None
    case Some(p) => Some(p.name)
  }

  /** `cgirequestObj_getValue`. */
  function GetValue(req: Request, index: int): (r: Option<string>)
    ensures r.Some? <==> 0 <= index < |req.params|
    ensures r.Some? ==> r.value == req.params[index].value
  {
    match At(req.params, index)
    case None => None
    case Some(p) => Some(p.value)
  }

  /** `cgirequestObj_getValueByName`: the value of the first parameter
      whose name equals `name` ignoring case. */
  function GetValueByName(req: Request, name: string): (r: Option<string>)
    ensures r.Some? <==> exists k :: 0 <= k < |req.params| && EqualFold(req.params[k].name, name)
    ensures r.Some? ==>
              exists k :: 0 <= k < |req.params| && EqualFold(req.params[k].name, name) &&
                          r.value == req.params[k].value && forall j :: 0 <= j < k ==> !EqualFold(req.params[j].name, name)
  {
    match FindName(req.params, name)
    case None => None
    case Some(k) => Some(req.params[k].value)
  }

  /** What setParameter leaves behind: the request, and whether the
      "maximum number of items" error was registered. */
  datatype Stored = Stored(request: Request, full: bool)

  /** `cgirequestObj_setParameter` as written: the error for a full store
      is registered, but the loop and the append run anyway, so a new name
      goes into slot MS_MAX_CGI_PARAMS, one past the arrays' end. */
  function SetParameterAsWritten(req: Request, name: string, value: string): (r: Stored)
    ensures r.full <==> |req.params| == MaxCgiParams
  {
    var full := |req.params| == MaxCgiParams;
    match FindName(req.params, name)
    case Some(k) => Stored(Request(req.params[k := Param(req.params[k].name, value)]), full)
    case None => Stored(Request(req.params + [Param(name, value)]), full)
  }

  /** A full store given a new name: the as-written code grows the store
      past its capacity. */
  lemma SetParameterAsWrittenOverflows(req: Request, name: string, value: string)
    requires |req.params| == MaxCgiParams
    requires forall k :: 0 <= k < |req.params| ==> !EqualFold(req.params[k].name, name)
    ensures |SetParameterAsWritten(req, name, value).request.params| == MaxCgiParams + 1
  {
    assert FindName(req.params, name).None?;
  }

  /** `cgirequestObj_setParameter` with the evident intent of its error
      message: the value of a parameter with the same name (ignoring case)
      is replaced, keeping the stored name; otherwise the parameter is
      appended, unless the store is full, in which case the request is
      left as it was. */
  function SetParameter(req: Request, name: string, value: string): (r: Stored)
    ensures r.full <==> |req.params| == MaxCgiParams
    ensures |req.params| <= MaxCgiParams ==> |r.request.params| <= MaxCgiParams
    ensures match FindName(req.params, name)
      case Some(k) =>
        && |r.request.params| == |req.params|
        && r.request.params[k] == Param(req.params[k].name, value)
        && forall j :: 0 <= j < |req.params| && j != k ==> r.request.params[j] == req.params[j]
      case None =>
        if |req.params| == MaxCgiParams then r.request == req
        else r.request.params == req.params + [Param(name, value)]
  {
    var full := |req.params| == MaxCgiParams;
    match FindName(req.params, name)
    case Some(k) => Stored(Request(req.params[k := Param(req.params[k].name, value)]), full)
    case None => if full then Stored(req, full) else Stored(Request(req.params + [Param(name, value)]), full)
  }

  /** Below capacity the corrected store and the as-written one agree. */
  lemma SetParameterAgrees(req: Request, name: string, value: string)
    requires |req.params| < MaxCgiParams || FindName(req.params, name).Some?
    ensures SetParameter(req, name, value) == SetParameterAsWritten(req, name, value)
  {
  }

  /** Equality ignoring case is transitive. */
  lemma EqualFoldTrans(a: string, b: string, c: string)
    requires EqualFold(a, b) && EqualFold(b, c)
    ensures EqualFold(a, c)
  {
  }

  /** After a parameter is stored, looking its name up (in any case)
      yields the new value, unless a full store refused a new name. */
  lemma SetThenGet(req: Request, name: string, value: string, name': string)
    requires EqualFold(name', name)
    requires |req.params| < MaxCgiParams || FindName(req.params, name).Some?
    ensures GetValueByName(SetParameter(req, name, value).request, name') == Some(value)
  {
    var ps := SetParameter(req, name, value).request.params;
    match FindName(req.params, name)
    case Some(k) =>
      forall j | 0 <= j < k ensures !EqualFold(ps[j].name, name') {
        if EqualFold(ps[j].name, name') { EqualFoldTrans(ps[j].name, name', name); }
      }
      EqualFoldTrans(ps[k].name, name, name');
      FindNameFirst(ps, name', k);
    case None =>
      forall j | 0 <= j < |req.params| ensures !EqualFold(ps[j].name, name') {
        if EqualFold(ps[j].name, name') { EqualFoldTrans(ps[j].name, name', name); }
      }
      assert EqualFold(ps[|req.params|].name, name') by { EqualFoldTrans(name, name', name'); }
      FindNameFirst(ps, name', |req.params|);
  }

  /** Storing one name leaves the lookup of every other name alone. */
  lemma SetKeepsOthers(req: Request, name: string, value: string, other: string)
    requires !EqualFold(other, name)
    ensures GetValueByName(SetParameter(req, name, value).request, other) == GetValueByName(req, other)
  {
    var ps := SetParameter(req, name, value).request.params;
    match FindName(req.params, name)
    case Some(k) =>
      assert !EqualFold(ps[k].name, other);
      FindNameSame(req.params, ps, other, k);
    case None =>
      if |req.params| != MaxCgiParams {
        assert !EqualFold(ps[|req.params|].name, other);
        assert ps[..|req.params|] == req.params;
        FindNamePrefix(req.params, ps, other);
      }
  }

  /** The first match is the one at `k` when no earlier name matches. */
  lemma {:induction false} FindNameFirst(params: seq<Param>, name: string, k: nat)
    requires k < |params| && EqualFold(params[k].name, name)
    requires forall j :: 0 <= j < k ==> !EqualFold(params[j].name, name)
    ensures FindName(params, name) == Some(k)
    decreases k
  {
    if k > 0 {
      FindNameFirst(params[1..], name, k - 1);
    }
  }

  /** Two stores that differ only at a slot `k` whose names both miss find
      `name` at the same place. */
  lemma {:induction false} FindNameSame(ps: seq<Param>, qs: seq<Param>, name: string, k: nat)
    requires |ps| == |qs| && k < |ps|
    requires forall j :: 0 <= j < |ps| && j != k ==> qs[j] == ps[j]
    requires !EqualFold(ps[k].name, name) && !EqualFold(qs[k].name, name)
    ensures FindName(qs, name) == FindName(ps, name)
    decreases |ps|
  {
    if |ps| > 0 && k > 0 {
      FindNameSame(ps[1..], qs[1..], name, k - 1);
    } else if |ps| > 0 {
      assert ps[1..] == qs[1..];
    }
  }

  /** Appending a parameter whose name misses does not change where `name`
      is found. */
  lemma {:induction false} FindNamePrefix(ps: seq<Param>, qs: seq<Param>, name: string)
    requires |qs| == |ps| + 1 && qs[..|ps|] == ps && !EqualFold(qs[|ps|].name, name)
    ensures FindName(qs, name) == FindName(ps, name)
    decreases |ps|
  {
    if |ps| > 0 {
      assert qs[1..][..|ps| - 1] == ps[1..];
      FindNamePrefix(ps[1..], qs[1..], name);
    }
  }
}
