/**
 * Raster queries of maprasterquery.c: the per-layer record of queried
 * pixels, the result cache it feeds, and the layer access functions that
 * present the queried pixels as shapes with attribute items.
 */
module MapRasterQuery {
  import opened Wrappers
  import opened CStrings
  import MapFile

  /** `MS_RESULTCACHEINCREMENT` of map.h: the step by which a result cache grows. */
  const ResultCacheIncrement: nat := 10

  /** The default `query_result_hard_max` of a raster layer. */
  const DefaultHardMax: int := 1000000

  /** Number of item slots `msRASTERLayerGetItems` allocates. */
  const ItemSlots: nat := 10

  // ---------------------------------------------------------------------
  // addResult
  // ---------------------------------------------------------------------

  datatype Member = Member(classIndex: int, shapeIndex: int, tileIndex: int)

  /** A `resultCacheObj`: the results held and the slots allocated. */
  datatype ResultCache = ResultCache(results: seq<Member>, cacheSize: nat)

  /** Every result sits in an allocated slot. */
  predicate Sized(c: ResultCache) { |c.results| <= c.cacheSize }

  /** `addResult`: the member goes at the end; when every slot is taken the
      cache first grows by one increment, and only then. */
  function AddResult(c: ResultCache, classIndex: int, shapeIndex: int, tileIndex: int): (r: ResultCache)
    requires Sized(c)
    ensures Sized(r)
    ensures r.results == c.results + [Member(classIndex, shapeIndex, tileIndex)]
    ensures r.cacheSize == c.cacheSize || r.cacheSize == c.cacheSize + ResultCacheIncrement
    ensures r.cacheSize > c.cacheSize <==> |c.results| == c.cacheSize
  {
    var size := if |c.results| == c.cacheSize then c.cacheSize + ResultCacheIncrement else c.cacheSize;
    ResultCache(c.results + [Member(classIndex, shapeIndex, tileIndex)], size)
  }

  /** Adding members one after another, as the query loop does. */
  function AddAll(c: ResultCache, ms: seq<Member>): (r: ResultCache)
    requires Sized(c)
    ensures Sized(r)
    ensures r.results == c.results + ms
    decreases |ms|
  {
    if |ms| == 0 then c
    else AddAll(AddResult(c, ms[0].classIndex, ms[0].shapeIndex, ms[0].tileIndex), ms[1..])
  }

  /** The slots a cache holds after `n` results were added to an empty one:
      `n` rounded up to a whole number of increments. */
  function RoundUp(n: nat): (r: nat)
    ensures n <= r < n + ResultCacheIncrement
    ensures r % ResultCacheIncrement == 0
  {
    (n + ResultCacheIncrement - 1) / ResultCacheIncrement * ResultCacheIncrement
  }

  /** One more result leaves the rounded-up size where it was, unless the
      cache was exactly full. */
  lemma RoundUpStep(n: nat)
    ensures RoundUp(n + 1) == (if RoundUp(n) == n then n + ResultCacheIncrement else RoundUp(n))
  {
  }

  /** A cache filled from empty never holds more than one increment of
      unused slots. */
  lemma {:induction false} AddAllFromEmpty(c: ResultCache, ms: seq<Member>)
    requires Sized(c) && c.cacheSize == RoundUp(|c.results|)
    ensures AddAll(c, ms).cacheSize == RoundUp(|c.results| + |ms|)
    decreases |ms|
  {
    if |ms| > 0 {
      var next := AddResult(c, ms[0].classIndex, ms[0].shapeIndex, ms[0].tileIndex);
      RoundUpStep(|c.results|);
      AddAllFromEmpty(next, ms[1..]);
    }
  }

  // ---------------------------------------------------------------------
  // rasterLayerInfo and msRasterLayerInfoInitialize
  // ---------------------------------------------------------------------

  /** One recorded pixel: its location, band values, class (when the layer
      classifies) and colour. */
  datatype Pixel = Pixel(x: real, y: real, values: seq<real>, cls: Option<int>,
                         red: int, green: int, blue: int)

  /** The parts of `rasterLayerInfo` the query keeps up to date. The
      per-pixel arrays are allocated once `allocMax` is positive;
      `classified` says whether the class array was allocated with them. */
  datatype RasterInfo = RasterInfo(
    bandCount: int, rangeMode: int, refcount: int, hardMax: int,
    allocMax: int, queryResults: int, nextShape: int,
    classified: bool, pixels: seq<Pixel>)

  /** The layer fields msRasterLayerInfoInitialize touches. */
  datatype RasterLayer = RasterLayer(info: Option<RasterInfo>, rasterConnection: bool)

  /** The record keeps its bookkeeping straight: one pixel per counted
      result, never more than the arrays hold, every pixel with the band
      count's values, a class exactly when the layer classifies. */
  predicate Valid(info: RasterInfo) {
    && 0 <= info.queryResults == |info.pixels|
    && info.queryResults <= info.allocMax
    && (info.allocMax == 0 ==> !info.classified)
    && (info.allocMax > 0 ==> info.bandCount >= 1)
    && (forall k :: 0 <= k < |info.pixels| ==>
          |info.pixels[k].values| == info.bandCount &&
          info.pixels[k].cls.Some? == info.classified)
  }

  /** Every recorded class is one of the layer's `n` classes. */
  predicate ClassesWithin(info: RasterInfo, n: int) {
    forall k :: 0 <= k < |info.pixels| && info.pixels[k].cls.Some? ==>
      0 <= info.pixels[k].cls.value < n
  }

  /** `msRasterLayerInfoInitialize`: an existing record stays as it is;
      otherwise a fresh one with no band count, no range mode, no
      references, and the hard maximum of the RASTER_QUERY_MAX_RESULT
      processing option read with `atoi`, or one million without it. */
  function Initialize(layer: RasterLayer, maxResult: Option<string>): (r: RasterLayer)
    ensures r.info.Some?
    ensures layer.info.Some? ==> r == layer
    ensures layer.info.None? ==>
              r.rasterConnection && Valid(r.info.value) && r.info.value.pixels == [] &&
              r.info.value.bandCount == -1 && r.info.value.rangeMode == -1 &&
              r.info.value.refcount == 0 && r.info.value.allocMax == 0
    ensures layer.info.None? && maxResult.None? ==> r.info.value.hardMax == DefaultHardMax
  {
    if layer.info.Some? then layer
    else
      var hardMax := if maxResult.Some? then Atoi(maxResult.value) else DefaultHardMax;
      RasterLayer(Some(RasterInfo(-1, -1, 0, hardMax, 0, 0, 0, false, [])), true)
  }

  /** A maximum written in decimal is the maximum the record keeps. */
  lemma InitializeHardMax(layer: RasterLayer, n: int)
    requires layer.info.None?
    ensures Initialize(layer, Some(IntToDecimal(n))).info.value.hardMax == n
  {
    AtoiOfDecimal(n);
  }

  /** Initializing twice is initializing once. */
  lemma InitializeIdempotent(layer: RasterLayer, m1: Option<string>, m2: Option<string>)
    ensures Initialize(Initialize(layer, m1), m2) == Initialize(layer, m1)
  {
  }

  // ---------------------------------------------------------------------
  // msRasterQueryAddPixel
  // ---------------------------------------------------------------------

  /** `(int) MAX(0, MIN(255, v))`: clamped to a byte, then truncated. */
  function Clamp(v: real): (r: int)
    ensures 0 <= r <= 255
    ensures v <= 0.0 ==> r == 0
    ensures v >= 255.0 ==> r == 255
    ensures 0.0 <= v <= 255.0 ==> r as real <= v < r as real + 1.0
  {
    var m := if 255.0 < v then 255.0 else v;
    var c := if 0.0 > m then 0.0 else m;
    c.Floor
  }

  /** A byte value passes the clamp unchanged. */
  lemma ClampByte(n: int)
    requires 0 <= n <= 255
    ensures Clamp(n as real) == n
  {
  }

  /** A colour table entry `GDALGetColorEntryAsRGB` fills in. */
  datatype ColorEntry = ColorEntry(c1: int, c2: int, c3: int, c4: int)

  /** The layer classes the query reads: the name and the first style's colour. */
  datatype LayerClass = LayerClass(name: Option<string>, color: MapFile.Color)

  /** What a pixel reads as: no data, or a class (when classifying) and a colour. */
  datatype Reading = NoData | Data(cls: Option<int>, red: int, green: int, blue: int)

  /** The classification and colour steps of msRasterQueryAddPixel. `p`
      is what `msGetClass_Float` gives for the first band (-1 for no class)
      and `table` the band's colour table lookup, if the band has one. */
  function Read(values: seq<real>, bandCount: int, classified: bool, classes: seq<LayerClass>,
                p: int, table: Option<int -> Option<ColorEntry>>): (r: Reading)
    requires |values| >= 1 && |values| == bandCount
    requires p == -1 || 0 <= p < |classes|
    ensures classified ==> (r.NoData? <==> p == -1)
    ensures classified && r.Data? ==>
              0 <= p < |classes| && r.cls == Some(p) &&
              r.red == classes[p].color.red && r.green == classes[p].color.green &&
              r.blue == classes[p].color.blue
    ensures !classified && table.Some? ==>
              (r.NoData? <==> table.value(values[0].Floor).None? || table.value(values[0].Floor).value.c4 == 0)
    ensures !classified && r.Data? ==> r.cls.None?
    ensures !classified && table.None? ==>
              r.Data? && 0 <= r.red <= 255 && 0 <= r.green <= 255 && 0 <= r.blue <= 255
    ensures !classified && table.None? && bandCount < 3 ==> r.red == r.green == r.blue
  {
    if classified then
      if p == -1 then NoData
      else
        var c := classes[p].color;
        Data(Some(p), c.red, c.green, c.blue)
    else if table.Some? then
      match table.value(values[0].Floor)
      case None => NoData
      case Some(e) => if e.c4 == 0 then NoData else Data(None, e.c1, e.c2, e.c3)
    else if bandCount >= 3 then
      Data(None, Clamp(values[0]), Clamp(values[1]), Clamp(values[2]))
    else
      var g := Clamp(values[0]);
      Data(None, g, g, g)
  }

  /** The array size after the allocation steps: two on first use, then
      twice plus a hundred whenever the counted results fill it. */
  function Grow(allocMax: int, queryResults: int): (r: int)
    requires 0 <= queryResults <= allocMax || allocMax == queryResults == 0
    ensures queryResults < r
    ensures allocMax <= r
  {
    var first := if allocMax == 0 then 2 else allocMax;
    if queryResults == first then first * 2 + 100 else first
  }

  /** The whole of one call: the record and the result cache afterwards. */
  datatype Added = Added(info: RasterInfo, cache: ResultCache)

  /** `msRasterQueryAddPixel`: nothing at the hard maximum; otherwise the
      arrays are allocated or grown, and a pixel with data is recorded and
      added to the result cache under the next shape index.
      `classOfFirst` is what `msGetClass_Float` gives for the first band. */
  function AddPixel(info: RasterInfo, cache: ResultCache, x: real, y: real, values: seq<real>,
                    classes: seq<LayerClass>, classOfFirst: int,
                    table: Option<int -> Option<ColorEntry>>): (r: Added)
    requires Valid(info) && Sized(cache)
    requires info.bandCount >= 1 && |values| == info.bandCount
    requires classOfFirst == -1 || 0 <= classOfFirst < |classes|
    ensures Valid(r.info) && Sized(r.cache)
    ensures info.queryResults == info.hardMax ==> r == Added(info, cache)
    ensures r.info.bandCount == info.bandCount && r.info.hardMax == info.hardMax &&
            r.info.refcount == info.refcount && r.info.nextShape == info.nextShape
    ensures |info.pixels| <= |r.info.pixels| <= |info.pixels| + 1 &&
            r.info.pixels[..|info.pixels|] == info.pixels
    ensures r.info.queryResults == info.queryResults ==> r.cache == cache
    ensures r.info.queryResults != info.queryResults ==>
              r.info.queryResults == info.queryResults + 1 &&
              r.cache.results == cache.results + [Member(0, info.queryResults, 0)] &&
              r.info.pixels[info.queryResults].x == x && r.info.pixels[info.queryResults].y == y &&
              r.info.pixels[info.queryResults].values == values &&
              (r.info.pixels[info.queryResults].cls.Some? ==>
                 r.info.pixels[info.queryResults].cls.value == classOfFirst != -1)
  {
    if info.queryResults == info.hardMax then Added(info, cache)
    else
      var classified := if info.allocMax == 0 then |classes| > 0 else info.classified;
      var allocMax := Grow(info.allocMax, info.queryResults);
      var reading := Read(values, info.bandCount, classified, classes, classOfFirst, table);
      var grown := info.(allocMax := allocMax, classified := classified);
      match reading
      case NoData => Added(grown, cache)
      case Data(cls, red, green, blue) =>
        var pixel := Pixel(x, y, values, cls, red, green, blue);
        Added(grown.(queryResults := info.queryResults + 1, pixels := info.pixels + [pixel]),
              AddResult(cache, 0, info.queryResults, 0))
  }

  /** The hard maximum bounds the count: a record at or under it stays at
      or under it. */
  lemma AddPixelWithinHardMax(info: RasterInfo, cache: ResultCache, x: real, y: real, values: seq<real>,
                              classes: seq<LayerClass>, classOfFirst: int,
                              table: Option<int -> Option<ColorEntry>>)
    requires Valid(info) && Sized(cache)
    requires info.bandCount >= 1 && |values| == info.bandCount
    requires classOfFirst == -1 || 0 <= classOfFirst < |classes|
    requires info.queryResults <= info.hardMax
    ensures AddPixel(info, cache, x, y, values, classes, classOfFirst, table).info.queryResults <= info.hardMax
  {
  }

  /** Shape index `k` of the result cache is the `k`-th recorded pixel. */
  predicate Indexed(info: RasterInfo, cache: ResultCache) {
    |cache.results| == info.queryResults &&
    forall k :: 0 <= k < |cache.results| ==> cache.results[k] == Member(0, k, 0)
  }

  /** Adding a pixel keeps the result cache and the pixel record in step. */
  lemma AddPixelIndexed(info: RasterInfo, cache: ResultCache, x: real, y: real, values: seq<real>,
                        classes: seq<LayerClass>, classOfFirst: int,
                        table: Option<int -> Option<ColorEntry>>)
    requires Valid(info) && Sized(cache) && Indexed(info, cache)
    requires info.bandCount >= 1 && |values| == info.bandCount
    requires classOfFirst == -1 || 0 <= classOfFirst < |classes|
    ensures Indexed(AddPixel(info, cache, x, y, values, classes, classOfFirst, table).info,
                    AddPixel(info, cache, x, y, values, classes, classOfFirst, table).cache)
  {
    var r := AddPixel(info, cache, x, y, values, classes, classOfFirst, table);
    if r.info.queryResults != info.queryResults {
      forall k | 0 <= k < |r.cache.results|
        ensures r.cache.results[k] == Member(0, k, 0)
      {
        if k < |cache.results| {
          assert r.cache.results[k] == cache.results[k];
        }
      }
    }
  }

  /** Classes recorded by a pixel are classes of the layer. */
  lemma AddPixelClassesWithin(info: RasterInfo, cache: ResultCache, x: real, y: real, values: seq<real>,
                              classes: seq<LayerClass>, classOfFirst: int,
                              table: Option<int -> Option<ColorEntry>>)
    requires Valid(info) && Sized(cache) && ClassesWithin(info, |classes|)
    requires info.bandCount >= 1 && |values| == info.bandCount
    requires classOfFirst == -1 || 0 <= classOfFirst < |classes|
    ensures ClassesWithin(AddPixel(info, cache, x, y, values, classes, classOfFirst, table).info, |classes|)
  {
    var r := AddPixel(info, cache, x, y, values, classes, classOfFirst, table);
    if |r.info.pixels| > |info.pixels| {
      forall k | 0 <= k < |r.info.pixels| && r.info.pixels[k].cls.Some?
        ensures 0 <= r.info.pixels[k].cls.value < |classes|
      {
        if k < |info.pixels| {
          assert r.info.pixels[k] == r.info.pixels[..|info.pixels|][k] == info.pixels[k];
        }
      }
    }
  }

  // ---------------------------------------------------------------------
  // msRASTERLayerOpen / msRASTERLayerClose / msRASTERLayerWhichShapes
  // ---------------------------------------------------------------------

  datatype Opened = Opened(info: Option<RasterInfo>, success: bool)

  /** `msRASTERLayerOpen`: one more reference; fails without a record. */
  function Open(info: Option<RasterInfo>): (r: Opened)
    ensures r.success <==> info.Some?
    ensures r.info.Some? <==> info.Some?
    ensures info.Some? ==> r.info.value.refcount == info.value.refcount + 1 &&
                           r.info.value.(refcount := 0) == info.value.(refcount := 0)
  {
    match info
    case None => Opened(None, false)
    case Some(i) => Opened(Some(i.(refcount := i.refcount + 1)), true)
  }

  /** `msRASTERLayerClose`: one reference less; the record is freed once
      the count goes below zero. */
  function Close(info: Option<RasterInfo>): (r: Option<RasterInfo>)
    ensures info.None? ==> r.None?
    ensures info.Some? ==> (r.None? <==> info.value.refcount < 1)
    ensures info.Some? && r.Some? ==> r.value == info.value.(refcount := info.value.refcount - 1)
  {
    match info
    case None => None
    case Some(i) => if i.refcount - 1 < 0 then None else Some(i.(refcount := i.refcount - 1))
  }

  /** Closing what was opened gives back the record unchanged. */
  lemma OpenClose(info: RasterInfo)
    requires info.refcount >= 0
    ensures Close(Open(Some(info)).info) == Some(info)
  {
  }

  /** The record made by msRasterLayerInfoInitialize survives one open and
      close and is freed by a second close. */
  lemma InitializedLifetime(layer: RasterLayer, m: Option<string>)
    requires layer.info.None?
    ensures Close(Open(Initialize(layer, m).info).info) == Initialize(layer, m).info
    ensures Close(Close(Open(Initialize(layer, m).info).info)) == None
  {
  }

  /** `msRASTERLayerWhichShapes`: the shape cursor goes back to the start. */
  function WhichShapes(info: RasterInfo): (r: RasterInfo)
    ensures r.nextShape == 0 && r.(nextShape := info.nextShape) == info
  {
    info.(nextShape := 0)
  }

  // ---------------------------------------------------------------------
  // msRASTERLayerGetItems
  // ---------------------------------------------------------------------

  /** The item name of band `i`, `sprintf("value_%d", i)`. */
  function ValueName(i: nat): string {
    "value_" + NatToDecimal(i)
  }

  /** The band item names from band `i` up to `n`. */
  function ValueNames(i: nat, n: int): (r: seq<string>)
    ensures |r| == if i < n then n - i else 0
    ensures forall k :: 0 <= k < |r| ==> r[k] == ValueName(i + k)
    decreases n - i
  {
    if i < n then [ValueName(i)] + ValueNames(i + 1, n) else []
  }

  /** The item names msRASTERLayerGetItems lists for a record: x, y, the
      band values one by one and together, class when classifying, and the
      colour; none before the arrays exist. */
  function ItemNames(info: RasterInfo): (r: seq<string>)
    requires Valid(info)
    ensures info.allocMax == 0 ==> r == []
    ensures info.allocMax > 0 && info.bandCount >= 0 ==>
              |r| == 6 + info.bandCount + (if info.classified then 1 else 0)
    ensures info.allocMax > 0 ==> |r| >= 6 && r[..2] == ["x", "y"] && r[|r| - 3..] == ["red", "green", "blue"]
    ensures info.allocMax > 0 ==> forall i :: 0 <= i < info.bandCount ==> r[2 + i] == ValueName(i)
    ensures "class" in r <==> info.classified
  {
    if info.allocMax == 0 then []
    else
      ["x", "y"] + ValueNames(0, info.bandCount) + ["values"]
      + (if info.classified then ["class"] else []) + ["red", "green", "blue"]
  }

  /** Writing names one after another into `ItemSlots` slots, as
      msRASTERLayerGetItems does: `None` once a name lands past the last
      slot. */
  function ItemsAsWritten(info: RasterInfo): (r: Option<seq<string>>)
    requires Valid(info)
    ensures r.Some? ==> r.value == ItemNames(info)
    ensures r.None? <==> |ItemNames(info)| > ItemSlots
  {
    var names := ItemNames(info);
    if |names| <= ItemSlots then Some(names) else None
  }

  /** A queried five-band raster needs eleven item slots, one more than
      msRASTERLayerGetItems allocates. */
  lemma ItemsAsWrittenOverflow(info: RasterInfo)
    requires Valid(info) && info.allocMax > 0 && info.bandCount == 5
    ensures |ItemNames(info)| >= 11
    ensures ItemsAsWritten(info).None?
  {
  }

  /** The same happens for a four-band raster in a classified layer. */
  lemma ItemsAsWrittenOverflowClassified(info: RasterInfo)
    requires Valid(info) && info.allocMax > 0 && info.bandCount == 4 && info.classified
    ensures ItemsAsWritten(info).None?
  {
  }

  /** `msRASTERLayerGetItems` with the item array sized to the names. */
  function GetItems(info: RasterInfo): (r: seq<string>)
    requires Valid(info)
    ensures |r| == |ItemNames(info)|
    ensures forall k :: 0 <= k < |r| ==> r[k] == ItemNames(info)[k]
  {
    ItemNames(info)
  }

  // ---------------------------------------------------------------------
  // msRASTERLayerGetShape / msRASTERLayerNextShape
  // ---------------------------------------------------------------------

  /** The band values of the recorded pixels laid end to end, as in `qc_values`. */
  function Flat(pixels: seq<Pixel>): (r: seq<real>)
    ensures |pixels| == 0 ==> r == []
    decreases |pixels|
  {
    if |pixels| == 0 then [] else Flat(pixels[..|pixels| - 1]) + pixels[|pixels| - 1].values
  }

  /** With `b` values per pixel, pixel `k`'s values start at `k * b`. */
  function Offset(k: nat, b: nat): nat { k * b }

  lemma {:induction false} FlatLength(pixels: seq<Pixel>, b: nat)
    requires forall k :: 0 <= k < |pixels| ==> |pixels[k].values| == b
    ensures |Flat(pixels)| == Offset(|pixels|, b)
    decreases |pixels|
  {
    if |pixels| > 0 {
      FlatLength(pixels[..|pixels| - 1], b);
    }
  }

  /** Value `i` of pixel `k` sits at `k * b + i` of the flat array. */
  lemma {:induction false} FlatAt(pixels: seq<Pixel>, b: nat, k: nat, i: nat)
    requires forall j :: 0 <= j < |pixels| ==> |pixels[j].values| == b
    requires k < |pixels| && i < b
    ensures Offset(k, b) + i < |Flat(pixels)|
    ensures Flat(pixels)[Offset(k, b) + i] == pixels[k].values[i]
    decreases |pixels|
  {
    var front := pixels[..|pixels| - 1];
    FlatLength(front, b);
    if k < |pixels| - 1 {
      FlatAt(front, b, k, i);
    } else {
      assert Offset(k, b) == |Flat(front)|;
    }
  }

  /** The band a `value_N` item names: `atoi` of the text after "value_". */
  function BandOfItem(item: string): int
    requires |item| >= 6
  {
    Atoi(item[6..])
  }

  /** The `value_N` lookup as written: `qc_values[record * band_count + N]`
      with no check on `N`; `None` when that lies outside the array. */
  function ValueItemAsWritten(info: RasterInfo, record: nat, band: int): (r: Option<real>)
    requires info.bandCount >= 0
  {
    var at := Offset(record, info.bandCount) + band;
    var flat := Flat(info.pixels);
    if 0 <= at < |flat| then Some(flat[at]) else None
  }

  /** On a one-band record of two pixels, `value_1` of the first pixel is
      the value of the second. */
  lemma ValueItemAsWrittenReadsNeighbour()
    ensures var p0 := Pixel(0.0, 0.0, [1.0], None, 1, 1, 1);
            var p1 := Pixel(1.0, 0.0, [2.0], None, 2, 2, 2);
            var info := RasterInfo(1, -1, 0, DefaultHardMax, 2, 2, 0, false, [p0, p1]);
            ValueItemAsWritten(info, 0, BandOfItem(ValueName(1))) == Some(2.0)
  {
    var p0 := Pixel(0.0, 0.0, [1.0], None, 1, 1, 1);
    var p1 := Pixel(1.0, 0.0, [2.0], None, 2, 2, 2);
    assert Flat([p0, p1]) == [1.0, 2.0] by {
      assert [p0, p1][..1] == [p0];
      assert [p0][..0] == [];
    }
    AtoiOfDecimal(1);
  }

  /** The `value_N` lookup limited to the pixel's own bands. */
  function ValueItem(info: RasterInfo, record: nat, band: int): (r: Option<real>)
    requires Valid(info) && record < info.queryResults
    ensures r.Some? <==> 0 <= band < info.bandCount
    ensures r.Some? ==> r.value == info.pixels[record].values[band]
  {
    if 0 <= band < info.bandCount then Some(info.pixels[record].values[band]) else None
  }

  /** Within the pixel's bands the unchecked lookup reads the right value. */
  lemma ValueItemAgrees(info: RasterInfo, record: nat, band: int)
    requires Valid(info) && record < info.queryResults && 0 <= band < info.bandCount
    ensures ValueItemAsWritten(info, record, band) == ValueItem(info, record, band)
  {
    FlatAt(info.pixels, info.bandCount, record, band);
  }

  /** The item text for a recorded pixel. `Fmt` stands for `%.8g`. */
  function ItemValue(info: RasterInfo, classes: seq<LayerClass>, item: string, record: nat,
                     fmt: real -> string): (r: string)
    requires Valid(info) && ClassesWithin(info, |classes|) && record < info.queryResults
  {
    var p := info.pixels[record];
    var arrays := info.allocMax > 0;
    if EqualFold(item, "x") && arrays then fmt(p.x)
    else if EqualFold(item, "y") && arrays then fmt(p.y)
    else if EqualFold(item, "values") && arrays then JoinWith(FmtAll(p.values, fmt), ",")
    else if StartsWithFold(item, "value_") && arrays then
      match ValueItem(info, record, BandOfItem(item))
      case Some(v) => fmt(v)
      case None => ""
    else if EqualFold(item, "class") && info.classified then
      var c := p.cls.value;
      match classes[c].name
      case Some(name) => if |name| <= 999 then name else name[..999]
      case None => IntToDecimal(c)
    else if EqualFold(item, "red") && arrays then IntToDecimal(p.red)
    else if EqualFold(item, "green") && arrays then IntToDecimal(p.green)
    else if EqualFold(item, "blue") && arrays then IntToDecimal(p.blue)
    else ""
  }

  /** Each value formatted. */
  function FmtAll(vs: seq<real>, fmt: real -> string): (r: seq<string>)
    ensures |r| == |vs|
    ensures forall k :: 0 <= k < |vs| ==> r[k] == fmt(vs[k])
  {
    if |vs| == 0 then [] else [fmt(vs[0])] + FmtAll(vs[1..], fmt)
  }

  /** `msRASTERLayerGetShape`: a failure for a record out of range,
      otherwise one text per requested item. */
  function GetShape(info: RasterInfo, classes: seq<LayerClass>, items: seq<string>, record: int,
                    fmt: real -> string): (r: Result<seq<string>, string>)
    requires Valid(info) && ClassesWithin(info, |classes|)
    ensures r.Failure? <==> !(0 <= record < info.queryResults)
    ensures r.Success? ==>
              |r.value| == |items| &&
              forall k :: 0 <= k < |items| ==> r.value[k] == ItemValue(info, classes, items[k], record, fmt)
  {
    if record < 0 || record >= info.queryResults then Failure("Out of range shape index requested.")
    else Success(seq(|items|, k requires 0 <= k < |items| => ItemValue(info, classes, items[k], record, fmt)))
  }

  /** The band item names are listed by GetItems, after x and y. */
  lemma ValueNameListed(info: RasterInfo, i: nat)
    requires Valid(info) && info.allocMax > 0 && i < info.bandCount
    ensures ValueName(i) in GetItems(info)
  {
    assert GetItems(info)[2 + i] == ValueName(i);
  }

  /** "value_" is already in lower case. */
  lemma ValuePrefixLower()
    ensures LowerAll("value_") == "value_"
  {
    LowerAllOfLower("value_");
  }

  /** A band item name is no other item name, starts with "value_", and
      `atoi` of its tail is the band. */
  lemma ValueNameParts(i: nat)
    ensures StartsWithFold(ValueName(i), "value_")
    ensures !EqualFold(ValueName(i), "x") && !EqualFold(ValueName(i), "y")
    ensures !EqualFold(ValueName(i), "values")
    ensures BandOfItem(ValueName(i)) == i
  {
    var item := ValueName(i);
    assert item[..6] == "value_";
    ValuePrefixLower();
    assert item[6..] == NatToDecimal(i);
    AtoiOfDecimal(i);
  }

  /** Every band item GetItems lists reads that band of the pixel. */
  lemma GetItemsValueRoundTrip(info: RasterInfo, classes: seq<LayerClass>, record: nat, i: nat,
                               fmt: real -> string)
    requires Valid(info) && ClassesWithin(info, |classes|) && record < info.queryResults
    requires i < info.bandCount
    ensures ValueName(i) in GetItems(info)
    ensures ItemValue(info, classes, ValueName(i), record, fmt) == fmt(info.pixels[record].values[i])
  {
    ValueNameListed(info, i);
    ValueNameParts(i);
  }

  /** What msRASTERLayerNextShape gives: the end, or the shape of a record. */
  datatype Next = Done | Shape(record: int, values: seq<string>)

  /** `msRASTERLayerNextShape`: the shape under the cursor, which moves on;
      the end once the cursor leaves the counted results. */
  function NextShape(info: RasterInfo, classes: seq<LayerClass>, items: seq<string>,
                     fmt: real -> string): (r: (Next, RasterInfo))
    requires Valid(info) && ClassesWithin(info, |classes|)
    ensures r.0.Done? <==> !(0 <= info.nextShape < info.queryResults)
    ensures r.0.Done? ==> r.1 == info
    ensures r.0.Shape? ==> r.0.record == info.nextShape && r.1 == info.(nextShape := info.nextShape + 1) &&
                           Success(r.0.values) == GetShape(info, classes, items, info.nextShape, fmt)
  {
    if info.nextShape < 0 || info.nextShape >= info.queryResults then (Done, info)
    else
      var shape := GetShape(info, classes, items, info.nextShape, fmt);
      (Shape(info.nextShape, shape.value), info.(nextShape := info.nextShape + 1))
  }

  /** The records the cursor visits from where it stands to the end. */
  function Drain(info: RasterInfo, classes: seq<LayerClass>, items: seq<string>,
                 fmt: real -> string): seq<int>
    requires Valid(info) && ClassesWithin(info, |classes|)
    decreases info.queryResults - info.nextShape
  {
    var (n, after) := NextShape(info, classes, items, fmt);
    match n
    case Done => []
    case Shape(record, _) => [record] + Drain(after, classes, items, fmt)
  }

  /** The records from `from` up to `to`. */
  function Range(lo: int, hi: int): (r: seq<int>)
    ensures |r| == if lo < hi then hi - lo else 0
    ensures forall k :: 0 <= k < |r| ==> r[k] == lo + k
    decreases hi - lo
  {
    if lo < hi then [lo] + Range(lo + 1, hi) else []
  }

  /** From a cursor inside the results, every later record comes once, in order. */
  lemma {:induction false} DrainFrom(info: RasterInfo, classes: seq<LayerClass>, items: seq<string>,
                                     fmt: real -> string)
    requires Valid(info) && ClassesWithin(info, |classes|) && info.nextShape >= 0
    ensures Drain(info, classes, items, fmt) == Range(info.nextShape, info.queryResults)
    decreases info.queryResults - info.nextShape
  {
    if info.nextShape < info.queryResults {
      DrainFrom(info.(nextShape := info.nextShape + 1), classes, items, fmt);
    }
  }

  /** After msRASTERLayerWhichShapes, NextShape visits every queried pixel
      once, in the order it was recorded. */
  lemma WhichShapesVisitsAll(info: RasterInfo, classes: seq<LayerClass>, items: seq<string>,
                             fmt: real -> string)
    requires Valid(info) && ClassesWithin(info, |classes|)
    ensures Drain(WhichShapes(info), classes, items, fmt) == Range(0, info.queryResults)
  {
    DrainFrom(WhichShapes(info), classes, items, fmt);
  }
}
