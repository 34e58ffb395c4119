/**
 * The renderer-independent helpers of maprendering.c that carry logic of
 * their own: the label style computed from a label, and the per-image
 * cache of rendered symbol tiles (a list with the most recently rendered
 * tile first, bounded by MS_IMAGECACHESIZE).
 *
 * Images are identified by a number; what a renderer draws into a tile is
 * not modelled. A symbol is compared by identity (the C code compares
 * pointers), which the model keeps as the symbol's `id`.
 */
module MapRendering {
  import opened Wrappers
  import HashTable
  import CNumbers

  /** colorObj: red, green, blue and alpha. */
  datatype Rgba = Rgba(red: int, green: int, blue: int, alpha: int)

  /** MS_VALID_COLOR: no colour component is the unset marker -1 (alpha is
      not looked at). */
  predicate ValidColor(c: Rgba) {
    c.red != -1 && c.green != -1 && c.blue != -1
  }

  /** MS_DEG_TO_RAD as written in map.h. */
  const DegToRad: real := 0.0174532925199432958

  /** `MS_MIN(MS_MAX(v, lo), hi)`. */
  function Clamp(v: real, lo: real, hi: real): (r: real)
    ensures lo <= hi ==> lo <= r <= hi
    ensures lo <= v <= hi ==> r == v
  {
    var m := if v > lo then v else lo;
    if m < hi then m else hi
  }

  // ---------------------------------------------------------------------
  // Label style
  // ---------------------------------------------------------------------

  datatype LabelType = TrueType | Bitmap

  /** The fields of labelObj that computeLabelStyle reads. */
  datatype Label = Label(color: Rgba, size: real, kind: LabelType, minsize: real, maxsize: real,
                         font: Option<string>, angle: real)

  /** labelStyleObj: the font is the file the fontset maps the label's font
      name to, None when the style has no font. */
  datatype LabelStyle = LabelStyle(size: real, font: Option<string>, rotation: real)

  /** Why the label style could not be computed. */
  datatype StyleError = InvalidColor | UnsetSize | NoFontset | NoFont | FontNotFound

  /** `computeLabelStyle`: the label's colour must be set and its size must
      not be -1; a TrueType label is scaled, clamped to its size range and
      needs a fontset that knows its font. `fontset` None is a NULL
      fontset. */
  function ComputeLabelStyle(l: Label, fontset: Option<HashTable.Table>, scalefactor: real): (r: Result<LabelStyle, StyleError>)
    ensures r.Success? <==>
      && ValidColor(l.color) && l.size != -1.0
      && (l.kind == TrueType ==> fontset.Some? && l.font.Some? && HashTable.Lookup(fontset.value, l.font.value).Some?)
    ensures r.Failure? ==> (r.error == InvalidColor <==> !ValidColor(l.color))
    ensures r.Success? ==> r.value.rotation == l.angle * DegToRad
    ensures r.Success? && l.kind == Bitmap ==> r.value.size == l.size && r.value.font == None
    ensures r.Success? && l.kind == TrueType ==>
      && r.value.font == HashTable.Lookup(fontset.value, l.font.value)
      && (l.minsize <= l.maxsize ==> l.minsize <= r.value.size <= l.maxsize)
      && (l.minsize <= l.size * scalefactor <= l.maxsize ==> r.value.size == l.size * scalefactor)
  {
    if !ValidColor(l.color) then Failure(InvalidColor)
    else if l.size == -1.0 then Failure(UnsetSize)
    else if l.kind == Bitmap then Success(LabelStyle(l.size, None, l.angle * DegToRad))
    else
      var size := Clamp(l.size * scalefactor, l.minsize, l.maxsize);
      if fontset.None? then assert l.kind == TrueType; Failure(NoFontset)
      else if l.font.None? then Failure(NoFont)
      else match HashTable.Lookup(fontset.value, l.font.value)
        case None => Failure(FontNotFound)
        case Some(file) => Success(LabelStyle(size, Some(file), l.angle * DegToRad))
  }

  /** Scaling does not move a TrueType label whose size already lies in its
      range when the scale factor is 1, and a bitmap label never scales. */
  lemma LabelStyleUnscaled(l: Label, fontset: Option<HashTable.Table>, scalefactor: real)
    requires ComputeLabelStyle(l, fontset, scalefactor).Success?
    requires l.kind == Bitmap || (scalefactor == 1.0 && l.minsize <= l.size <= l.maxsize)
    ensures ComputeLabelStyle(l, fontset, scalefactor).value.size == l.size
  {
  }

  // ---------------------------------------------------------------------
  // Tile cache
  // ---------------------------------------------------------------------

  datatype SymbolType = TrueTypeSymbol | PixmapSymbol | EllipseSymbol | VectorSymbol | OtherSymbol

  /** The fields of symbolObj the tile cache reads. */
  datatype Symbol = Symbol(id: nat, kind: SymbolType, sizex: real, sizey: real)

  /** symbolStyleObj: a colour None is a NULL colour pointer, which the
      cache lookup does not compare. */
  datatype SymbolStyle = SymbolStyle(color: Option<Rgba>, backgroundcolor: Option<Rgba>, outlinecolor: Option<Rgba>,
                                     outlinewidth: real, rotation: real, scale: real)

  /** tileCacheObj without its `next` link: the list order is the order of
      the sequence holding the tiles. */
  datatype Tile = Tile(image: nat, symbol: nat, width: int, height: int,
                       outlinewidth: real, rotation: real, scale: real,
                       color: Rgba, backgroundcolor: Rgba, outlinecolor: Rgba)

  /** The image's `tilecache` list and its `ntiles` counter. */
  datatype Cache = Cache(tiles: seq<Tile>, ntiles: int)

  /** The counter counts the list and the list never outgrows the cache. */
  predicate Good(c: Cache, capacity: nat) {
    c.ntiles == |c.tiles| && |c.tiles| <= capacity
  }

  /** The test searchTileCache applies to one tile: every key agrees, and
      every colour the style sets agrees in all four components. */
  predicate Matches(t: Tile, symbol: nat, s: SymbolStyle, width: int, height: int) {
    && t.width == width && t.height == height && t.symbol == symbol
    && t.outlinewidth == s.outlinewidth && t.rotation == s.rotation && t.scale == s.scale
    && (s.color.None? || t.color == s.color.value)
    && (s.backgroundcolor.None? || t.backgroundcolor == s.backgroundcolor.value)
    && (s.outlinecolor.None? || t.outlinecolor == s.outlinecolor.value)
  }

  /** `searchTileCache`: the position of the first matching tile, None for
      a NULL result. */
  function Search(tiles: seq<Tile>, symbol: nat, s: SymbolStyle, width: int, height: int): (r: Option<nat>)
    ensures r.Some? ==> r.value < |tiles| && Matches(tiles[r.value], symbol, s, width, height)
    ensures r.Some? ==> forall k :: 0 <= k < r.value ==> !Matches(tiles[k], symbol, s, width, height)
    ensures r.None? ==> forall k :: 0 <= k < |tiles| ==> !Matches(tiles[k], symbol, s, width, height)
    decreases |tiles|
  {
    if |tiles| == 0 then None
    else if Matches(tiles[0], symbol, s, width, height) then Some(0)
    else match Search(tiles[1..], symbol, s, width, height)
      case None => None
      case Some(k) => Some(k + 1)
  }

  /** The node `slot` filled with a new entry: a colour the style leaves
      unset keeps whatever the node held before. */
  function Fill(slot: Tile, image: nat, symbol: nat, s: SymbolStyle, width: int, height: int): (r: Tile)
    ensures Matches(r, symbol, s, width, height) && r.image == image
  {
    Tile(image, symbol, width, height, s.outlinewidth, s.rotation, s.scale,
         if s.color.Some? then s.color.value else slot.color,
         if s.backgroundcolor.Some? then s.backgroundcolor.value else slot.backgroundcolor,
         if s.outlinecolor.Some? then s.outlinecolor.value else slot.outlinecolor)
  }

  /** `addTileCache`. Below capacity a new node is put at the head and
      `ntiles` grows; at capacity the last node is unlinked, refilled and
      put at the head, and `ntiles` stays. `blank` is what a newly
      allocated node holds before it is filled. The capacity must leave the
      last node a predecessor, which the C walk relies on. */
  function Add(c: Cache, capacity: nat, image: nat, symbol: nat, s: SymbolStyle, width: int, height: int, blank: Tile): (r: Cache)
    requires capacity >= 2 && Good(c, capacity)
    ensures Good(r, capacity)
    ensures |r.tiles| > 0 && r.tiles[0].image == image && Matches(r.tiles[0], symbol, s, width, height)
    ensures c.ntiles < capacity ==> r.ntiles == c.ntiles + 1 && r.tiles[1..] == c.tiles
    ensures c.ntiles >= capacity ==> r.ntiles == c.ntiles && r.tiles[1..] == c.tiles[..|c.tiles| - 1]
  {
    if c.ntiles >= capacity then
      var n := |c.tiles| - 1;
      Cache([Fill(c.tiles[n], image, symbol, s, width, height)] + c.tiles[..n], c.ntiles)
    else
      Cache([Fill(blank, image, symbol, s, width, height)] + c.tiles, c.ntiles + 1)
  }

  /** A search with the keys just added finds the new head. */
  lemma SearchAfterAdd(c: Cache, capacity: nat, image: nat, symbol: nat, s: SymbolStyle, width: int, height: int, blank: Tile)
    requires capacity >= 2 && Good(c, capacity)
    ensures var r := Add(c, capacity, image, symbol, s, width, height, blank);
      Search(r.tiles, symbol, s, width, height) == Some(0) && r.tiles[0].image == image
  {
  }

  /** One tile to add: the image rendered for the keys, and the node a
      blank allocation would return. */
  datatype Entry = Entry(image: nat, symbol: nat, style: SymbolStyle, width: int, height: int, blank: Tile)

  /** The cache after adding `entries` in order. */
  function AddAll(c: Cache, capacity: nat, entries: seq<Entry>): (r: Cache)
    requires capacity >= 2 && Good(c, capacity)
    ensures Good(r, capacity)
    decreases |entries|
  {
    if |entries| == 0 then c
    else
      var e := entries[0];
      AddAll(Add(c, capacity, e.image, e.symbol, e.style, e.width, e.height, e.blank), capacity, entries[1..])
  }

  /** Filling an empty cache keeps the images of the last `capacity`
      additions, newest first, and counts them. */
  lemma {:induction false} AddAllKeepsNewest(capacity: nat, entries: seq<Entry>)
    requires capacity >= 2
    ensures var r := AddAll(Cache([], 0), capacity, entries);
      && |r.tiles| == (if |entries| < capacity then |entries| else capacity)
      && forall k :: 0 <= k < |r.tiles| ==> r.tiles[k].image == entries[|entries| - 1 - k].image
    decreases |entries|
  {
    if |entries| > 0 {
      var n := |entries| - 1;
      AddAllKeepsNewest(capacity, entries[..n]);
      AddAllSnoc(Cache([], 0), capacity, entries[..n], entries[n]);
      assert entries[..n] + [entries[n]] == entries;
      var p := AddAll(Cache([], 0), capacity, entries[..n]);
      var r := AddAll(Cache([], 0), capacity, entries);
      forall k | 0 <= k < |r.tiles|
        ensures r.tiles[k].image == entries[|entries| - 1 - k].image
      {
        if k > 0 {
          assert r.tiles[k] == r.tiles[1..][k - 1];
          assert r.tiles[k].image == p.tiles[k - 1].image;
        }
      }
    }
  }

  /** Adding one more entry after a run of additions. */
  lemma {:induction false} AddAllSnoc(c: Cache, capacity: nat, entries: seq<Entry>, e: Entry)
    requires capacity >= 2 && Good(c, capacity)
    ensures AddAll(c, capacity, entries + [e])
         == Add(AddAll(c, capacity, entries), capacity, e.image, e.symbol, e.style, e.width, e.height, e.blank)
    decreases |entries|
  {
    if |entries| > 0 {
      var h := entries[0];
      assert (entries + [e])[1..] == entries[1..] + [e];
      AddAllSnoc(Add(c, capacity, h.image, h.symbol, h.style, h.width, h.height, h.blank), capacity, entries[1..], e);
    }
  }

  /** What getTile gives back: the cache afterwards and the tile image,
      None for a NULL result. */
  datatype Got = Got(cache: Cache, image: Option<nat>)

  /** The tile side used when a width or height of -1 asks for the symbol's
      own size: the larger of its two sizes, truncated to an `int`. */
  function Side(symbol: Symbol): (r: int)
    ensures var m := if symbol.sizex > symbol.sizey then symbol.sizex else symbol.sizey;
      m >= 0.0 ==> r as real <= m < r as real + 1.0
  {
    CNumbers.TruncReal(if symbol.sizex > symbol.sizey then symbol.sizex else symbol.sizey)
  }

  /** The width and height getTile looks up. */
  function TileSize(symbol: Symbol, width: int, height: int): (int, int) {
    if width == -1 || height == -1 then (Side(symbol), Side(symbol)) else (width, height)
  }

  /** `getTile`: a cached tile with the same keys is returned as it is;
      otherwise the tile is rendered, added to the cache and returned.
      `rendered` is the image the renderer produces; `preloaded` is
      whether loading a pixmap symbol's image succeeds, without which the
      call returns NULL and the cache stays as it was. */
  function GetTile(c: Cache, capacity: nat, symbol: Symbol, s: SymbolStyle, width: int, height: int,
                   preloaded: bool, rendered: nat, blank: Tile): (r: Got)
    requires capacity >= 2 && Good(c, capacity)
    ensures Good(r.cache, capacity)
    ensures var (w, h) := TileSize(symbol, width, height);
      match Search(c.tiles, symbol.id, s, w, h)
      case Some(k) => r == Got(c, Some(c.tiles[k].image))
      case None =>
        if symbol.kind == PixmapSymbol && !preloaded then r == Got(c, None)
        else
          && r.image == Some(rendered)
          && Search(r.cache.tiles, symbol.id, s, w, h) == Some(0) && r.cache.tiles[0].image == rendered
          && r.cache.tiles[1..] == (if c.ntiles < capacity then c.tiles else c.tiles[..|c.tiles| - 1])
  {
    var (w, h) := TileSize(symbol, width, height);
    match Search(c.tiles, symbol.id, s, w, h)
    case Some(k) => Got(c, Some(c.tiles[k].image))
    case None =>
      if symbol.kind == PixmapSymbol && !preloaded then Got(c, None)
      else
        var r := Add(c, capacity, rendered, symbol.id, s, w, h, blank);
        SearchAfterAdd(c, capacity, rendered, symbol.id, s, w, h, blank);
        Got(r, Some(rendered))
  }

  /** Asking again for a tile just returned finds it in the cache: the
      second call returns the same image and changes nothing. */
  lemma GetTileTwice(c: Cache, capacity: nat, symbol: Symbol, s: SymbolStyle, width: int, height: int,
                     preloaded: bool, rendered: nat, blank: Tile, preloaded': bool, rendered': nat, blank': Tile)
    requires capacity >= 2 && Good(c, capacity)
    requires GetTile(c, capacity, symbol, s, width, height, preloaded, rendered, blank).image.Some?
    ensures var g := GetTile(c, capacity, symbol, s, width, height, preloaded, rendered, blank);
      GetTile(g.cache, capacity, symbol, s, width, height, preloaded', rendered', blank') == g
  {
  }

  /** A width or height of -1 is a request for a square tile of the
      symbol's own size. */
  lemma GetTileDefaultSize(c: Cache, capacity: nat, symbol: Symbol, s: SymbolStyle, width: int, height: int,
                           preloaded: bool, rendered: nat, blank: Tile)
    requires capacity >= 2 && Good(c, capacity)
    requires width == -1 || height == -1
    ensures GetTile(c, capacity, symbol, s, width, height, preloaded, rendered, blank)
         == GetTile(c, capacity, symbol, s, Side(symbol), Side(symbol), preloaded, rendered, blank)
  {
    if Side(symbol) == -1 {
      assert TileSize(symbol, Side(symbol), Side(symbol)) == (Side(symbol), Side(symbol));
    }
  }
}
