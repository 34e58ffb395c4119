/**
 * The palette side of mapraster.c: choosing the class of a raster colour
 * (msGetClass) and finding or allocating a colour in a GD palette
 * (msAddColorGD).
 */
module MapRaster {
  import opened Wrappers
  import opened CStrings
  import MapString
  import MapFile

  // ---------------------------------------------------------------------
  // msGetClass
  // ---------------------------------------------------------------------

  /** A colorObj with its pen (the pixel value). */
  datatype PixelColor = PixelColor(red: int, green: int, blue: int, pen: int)

  /** The expression of a raster class: its type and its text (None for NULL). */
  datatype RasterClass = RasterClass(kind: MapFile.ExprType, text: Option<string>)

  /** How a class's expression judges a colour. `Fails` is a regular
      expression that does not compile or a logical expression that does
      not parse; both end the search with -1. */
  datatype Verdict = Matches | Misses | Fails

  /** The colour as "%d %d %d" writes it. */
  function RgbText(c: PixelColor): string {
    JoinWith([IntToDecimal(c.red), IntToDecimal(c.green), IntToDecimal(c.blue)], " ")
  }

  /** The pen as "%d" writes it. */
  function PenText(c: PixelColor): string {
    IntToDecimal(c.pen)
  }

  /** The verdict of one class on `color`. A class without expression
      text always matches; a string expression matches the colour written
      as "r g b" or the pen written as a number; a regular or logical
      expression gives the verdict `v` taken from outside; any other type
      does not match. */
  function ClassVerdict(c: RasterClass, color: PixelColor, v: Verdict): (r: Verdict)
    ensures c.text.None? ==> r == Matches
    ensures c.text.Some? && c.kind == MapFile.Str ==>
              (r == Matches <==> c.text.value == RgbText(color) || c.text.value == PenText(color)) &&
              r != Fails
    ensures c.text.Some? && c.kind !in {MapFile.Str, MapFile.Regex, MapFile.Expression} ==> r == Misses
  {
    if c.text.None? then Matches
    else match c.kind
      case Str => if c.text.value == RgbText(color) || c.text.value == PenText(color) then Matches else Misses
      case Regex => v
      case Expression => v
      case _ => Misses
  }

  /** The loop of msGetClass from class `i` on. */
  function GetClassFrom(classes: seq<RasterClass>, color: PixelColor, outside: nat -> Verdict, i: nat): (r: int)
    requires i <= |classes|
    ensures r == -1 || i <= r < |classes|
    ensures r >= 0 ==> ClassVerdict(classes[r], color, outside(r)) == Matches &&
                       forall j :: i <= j < r ==> ClassVerdict(classes[j], color, outside(j)) == Misses
    ensures r == -1 <==>
              (forall j :: i <= j < |classes| ==> ClassVerdict(classes[j], color, outside(j)) != Matches) ||
              (exists j :: i <= j < |classes| && ClassVerdict(classes[j], color, outside(j)) == Fails &&
                 forall k :: i <= k < j ==> ClassVerdict(classes[k], color, outside(k)) == Misses)
    decreases |classes| - i
  {
    if i == |classes| then -1
    else
      match ClassVerdict(classes[i], color, outside(i))
      case Matches => i
      case Fails => -1
      case Misses => GetClassFrom(classes, color, outside, i + 1)
  }

  /** `msGetClass`: a layer whose only class has no expression takes it
      without looking at the colour; otherwise a NULL colour has no class,
      and the first class that matches is chosen, unless a class before it
      fails. -1 means no class. */
  function GetClass(classes: seq<RasterClass>, color: Option<PixelColor>, outside: nat -> Verdict): (r: int)
    ensures -1 <= r < |classes|
    ensures |classes| == 1 && classes[0].text.None? ==> r == 0
    ensures !(|classes| == 1 && classes[0].text.None?) && color.None? ==> r == -1
    ensures color.Some? && r >= 0 ==> ClassVerdict(classes[r], color.value, outside(r)) == Matches
    ensures color.Some? && r >= 0 ==>
              forall j :: 0 <= j < r ==> ClassVerdict(classes[j], color.value, outside(j)) == Misses
    ensures color.Some? && !(|classes| == 1 && classes[0].text.None?) ==>
              ((forall j :: 0 <= j < |classes| ==> ClassVerdict(classes[j], color.value, outside(j)) == Misses) ==> r == -1)
  {
    if |classes| == 1 && classes[0].text.None? then 0
    else if color.None? then -1
    else GetClassFrom(classes, color.value, outside, 0)
  }

  /** Decimal renderings of different numbers differ. */
  lemma IntToDecimalInjective(a: int, b: int)
    requires IntToDecimal(a) == IntToDecimal(b)
    ensures a == b
  {
    if a >= 0 && b >= 0 {
      DecimalRoundTrip(a);
      DecimalRoundTrip(b);
    } else if a < 0 && b < 0 {
      assert IntToDecimal(a)[1..] == NatToDecimal(-a);
      assert IntToDecimal(b)[1..] == NatToDecimal(-b);
      DecimalRoundTrip(-a);
      DecimalRoundTrip(-b);
    }
  }

  /** A decimal rendering holds no space. */
  lemma DecimalNoSpace(i: int)
    ensures ' ' !in IntToDecimal(i)
  {
    var s := IntToDecimal(i);
    if ' ' in s {
      var k :| 0 <= k < |s| && s[k] == ' ';
      assert false;
    }
  }

  /** "r g b" determines the three components. */
  lemma RgbTextInjective(a: PixelColor, b: PixelColor)
    requires RgbText(a) == RgbText(b)
    ensures a.red == b.red && a.green == b.green && a.blue == b.blue
  {
    var pa := [IntToDecimal(a.red), IntToDecimal(a.green), IntToDecimal(a.blue)];
    var pb := [IntToDecimal(b.red), IntToDecimal(b.green), IntToDecimal(b.blue)];
    DecimalNoSpace(a.red); DecimalNoSpace(a.green); DecimalNoSpace(a.blue);
    DecimalNoSpace(b.red); DecimalNoSpace(b.green); DecimalNoSpace(b.blue);
    MapString.SplitJoin(pa, ' ');
    MapString.SplitJoin(pb, ' ');
    assert pa == pb;
    IntToDecimalInjective(a.red, b.red);
    IntToDecimalInjective(a.green, b.green);
    IntToDecimalInjective(a.blue, b.blue);
  }

  /** A string class written as "r g b" for some colour matches exactly the
      colours with those three components, whatever their pen. */
  lemma StringClassMatchesComponents(x: PixelColor, color: PixelColor, v: Verdict)
    ensures ClassVerdict(RasterClass(MapFile.Str, Some(RgbText(x))), color, v) == Matches <==>
              x.red == color.red && x.green == color.green && x.blue == color.blue
  {
    var t := RgbText(x);
    assert t[|IntToDecimal(x.red)|] == ' ';
    DecimalNoSpace(color.pen);
    assert t != PenText(color);
    if t == RgbText(color) {
      RgbTextInjective(x, color);
    }
  }

  // ---------------------------------------------------------------------
  // msAddColorGD
  // ---------------------------------------------------------------------

  /** gd's gdMaxColors: the size of a palette. */
  const GdMaxColors := 256

  /** The largest squared distance between two colours with components in
      0..255, the starting value of the nearest-colour search. */
  const MaxDistance := 3 * 255 * 255

  /** A palette slot of a GD image: its colour and whether it is open (free). */
  datatype Entry = Entry(color: MapFile.Color, open: bool)

  /** The colour requested after the background perturbation: with a
      transparent output format a request equal to the background colour is
      nudged, keeping greys grey; any other request is unchanged. */
  function Perturb(c: MapFile.Color, transparent: bool, background: MapFile.Color): (r: MapFile.Color)
    ensures transparent ==> r != background
    ensures !(transparent && c == background) ==> r == c
    ensures c.red == c.green == c.blue ==> r.red == r.green == r.blue
  {
    if !(transparent && c == background) then c
    else if c.red == 0 && c.green == 0 && c.blue == 0 then MapFile.Color(1, 1, 1)
    else if c.red == c.green && c.red == c.blue then MapFile.Color(c.red - 1, c.red - 1, c.red - 1)
    else if c.red == 0 then c.(red := 1)
    else c.(red := c.red - 1)
  }

  /** The square of one component difference. */
  function Square(x: int): (r: int)
    ensures r >= 0
    ensures r == 0 <==> x == 0
  {
    if x != 0 then assert x * x > 0; x * x else x * x
  }

  /** The squared distance between two colours. */
  function Distance(a: MapFile.Color, b: MapFile.Color): (r: int)
    ensures r >= 0
    ensures r == 0 <==> a == b
  {
    Square(a.red - b.red) + Square(a.green - b.green) + Square(a.blue - b.blue)
  }

  /** A slot the search may return: in use, and not the background colour
      of a transparent image. */
  predicate Candidate(p: seq<Entry>, c: nat, transparent: bool, background: MapFile.Color)
    requires c < |p|
  {
    !p[c].open && !(transparent && p[c].color == background)
  }

  /** A slot in use that already holds the requested colour. */
  predicate Exact(p: seq<Entry>, c: nat, req: MapFile.Color, transparent: bool, background: MapFile.Color)
    requires c < |p|
  {
    Candidate(p, c, transparent, background) && p[c].color == req
  }

  /** The last open slot before `n`, or -1. */
  function LastOpen(p: seq<Entry>, n: nat): (r: int)
    requires n <= |p|
    ensures -1 <= r < n
    ensures r >= 0 ==> p[r].open && forall c :: r < c < n ==> !p[c].open
    ensures r == -1 ==> forall c :: 0 <= c < n ==> !p[c].open
  {
    if n == 0 then -1
    else if p[n - 1].open then n - 1
    else LastOpen(p, n - 1)
  }

  /** A distance below the current best: any distance when there is no
      bound yet, otherwise a strictly smaller one. */
  predicate Under(best: Option<int>, d: int) {
    best.None? || d < best.value
  }

  /** `ct` is the nearest candidate before `n`: the first of the candidates
      at least distance, provided that distance is under `init`; -1 when
      no candidate is under `init`. */
  predicate Nearest(p: seq<Entry>, n: nat, ct: int, req: MapFile.Color, transparent: bool,
                    background: MapFile.Color, init: Option<int>)
    requires n <= |p|
  {
    (ct == -1 ==> forall c :: 0 <= c < n && Candidate(p, c, transparent, background) ==>
                    !Under(init, Distance(p[c].color, req))) &&
    (ct >= 0 ==> ct < n && Candidate(p, ct, transparent, background) &&
                 Under(init, Distance(p[ct].color, req)) &&
                 (forall c :: 0 <= c < n && Candidate(p, c, transparent, background) ==>
                    Distance(p[c].color, req) >= Distance(p[ct].color, req)) &&
                 (forall c :: 0 <= c < ct && Candidate(p, c, transparent, background) ==>
                    Distance(p[c].color, req) > Distance(p[ct].color, req))) &&
    ct >= -1
  }

  /** A slot that is not a candidate leaves the nearest one as it was. */
  lemma NearestSkip(p: seq<Entry>, n: nat, ct: int, req: MapFile.Color, transparent: bool,
                    background: MapFile.Color, init: Option<int>)
    requires n < |p| && Nearest(p, n, ct, req, transparent, background, init)
    requires !Candidate(p, n, transparent, background)
    ensures Nearest(p, n + 1, ct, req, transparent, background, init)
  {
  }

  /** A candidate no nearer than the best so far leaves the nearest one as it was. */
  lemma NearestKeep(p: seq<Entry>, n: nat, ct: int, req: MapFile.Color, transparent: bool,
                    background: MapFile.Color, init: Option<int>)
    requires n < |p| && Nearest(p, n, ct, req, transparent, background, init)
    requires Candidate(p, n, transparent, background)
    requires ct == -1 ==> !Under(init, Distance(p[n].color, req))
    requires ct >= 0 ==> Distance(p[n].color, req) >= Distance(p[ct].color, req)
    ensures Nearest(p, n + 1, ct, req, transparent, background, init)
  {
  }

  /** A candidate strictly nearer than the best so far becomes the nearest. */
  lemma NearestTake(p: seq<Entry>, n: nat, ct: int, req: MapFile.Color, transparent: bool,
                    background: MapFile.Color, init: Option<int>)
    requires n < |p| && Nearest(p, n, ct, req, transparent, background, init)
    requires Candidate(p, n, transparent, background)
    requires ct == -1 ==> Under(init, Distance(p[n].color, req))
    requires ct >= 0 ==> Distance(p[n].color, req) < Distance(p[ct].color, req)
    ensures Nearest(p, n + 1, n, req, transparent, background, init)
  {
    var d := Distance(p[n].color, req);
    if ct >= 0 {
      assert forall c :: 0 <= c < n && Candidate(p, c, transparent, background) ==>
               Distance(p[c].color, req) >= Distance(p[ct].color, req);
    }
  }

  /** What the search knows after the slots before `c`: none holds the
      colour exactly, `op` is the last open one, `ct` the nearest
      candidate and `best` its distance (`init` while there is none). */
  predicate Searched(p: seq<Entry>, c: nat, op: int, ct: int, best: Option<int>, req: MapFile.Color,
                     transparent: bool, background: MapFile.Color, init: Option<int>)
  {
    c <= |p| &&
    (forall k :: 0 <= k < c ==> !Exact(p, k, req, transparent, background)) &&
    op == LastOpen(p, c) &&
    Nearest(p, c, ct, req, transparent, background, init) &&
    (ct == -1 ==> best == init) &&
    (ct >= 0 ==> best == Some(Distance(p[ct].color, req))) &&
    (best.None? || best.value > 0)
  }

  /** One slot of the search loop of msAddColorGD: an open slot is
      remembered; a candidate holding the colour ends the search; a
      candidate strictly nearer than the best so far becomes the nearest. */
  method Visit(p: seq<Entry>, c: nat, op: int, ct: int, best: Option<int>, req: MapFile.Color,
               transparent: bool, background: MapFile.Color, init: Option<int>)
    returns (found: bool, op': int, ct': int, best': Option<int>)
    requires c < |p| && Searched(p, c, op, ct, best, req, transparent, background, init)
    ensures found ==> Exact(p, c, req, transparent, background)
    ensures !found ==> Searched(p, c + 1, op', ct', best', req, transparent, background, init)
  {
    found, op', ct', best' := false, op, ct, best;
    if p[c].open {
      op' := c;
    }
    if !Candidate(p, c, transparent, background) {
      NearestSkip(p, c, ct, req, transparent, background, init);
    } else {
      var dist := Distance(p[c].color, req);
      if Under(best, dist) {
        if dist == 0 {
          return true, op', ct', best';
        }
        NearestTake(p, c, ct, req, transparent, background, init);
        best' := Some(dist);
        ct' := c;
      } else {
        NearestKeep(p, c, ct, req, transparent, background, init);
      }
    }
  }

  /** The search loop of msAddColorGD over the palette, starting from the
      bound `init`: the first exact slot, or else the last open slot and
      the nearest candidate. Every candidate is compared by its squared
      distance; the grey shortcut of the C code compares the addresses of
      two colour arrays, which never coincide, so it never applies. */
  method Search(p: seq<Entry>, req: MapFile.Color, transparent: bool, background: MapFile.Color,
                init: Option<int>) returns (exact: int, op: int, ct: int)
    requires init.None? || init.value > 0
    ensures -1 <= exact < |p|
    ensures exact >= 0 ==> Exact(p, exact, req, transparent, background) &&
                           forall c :: 0 <= c < exact ==> !Exact(p, c, req, transparent, background)
    ensures exact == -1 ==> forall c :: 0 <= c < |p| ==> !Exact(p, c, req, transparent, background)
    ensures exact == -1 ==> op == LastOpen(p, |p|)
    ensures exact == -1 ==> Nearest(p, |p|, ct, req, transparent, background, init)
  {
    op := -1;
    ct := -1;
    var best := init;
    var c := 0;
    while c < |p|
      invariant 0 <= c <= |p|
      invariant Searched(p, c, op, ct, best, req, transparent, background, init)
    {
      var found;
      found, op, ct, best := Visit(p, c, op, ct, best, req, transparent, background, init);
      if found {
        return c, op, ct;
      }
      c := c + 1;
    }
    exact := -1;
  }

  /** The common part of msAddColorGD, with the search started from `init`. */
  method AddColorFrom(p: seq<Entry>, transparent: bool, background: MapFile.Color,
                      color: MapFile.Color, init: Option<int>) returns (index: int, q: seq<Entry>)
    requires |p| <= GdMaxColors && (init.None? || init.value > 0)
    ensures |q| <= GdMaxColors && -1 <= index < |q|
    ensures var req := Perturb(color, transparent, background);
            (exists c :: 0 <= c < |p| && Exact(p, c, req, transparent, background)) ==>
              q == p && 0 <= index < |p| && Exact(p, index, req, transparent, background) &&
              forall c :: 0 <= c < index ==> !Exact(p, c, req, transparent, background)
    ensures var req := Perturb(color, transparent, background);
            (forall c :: 0 <= c < |p| ==> !Exact(p, c, req, transparent, background)) && LastOpen(p, |p|) >= 0 ==>
              index == LastOpen(p, |p|) && q == p[index := Entry(req, false)]
    ensures var req := Perturb(color, transparent, background);
            (forall c :: 0 <= c < |p| ==> !Exact(p, c, req, transparent, background)) && LastOpen(p, |p|) == -1 &&
            |p| < GdMaxColors ==>
              index == |p| && q == p + [Entry(req, false)]
    ensures var req := Perturb(color, transparent, background);
            (forall c :: 0 <= c < |p| ==> !Exact(p, c, req, transparent, background)) && LastOpen(p, |p|) == -1 &&
            |p| == GdMaxColors ==>
              q == p && Nearest(p, |p|, index, req, transparent, background, init)
  {
    var req := Perturb(color, transparent, background);
    var exact, op, ct := Search(p, req, transparent, background, init);
    if exact >= 0 {
      return exact, p;
    }
    if op == -1 {
      if |p| == GdMaxColors {
        return ct, p;
      }
      return |p|, p + [Entry(req, false)];
    }
    index, q := op, p[op := Entry(req, false)];
  }

  /** `msAddColorGD` as written: the nearest-colour search starts at the
      largest distance between byte colours, and only strictly nearer
      candidates are taken. */
  method AddColorGDAsWritten(p: seq<Entry>, transparent: bool, background: MapFile.Color,
                             color: MapFile.Color) returns (index: int, q: seq<Entry>)
    requires |p| <= GdMaxColors
    ensures |q| <= GdMaxColors && -1 <= index < |q|
    ensures var req := Perturb(color, transparent, background);
            (forall c :: 0 <= c < |p| ==> !Exact(p, c, req, transparent, background)) && LastOpen(p, |p|) == -1 &&
            |p| == GdMaxColors ==>
              q == p && Nearest(p, |p|, index, req, transparent, background, Some(MaxDistance))
  {
    index, q := AddColorFrom(p, transparent, background, color, Some(MaxDistance));
  }

  /** A full palette of white, in use, asked for black on an opaque image:
      every slot is at the largest distance, none is taken, and the result
      is -1 rather than a colour. */
  method AddColorGDAsWrittenMissesFarthest() returns (index: int)
    ensures index == -1
  {
    var white := Entry(MapFile.Color(255, 255, 255), false);
    var p := seq(GdMaxColors, (_: int) => white);
    var black := MapFile.Color(0, 0, 0);
    assert Distance(white.color, black) == MaxDistance;
    assert !Exact(p, 0, black, false, black);
    index, p := AddColorGDAsWritten(p, false, black, black);
    assert Candidate(p, 0, false, black);
  }

  /** `msAddColorGD` with the nearest-colour search unbounded: as the C
      code, except that a full palette always yields its nearest candidate. */
  method AddColorGD(p: seq<Entry>, transparent: bool, background: MapFile.Color,
                    color: MapFile.Color) returns (index: int, q: seq<Entry>)
    requires |p| <= GdMaxColors
    ensures |q| <= GdMaxColors && -1 <= index < |q|
    ensures |q| == |p| || q == p + [Entry(Perturb(color, transparent, background), false)]
    ensures index >= 0 && transparent ==> q[index].color != background
    ensures index >= 0 ==> !q[index].open
    ensures index == -1 <==>
              |p| == GdMaxColors && forall c :: 0 <= c < |p| ==> !p[c].open && !Candidate(p, c, transparent, background)
    ensures forall c :: 0 <= c < |p| && c != index ==> q[c] == p[c]
  {
    index, q := AddColorFrom(p, transparent, background, color, None);
    var req := Perturb(color, transparent, background);
    if (forall c :: 0 <= c < |p| ==> !Exact(p, c, req, transparent, background)) && LastOpen(p, |p|) == -1 &&
       |p| == GdMaxColors {
      assert Nearest(p, |p|, index, req, transparent, background, None);
    }
  }
}
