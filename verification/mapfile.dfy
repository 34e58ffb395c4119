/**
 * Helpers of the mapfile loader (mapfile.c): the hexadecimal colour form
 * "#RRGGBB", lookups of layers and symbols by name, the feature list that
 * inline features are collected into, the splitting of a PROJECTION
 * definition into arguments, the writing of an expression back in mapfile
 * syntax, and the map's configuration options.
 */
module MapFile {
  import opened Wrappers
  import opened CStrings
  import MapString
  import HashTable

  // ---------------------------------------------------------------------
  // hex2int and the hexadecimal branch of loadColor
  // ---------------------------------------------------------------------

  /** A `char` as the signed value C sees on the usual ABI. */
  function SignedChar(c: char): (v: int)
    ensures -128 <= v < 128
  {
    if MapString.Byte(c) >= 128 then MapString.Byte(c) - 256 else MapString.Byte(c)
  }

  /** `c & 0xdf` for a non-negative `c`: clears the lower-case bit 0x20. */
  function ClearCaseBit(b: int): (r: int)
    requires b >= 0
  {
    if (b / 32) % 2 == 1 then b - 32 else b
  }

  /** One digit as hex2int reads it: letters from 'A' up with the case bit
      cleared, everything below 'A' by its distance from '0'. Nothing is
      validated. */
  function Nibble(c: char): (v: int)
  {
    var b := SignedChar(c);
    if b >= 'A' as int then ClearCaseBit(b) - 'A' as int + 10 else b - '0' as int
  }

  /** `hex2int`: the two-character hexadecimal number `hi lo`. */
  function Hex2Int(hi: char, lo: char): (v: int)
  {
    Nibble(hi) * 16 + Nibble(lo)
  }

  /** On a hexadecimal digit, of either case, hex2int's reading is the digit's value. */
  lemma NibbleOfHexDigit(c: char)
    requires IsHexDigit(c)
    ensures Nibble(c) == HexDigitValue(c)
  {
  }

  /** Two hexadecimal digits give the byte they spell. */
  lemma Hex2IntOfDigits(hi: char, lo: char)
    requires IsHexDigit(hi) && IsHexDigit(lo)
    ensures Hex2Int(hi, lo) == 16 * HexDigitValue(hi) + HexDigitValue(lo)
    ensures 0 <= Hex2Int(hi, lo) < 256
  {
    NibbleOfHexDigit(hi);
    NibbleOfHexDigit(lo);
  }

  /** hex2int undoes writing a byte as two hexadecimal digits, in either case. */
  lemma Hex2IntRoundTrip(v: nat)
    requires v < 256
    ensures Hex2Int(MapString.HexUpper(v / 16), MapString.HexUpper(v % 16)) == v
    ensures Hex2Int(MapString.HexLower(v / 16), MapString.HexLower(v % 16)) == v
  {
    Hex2IntOfDigits(MapString.HexUpper(v / 16), MapString.HexUpper(v % 16));
    Hex2IntOfDigits(MapString.HexLower(v / 16), MapString.HexLower(v % 16));
  }

  /** A digit outside 0-9A-Fa-f is not rejected: 'G' reads as 16. */
  lemma NibbleDoesNotValidate()
    ensures Nibble('G') == 16 && Nibble('g') == 16
    ensures Hex2Int('G', 'G') == 272
  {
  }

  datatype Color = Color(red: int, green: int, blue: int)

  /** The hexadecimal branch of `loadColor`, taken when the token is not an
      integer: "#RRGGBB" of exactly seven characters, or failure. */
  function LoadHexColor(token: string): (r: Option<Color>)
    ensures r.Some? <==> |token| == 7 && token[0] == '#'
    ensures r.Some? ==> (r.value.red == Hex2Int(token[1], token[2]) &&
                         r.value.green == Hex2Int(token[3], token[4]) &&
                         r.value.blue == Hex2Int(token[5], token[6]))
  {
    if |token| > 0 && token[0] == '#' && |token| == 7 then
      Some(Color(Hex2Int(token[1], token[2]), Hex2Int(token[3], token[4]), Hex2Int(token[5], token[6])))
    else None
  }

  /** A colour component in 0..255. */
  predicate IsByte(v: int) { 0 <= v < 256 }

  /** The colour written as "#RRGGBB" with upper-case digits. */
  function HexColor(c: Color): (s: string)
    requires IsByte(c.red) && IsByte(c.green) && IsByte(c.blue)
    ensures |s| == 7 && s[0] == '#'
    ensures forall i :: 1 <= i < 7 ==> IsHexDigit(s[i])
  {
    ['#', MapString.HexUpper(c.red / 16), MapString.HexUpper(c.red % 16),
     MapString.HexUpper(c.green / 16), MapString.HexUpper(c.green % 16),
     MapString.HexUpper(c.blue / 16), MapString.HexUpper(c.blue % 16)]
  }

  /** Every colour of byte components survives "#RRGGBB". */
  lemma LoadHexColorRoundTrip(c: Color)
    requires IsByte(c.red) && IsByte(c.green) && IsByte(c.blue)
    ensures LoadHexColor(HexColor(c)) == Some(c)
  {
    Hex2IntRoundTrip(c.red);
    Hex2IntRoundTrip(c.green);
    Hex2IntRoundTrip(c.blue);
  }

  /** A "#RRGGBB" token of hexadecimal digits yields byte components. */
  lemma LoadHexColorBytes(token: string)
    requires |token| == 7 && token[0] == '#'
    requires forall i :: 1 <= i < 7 ==> IsHexDigit(token[i])
    ensures LoadHexColor(token).Some?
    ensures IsByte(LoadHexColor(token).value.red)
    ensures IsByte(LoadHexColor(token).value.green)
    ensures IsByte(LoadHexColor(token).value.blue)
  {
    Hex2IntOfDigits(token[1], token[2]);
    Hex2IntOfDigits(token[3], token[4]);
    Hex2IntOfDigits(token[5], token[6]);
  }

  // ---------------------------------------------------------------------
  // msGetLayerIndex and msGetSymbolIndex
  // ---------------------------------------------------------------------

  /** The first index from `i` on whose name equals `name` exactly; layers
      without a name are skipped. */
  function LayerIndexFrom(names: seq<Option<string>>, name: string, i: nat): (r: int)
    requires i <= |names|
    ensures r == -1 || i <= r < |names|
    ensures r >= 0 ==> names[r] == Some(name)
    ensures r >= 0 ==> forall j :: i <= j < r ==> names[j] != Some(name)
    ensures r == -1 <==> forall j :: i <= j < |names| ==> names[j] != Some(name)
    decreases |names| - i
  {
    if i == |names| then -1
    else if names[i].Some? && names[i].value == name then i
    else LayerIndexFrom(names, name, i + 1)
  }

  /** `msGetLayerIndex`: the index of the first layer named `name`, or -1,
      also for a NULL name. */
  function LayerIndex(names: seq<Option<string>>, name: Option<string>): (r: int)
    ensures -1 <= r < |names|
    ensures r >= 0 <==> name.Some? && Some(name.value) in names
    ensures r >= 0 ==> names[r] == name && name !in names[..r]
  {
    if name.None? then -1
    else
      var r := LayerIndexFrom(names, name.value, 0);
      assert r >= 0 ==> forall j :: 0 <= j < r ==> names[..r][j] == names[j];
      assert r == -1 ==> forall j :: 0 <= j < |names| ==> names[j] != Some(name.value);
      r
  }

  /** Whether a symbol slot carries `name`, ignoring case. */
  predicate NamedFold(n: Option<string>, name: string) {
    n.Some? && EqualFold(n.value, name)
  }

  /** The case-insensitive search of msGetSymbolIndex, from index `i`. */
  function SymbolSearch(names: seq<Option<string>>, name: string, i: nat): (r: Option<nat>)
    requires i <= |names|
    ensures r.Some? ==> i <= r.value < |names| && NamedFold(names[r.value], name)
    ensures r.Some? ==> forall j :: i <= j < r.value ==> !NamedFold(names[j], name)
    ensures r.None? <==> forall j :: i <= j < |names| ==> !NamedFold(names[j], name)
    decreases |names| - i
  {
    if i == |names| then None
    else if NamedFold(names[i], name) then Some(i)
    else SymbolSearch(names, name, i + 1)
  }

  /** `msGetSymbolIndex`: -1 without a symbol set or a name; the first symbol
      from index 1 whose name matches ignoring case (symbol 0 has no name);
      otherwise the name is handed to msAddImageSymbol, whose result is the
      parameter `added`. */
  function SymbolIndex(symbols: Option<seq<Option<string>>>, name: Option<string>, added: int): (r: int)
    ensures symbols.None? || name.None? ==> r == -1
    ensures symbols.Some? && name.Some? && 1 <= r < |symbols.value| && r != added ==>
              NamedFold(symbols.value[r], name.value)
    ensures symbols.Some? && name.Some? &&
            (exists j :: 1 <= j < |symbols.value| && NamedFold(symbols.value[j], name.value)) ==>
              1 <= r < |symbols.value| && NamedFold(symbols.value[r], name.value) &&
              forall j :: 1 <= j < r ==> !NamedFold(symbols.value[j], name.value)
    ensures symbols.Some? && name.Some? &&
            (forall j :: 1 <= j < |symbols.value| ==> !NamedFold(symbols.value[j], name.value)) ==>
              r == added
  {
    if symbols.None? || name.None? then -1
    else if |symbols.value| <= 1 then added
    else
      match SymbolSearch(symbols.value, name.value, 1)
      case Some(i) => i
      case None => added
  }

  // ---------------------------------------------------------------------
  // insertFeatureList
  // ---------------------------------------------------------------------

  /** A node of the feature list; `next` and `tail` are indices into the
      list's node store. Only the head carries `tail`, the last node. */
  datatype Node<S> = Node(shape: S, next: Option<nat>, tail: Option<nat>)

  /** A well-formed list: node i links to node i + 1, the last to nothing,
      and the head's tail pointer names the last node. */
  predicate Linked<S>(l: seq<Node<S>>) {
    (|l| > 0 ==> l[0].tail == Some(|l| - 1)) &&
    (forall i :: 0 < i < |l| ==> l[i].tail.None?) &&
    (forall i :: 0 <= i < |l| - 1 ==> l[i].next == Some(i + 1)) &&
    (|l| > 0 ==> l[|l| - 1].next.None?)
  }

  /** The shapes held by the nodes, in store order. */
  function Shapes<S>(l: seq<Node<S>>): (r: seq<S>)
    ensures |r| == |l|
    ensures forall i :: 0 <= i < |l| ==> r[i] == l[i].shape
  {
    seq(|l|, (i: int) requires 0 <= i < |l| => l[i].shape)
  }

  /** `insertFeatureList`: a new last node holding `shape`; an empty list
      becomes that node, whose tail pointer is then itself. The result's
      second part is the new node. */
  function InsertFeature<S>(l: seq<Node<S>>, shape: S): (r: (seq<Node<S>>, nat))
    requires Linked(l)
    ensures |r.0| == |l| + 1 && r.1 == |l|
    ensures Linked(r.0)
    ensures Shapes(r.0) == Shapes(l) + [shape]
  {
    var n := |l|;
    var node := Node(shape, None, None);
    if n == 0 then
      ([node.(tail := Some(0))], 0)
    else
      var linked := if l[0].tail.Some? && l[0].tail.value < n
                    then l[l[0].tail.value := l[l[0].tail.value].(next := Some(n))]
                    else l;
      var r := linked[0 := linked[0].(tail := Some(n))] + [node];
      assert Shapes(r) == Shapes(l) + [shape];
      (r, n)
  }

  /** The shapes met when following `next` from node `i`, for at most `fuel` nodes. */
  function Walk<S>(l: seq<Node<S>>, i: nat, fuel: nat): seq<S>
    decreases fuel
  {
    if fuel == 0 || i >= |l| then []
    else [l[i].shape] + (match l[i].next
                         case None => []
                         case Some(j) => Walk(l, j, fuel - 1))
  }

  /** The shapes of the nodes from `i` on, in store order. */
  function ShapesFrom<S>(l: seq<Node<S>>, i: nat): (r: seq<S>)
    decreases |l| - i
  {
    if i >= |l| then [] else [l[i].shape] + ShapesFrom(l, i + 1)
  }

  /** The `next` link of node `i`. */
  function NextOf<S>(l: seq<Node<S>>, i: nat): Option<nat>
    requires i < |l|
  {
    l[i].next
  }

  /** The `next` links of a well-formed list: node i links to node i + 1, the last to nothing. */
  predicate Chained<S>(l: seq<Node<S>>) {
    (forall i :: 0 <= i < |l| - 1 ==> NextOf(l, i) == Some(i + 1)) &&
    (|l| > 0 ==> l[|l| - 1].next.None?)
  }

  /** One step of a walk: the node's shape, then the walk from its successor. */
  lemma WalkStep<S>(l: seq<Node<S>>, i: nat, fuel: nat)
    requires fuel > 0 && i < |l|
    ensures l[i].next.None? ==> Walk(l, i, fuel) == [l[i].shape]
    ensures l[i].next.Some? ==> Walk(l, i, fuel) == [l[i].shape] + Walk(l, l[i].next.value, fuel - 1)
  {
  }

  /** In a well-formed list, following `next` from node i visits every later node in order. */
  lemma WalkLinked<S>(l: seq<Node<S>>, i: nat)
    requires Chained(l) && i <= |l|
    ensures Walk(l, i, |l| - i) == ShapesFrom(l, i)
  {
    var k := |l|;
    WalkEnd(l);
    while k > i
      invariant i <= k <= |l|
      invariant Walk(l, k, |l| - k) == ShapesFrom(l, k)
    {
      k := k - 1;
      ChainedAt(l, k);
      if k + 1 < |l| {
        WalkLinkedStep(l, k);
      } else {
        WalkLast(l, k);
      }
    }
  }

  /** The link of one node of a well-formed list. */
  lemma ChainedAt<S>(l: seq<Node<S>>, k: nat)
    requires Chained(l) && k < |l|
    ensures k + 1 < |l| ==> NextOf(l, k) == Some(k + 1)
    ensures k + 1 == |l| ==> l[k].next.None?
  {
  }

  /** Past the last node there is nothing to walk. */
  lemma WalkEnd<S>(l: seq<Node<S>>)
    ensures Walk(l, |l|, 0) == ShapesFrom(l, |l|) == []
  {
  }

  /** The induction step of WalkLinked: what holds from the next node holds
      from this one. */
  lemma WalkLinkedStep<S>(l: seq<Node<S>>, i: nat)
    requires i + 1 < |l| && NextOf(l, i) == Some(i + 1)
    requires Walk(l, i + 1, |l| - (i + 1)) == ShapesFrom(l, i + 1)
    ensures Walk(l, i, |l| - i) == ShapesFrom(l, i)
  {
    WalkNext(l, i);
    ShapesFromStep(l, i);
  }

  /** The shapes from a node are its own, then those from the next node. */
  lemma ShapesFromStep<S>(l: seq<Node<S>>, i: nat)
    requires i < |l|
    ensures ShapesFrom(l, i) == [l[i].shape] + ShapesFrom(l, i + 1)
  {
  }

  /** In a well-formed list, the walk from the last node is that node alone. */
  lemma WalkLast<S>(l: seq<Node<S>>, i: nat)
    requires i + 1 == |l| && l[i].next.None?
    ensures Walk(l, i, 1) == ShapesFrom(l, i)
  {
    WalkStep(l, i, 1);
    assert ShapesFrom(l, i + 1) == [];
    assert ShapesFrom(l, i) == [l[i].shape];
  }

  /** In a well-formed list, a walk from a node that is not the last goes
      on to the node after it. */
  lemma WalkNext<S>(l: seq<Node<S>>, i: nat)
    requires i + 1 < |l| && NextOf(l, i) == Some(i + 1)
    ensures Walk(l, i, |l| - i) == [l[i].shape] + Walk(l, i + 1, |l| - (i + 1))
  {
    WalkStep(l, i, |l| - i);
  }

  /** ShapesFrom is a suffix of Shapes. */
  lemma {:induction false} ShapesFromSuffix<S>(l: seq<Node<S>>, i: nat)
    requires i <= |l|
    ensures ShapesFrom(l, i) == Shapes(l)[i..]
    decreases |l| - i
  {
    if i < |l| {
      ShapesFromSuffix(l, i + 1);
      assert Shapes(l)[i..] == [l[i].shape] + Shapes(l)[i + 1..];
    }
  }

  /** A well-formed list has its `next` links chained. */
  lemma LinkedChained<S>(l: seq<Node<S>>)
    requires Linked(l)
    ensures Chained(l)
  {
    forall i | 0 <= i < |l| - 1
      ensures NextOf(l, i) == Some(i + 1)
    {
      assert l[i].next == Some(i + 1);
    }
  }

  /** Walking a well-formed list from its head meets every shape in store order. */
  lemma WalkAll<S>(l: seq<Node<S>>)
    requires Linked(l)
    ensures Walk(l, 0, |l|) == Shapes(l)
  {
    LinkedChained(l);
    WalkLinked(l, 0);
    ShapesFromSuffix(l, 0);
    assert Shapes(l)[0..] == Shapes(l);
  }

  /** Walking the list from its head after an insert gives the shapes walked
      before, then the new one. */
  lemma InsertFeatureWalk<S>(l: seq<Node<S>>, shape: S)
    requires Linked(l)
    ensures Walk(InsertFeature(l, shape).0, 0, |l| + 1) == Walk(l, 0, |l|) + [shape]
  {
    var r := InsertFeature(l, shape).0;
    WalkAll(l);
    WalkAll(r);
  }

  // ---------------------------------------------------------------------
  // msLoadProjectionString: splitting the definition into arguments
  // ---------------------------------------------------------------------

  /** `s` without its white space. */
  function DropSpaces(s: string): (r: string)
    ensures |r| <= |s|
    ensures NoSpace(r)
  {
    if |s| == 0 then []
    else if IsSpace(s[0]) then DropSpaces(s[1..])
    else [s[0]] + DropSpaces(s[1..])
  }

  /** Removing white space from text that has none changes nothing. */
  lemma {:induction false} DropSpacesNone(s: string)
    requires NoSpace(s)
    ensures DropSpaces(s) == s
    decreases |s|
  {
    if |s| > 0 {
      DropSpacesNone(s[1..]);
      assert s == [s[0]] + s[1..];
    }
  }

  /** The arguments msLoadProjectionString hands to PROJ: a definition
      starting with '+' loses the '+' and all white space and is split on
      '+'; one starting with "AUTO:" in any case stays one argument; any
      other is split on ','. */
  function ProjectionArgs(value: string): (r: seq<string>)
    ensures |r| >= 1
    ensures |value| > 0 && value[0] == '+' ==>
              forall k :: 0 <= k < |r| ==> '+' !in r[k] && NoSpace(r[k])
    ensures !(|value| > 0 && value[0] == '+') && StartsWithFold(value, "AUTO:") ==> r == [value]
    ensures !(|value| > 0 && value[0] == '+') && !StartsWithFold(value, "AUTO:") ==>
              forall k :: 0 <= k < |r| ==> ',' !in r[k]
  {
    if |value| > 0 && value[0] == '+' then
      var trimmed := DropSpaces(value[1..]);
      var r := MapString.Split(trimmed, '+');
      MapString.SplitTokensFree(trimmed, '+');
      SplitNoSpace(trimmed, '+');
      r
    else if StartsWithFold(value, "AUTO:") then [value]
    else
      MapString.SplitTokensFree(value, ',');
      MapString.Split(value, ',')
  }

  /** Any slice of text without white space has none. */
  lemma NoSpaceSlice(s: string, i: nat, j: nat)
    requires NoSpace(s) && i <= j <= |s|
    ensures NoSpace(s[i..j])
  {
    forall m | 0 <= m < j - i ensures !IsSpace(s[i..j][m]) {
      assert s[i..j][m] == s[i + m];
    }
  }

  /** DropRun keeps text free of white space. */
  lemma {:induction false} DropRunNoSpace(s: string, c: char)
    requires NoSpace(s)
    ensures NoSpace(MapString.DropRun(s, c))
    decreases |s|
  {
    if |s| > 0 && s[0] == c {
      NoSpaceSlice(s, 1, |s|);
      assert s[1..] == s[1..|s|];
      DropRunNoSpace(s[1..], c);
    }
  }

  /** Splitting text without white space gives tokens without white space. */
  lemma {:induction false} SplitNoSpace(s: string, c: char)
    requires NoSpace(s)
    ensures forall k :: 0 <= k < |MapString.Split(s, c)| ==> NoSpace(MapString.Split(s, c)[k])
    decreases |s|
  {
    match IndexOfChar(s, c)
    case None =>
    case Some(i) =>
      NoSpaceSlice(s, i, |s|);
      assert s[i..] == s[i..|s|];
      var t := MapString.DropRun(s[i..], c);
      DropRunNoSpace(s[i..], c);
      SplitNoSpace(t, c);
      NoSpaceSlice(s, 0, i);
      assert s[..i] == s[0..i];
      assert MapString.Split(s, c) == [s[..i]] + MapString.Split(t, c);
  }

  /** A string free of white space. */
  predicate NoSpace(s: string) { forall i :: 0 <= i < |s| ==> !IsSpace(s[i]) }

  /** Removing white space works piecewise. */
  lemma {:induction false} DropSpacesConcat(x: string, y: string)
    ensures DropSpaces(x + y) == DropSpaces(x) + DropSpaces(y)
    decreases |x|
  {
    if |x| > 0 {
      assert (x + y)[0] == x[0];
      assert (x + y)[1..] == x[1..] + y;
      DropSpacesConcat(x[1..], y);
    } else {
      assert x + y == y;
    }
  }

  /** A join of white-space-free elements with "+" has no white space to remove. */
  lemma {:induction false} DropSpacesJoin(a: seq<string>)
    requires forall k :: 0 <= k < |a| ==> NoSpace(a[k])
    ensures DropSpaces(JoinWith(a, "+")) == JoinWith(a, "+")
    decreases |a|
  {
    if |a| == 1 {
      DropSpacesNone(a[0]);
    } else if |a| > 1 {
      DropSpacesJoin(a[1..]);
      DropSpacesNone(a[0]);
      DropSpacesConcat(a[0] + "+", JoinWith(a[1..], "+"));
      DropSpacesConcat(a[0], "+");
    }
  }

  /** A new-style definition "+a+b+c" gives back its arguments when they are
      free of '+' and white space and none between the first and the last
      is empty. */
  lemma ProjectionArgsPlus(args: seq<string>)
    requires |args| >= 1
    requires forall k :: 0 <= k < |args| ==> '+' !in args[k] && NoSpace(args[k])
    requires forall k :: 0 < k < |args| - 1 ==> |args[k]| > 0
    ensures ProjectionArgs("+" + JoinWith(args, "+")) == args
  {
    var j := JoinWith(args, "+");
    assert ("+" + j)[1..] == j;
    DropSpacesJoin(args);
    MapString.SplitJoin(args, '+');
  }

  /** An old-style definition "a,b,c" that does not start with '+' or
      "AUTO:" gives back its arguments when they are free of ',' and none
      between the first and the last is empty. */
  lemma ProjectionArgsComma(args: seq<string>)
    requires |args| >= 1
    requires forall k :: 0 <= k < |args| ==> ',' !in args[k]
    requires forall k :: 0 < k < |args| - 1 ==> |args[k]| > 0
    requires !(|JoinWith(args, ",")| > 0 && JoinWith(args, ",")[0] == '+')
    requires !StartsWithFold(JoinWith(args, ","), "AUTO:")
    ensures ProjectionArgs(JoinWith(args, ",")) == args
  {
    MapString.SplitJoin(args, ',');
  }

  // ---------------------------------------------------------------------
  // writeExpression
  // ---------------------------------------------------------------------

  /** The expression types of map.h (MS_EXPRESSION … MS_ISTRING). */
  datatype ExprType = Expression | Regex | Str | Number | Comment | IRegex | IString

  datatype Expr = Expr(kind: ExprType, text: string)

  /** `writeExpression`: "/text/" for a regular expression, "\"text\"" for a
      string, "(text)" for a logical expression, and nothing for any other type. */
  function WriteExpression(e: Expr): (r: string)
    ensures e.kind in {Regex, Str, Expression} <==> |r| > 0
    ensures |r| > 0 ==> |r| == |e.text| + 2 && r[1..|r| - 1] == e.text
  {
    match e.kind
    case Regex => "/" + e.text + "/"
    case Str => "\"" + e.text + "\""
    case Expression => "(" + e.text + ")"
    case _ => ""
  }

  /** Reading a written expression back by its outer delimiters, which name
      the type; the text is everything between them. */
  function ReadExpression(s: string): (r: Option<Expr>)
  {
    if |s| < 2 then None
    else
      var inner := s[1..|s| - 1];
      if s[0] == '/' && s[|s| - 1] == '/' then Some(Expr(Regex, inner))
      else if s[0] == '"' && s[|s| - 1] == '"' then Some(Expr(Str, inner))
      else if s[0] == '(' && s[|s| - 1] == ')' then Some(Expr(Expression, inner))
      else None
  }

  /** The outer delimiters writeExpression puts around the three types it
      writes recover the type and the text. A delimiter inside the text is
      not escaped, so a reader that stops at the first closing delimiter,
      as the mapfile lexer does, would cut the text short there. */
  lemma WriteExpressionRoundTrip(e: Expr)
    requires e.kind in {Regex, Str, Expression}
    ensures ReadExpression(WriteExpression(e)) == Some(e)
  {
  }

  // ---------------------------------------------------------------------
  // msGetConfigOption and msSetConfigOption
  // ---------------------------------------------------------------------

  /** The map's CONFIG options, and the PROJ_LIB search path last handed to PROJ. */
  datatype Config = Config(options: HashTable.Table, projLib: Option<string>)

  /** `msGetConfigOption` */
  function GetConfigOption(c: Config, key: string): (r: Option<string>)
    ensures r.Some? <==> HashTable.Count(c.options, key) > 0
  {
    HashTable.LookupFinds(c.options, key);
    HashTable.Lookup(c.options, key)
  }

  /** `msSetConfigOption`: PROJ_LIB (any case) also sets PROJ's search path;
      an existing entry is removed before the new one is inserted. */
  function SetConfigOption(c: Config, key: string, value: string): (r: Config)
    ensures EqualFold(key, "PROJ_LIB") ==> r.projLib == Some(value)
    ensures !EqualFold(key, "PROJ_LIB") ==> r.projLib == c.projLib
  {
    var projLib := if EqualFold(key, "PROJ_LIB") then Some(value) else c.projLib;
    var options := if HashTable.Lookup(c.options, key).Some? then HashTable.Remove(c.options, key) else c.options;
    Config(HashTable.Insert(options, key, value), projLib)
  }

  /** After setting, the option reads back the new value. */
  lemma SetConfigOptionFound(c: Config, key: string, value: string)
    ensures GetConfigOption(SetConfigOption(c, key, value), key) == Some(value)
  {
    var options := if HashTable.Lookup(c.options, key).Some? then HashTable.Remove(c.options, key) else c.options;
    HashTable.InsertFound(options, key, value);
  }

  /** Setting one option leaves every other option as it was. */
  lemma SetConfigOptionOther(c: Config, key: string, value: string, other: string)
    requires other != key
    ensures GetConfigOption(SetConfigOption(c, key, value), other) == GetConfigOption(c, other)
  {
    var options := if HashTable.Lookup(c.options, key).Some? then HashTable.Remove(c.options, key) else c.options;
    HashTable.RemoveOther(c.options, key, other);
    HashTable.InsertOther(options, key, value, other);
  }

  /** A table that holds each key at most once keeps doing so, and the set key is held once. */
  lemma SetConfigOptionOnce(c: Config, key: string, value: string, other: string)
    requires HashTable.Count(c.options, other) <= 1 && HashTable.Count(c.options, key) <= 1
    ensures HashTable.Count(SetConfigOption(c, key, value).options, key) == 1
    ensures HashTable.Count(SetConfigOption(c, key, value).options, other) <= 1
  {
    var options := if HashTable.Lookup(c.options, key).Some? then HashTable.Remove(c.options, key) else c.options;
    HashTable.LookupFinds(c.options, key);
    HashTable.RemoveCount(c.options, key, key);
    HashTable.RemoveCount(c.options, key, other);
    HashTable.InsertCount(options, key, value, key);
    HashTable.InsertCount(options, key, value, other);
  }
}
