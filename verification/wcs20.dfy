/** The key-value request parsing of the WCS 2.0 service (mapwcs20.c):
    number parsing with a consumed/partly consumed/not consumed verdict,
    the SUBSET, SIZE and RESOLUTION values, the parameter loop with its
    duplicate checks and case-insensitive axis table, the matching of
    request axes against the accepted axis names, the finalisation of the
    bounding box and subset CRS, and the band list of GetCoverage.

    Helpers the source calls but that are not part of this model are
    parameters bundled in `Env`: `msStringTrim`, the time parser
    `msParseTime` followed by `mktime`, and the tokenizer `msStringSplit`.
    The sentinel MS_WCS20_UNBOUNDED is assumed to lie beyond every value a
    request can give, so a '*' bound never makes an interval empty. */
module Wcs20 {
  import opened Wrappers
  import opened CStrings
  import opened CNumbers
  import MapString

  /** MS_SUCCESS (all of the text read), MS_DONE (part of it) and
      MS_FAILURE (none of it). */
  datatype Status = AllRead | PartRead | NothingRead

  /** A parsed number and how much of its text the parse consumed. */
  datatype Number<T> = Number(status: Status, value: T)

  /** Helpers of the engine that this model takes as given. */
  datatype Env = Env(trim: string -> string,
                     parseTime: string -> Option<int>,
                     split: (string, char) -> seq<string>)

  // ---------------------------------------------------------------------
  // msStringParseInteger / msStringParseDouble
  // ---------------------------------------------------------------------

  /** The verdict on a conversion that consumed `end` of `len` characters. */
  function StatusOf(end: nat, len: nat): Status {
    if end == 0 then NothingRead else if end != len then PartRead else AllRead
  }

  /** `(int)strtol(s, &end, 0)` and the verdict on how much it read. */
  function ParseInteger(s: string): (r: Number<int>)
    ensures -Two31 <= r.value < Two31
    ensures r.status == NothingRead <==> !(SignEnd(s) < |s| && IsDigitIn(s[SignEnd(s)], 10))
    ensures r.status == AllRead ==> |s| > 0 && IsHexDigit(s[|s| - 1])
  {
    var p := Strtol(s, 0);
    Number(StatusOf(p.end, |s|), Wrap32(p.value))
  }

  /** `strtod(s, &end)` and the verdict on how much it read. */
  function ParseDouble(s: string): (r: Number<real>)
    ensures r.status == NothingRead <==>
      var j := SignEnd(s);
      !((j < |s| && IsDigit(s[j])) || (j + 1 < |s| && s[j] == '.' && IsDigit(s[j + 1])))
  {
    var p := Strtod(s);
    Number(StatusOf(p.end, |s|), p.value)
  }

  /** A number written by `%d` parses back completely. */
  lemma ParseIntegerOfDecimal(n: int)
    requires -Two31 <= n < Two31
    ensures ParseInteger(IntToDecimal(n)) == Number(AllRead, n)
  {
    StrtolOfDecimal(n, 0);
    Wrap32Small(n);
  }

  lemma ParseDoubleOfDecimal(n: int)
    ensures ParseDouble(IntToDecimal(n)) == Number(AllRead, n as real)
  {
    StrtodOfDecimal(n);
  }

  /** A number followed by text it cannot read is only partly consumed. */
  lemma ParseIntegerTrailing(n: nat, t: string)
    requires n < Two31
    requires |t| > 0 && !IsHexDigit(t[0]) && t[0] != 'x' && t[0] != 'X'
    ensures ParseInteger(IntToDecimal(n) + t) == Number(PartRead, n)
  {
    var d := IntToDecimal(n);
    var s := d + t;
    StrtolOfDecimal(n, 0);
    Wrap32Small(n);
    DecimalNoLeadingZero(n);
    assert !IsSpace(s[0]) && s[0] == d[0];
    assert SkipSpace(s, 0) == 0 && SignEnd(s) == 0 && !Negative(s);
    assert SkipSpace(d, 0) == 0 && SignEnd(d) == 0 && !Negative(d);
    assert s[..|d|] == d;
    var radix := if d[0] == '0' then 8 else 10;
    assert Radix(s, 0, 0) == (radix, 0) && Radix(d, 0, 0) == (radix, 0) by {
      if d[0] == '0' {
        assert d == "0";
        assert s[1] == t[0];
      }
    }
    assert RadixRunEnd(s, 0, radix) == |d| by {
      RadixRunEndPrefix(d, t, 0, radix);
    }
    assert s[0..|d|] == d[0..|d|];
  }

  /** A digit run inside `x` ends where it ends in `x + y` when `y` opens
      with a non-digit. */
  lemma {:induction false} RadixRunEndPrefix(x: string, y: string, i: nat, radix: nat)
    requires i <= |x|
    requires RadixRunEnd(x, i, radix) == |x|
    requires |y| > 0 && !IsDigitIn(y[0], radix)
    ensures RadixRunEnd(x + y, i, radix) == |x|
    decreases |x| - i
  {
    if i < |x| {
      assert (x + y)[i] == x[i];
      RadixRunEndPrefix(x, y, i + 1, radix);
    } else {
      assert (x + y)[i] == y[0];
    }
  }

  // ---------------------------------------------------------------------
  // Subset bounds (msWCSParseTimeOrScalar20)
  // ---------------------------------------------------------------------

  /** One end of a subset: '*', a number, or a point in time (seconds). */
  datatype Bound = Star | Scalar(x: real) | Time(t: int)

  datatype ValueKind = ScalarValue | TimeValue

  /** A trimmed bound is '*' (case-insensitively, which for '*' is
      plainly), else a number read completely, else a time; anything else,
      and the empty string, is an error. */
  function ParseTimeOrScalar(env: Env, s: string): (r: Option<Bound>)
    ensures r == Some(Star) <==> env.trim(s) == "*"
    ensures r.Some? && r.value.Scalar? ==> ParseDouble(env.trim(s)) == Number(AllRead, r.value.x)
    ensures |env.trim(s)| == 0 ==> r.None?
  {
    var t := env.trim(s);
    if |t| == 0 then None
    else if t == "*" then Some(Star)
    else
      var d := ParseDouble(t);
      if d.status == AllRead then Some(Scalar(d.value))
      else match env.parseTime(t)
        case Some(time) => Some(Time(time))
        case None => None
  }

  /** Whether a bound belongs to a subset of the given kind ('*' fits both). */
  predicate Fits(b: Bound, kind: ValueKind) {
    match b
    case Star => true
    case Scalar(_) => kind == ScalarValue
    case Time(_) => kind == TimeValue
  }

  /** The interval check of a trim: two given bounds must be increasing. */
  predicate Below(lo: Bound, hi: Bound) {
    match (lo, hi)
    case (Scalar(a), Scalar(b)) => a < b
    case (Time(a), Time(b)) => a < b
    case _ => true
  }

  // ---------------------------------------------------------------------
  // msWCSParseSubset20
  // ---------------------------------------------------------------------

  /** MS_WCS20_SLICE and MS_WCS20_TRIM. */
  datatype Operation = Slice | Trim

  /** A parsed subset. A slice has `max == Star`; in a trim a '*'
      minimum stands for minus infinity and a '*' maximum for plus infinity. */
  datatype Subset = Subset(axis: string, crs: Option<string>, operation: Operation,
                           kind: ValueKind, min: Bound, max: Bound)

  function KindOf(b: Bound): ValueKind {
    if b.Time? then TimeValue else ScalarValue
  }

  /** The subset rules: the axis must be named; without a maximum the
      subset is a slice at a given point; with one it is a trim whose bounds
      are of one kind, not both '*', and increasing. */
  function ParseSubset(env: Env, axis: string, crs: Option<string>, min: string, max: Option<string>): (r: Option<Subset>)
    ensures |axis| == 0 ==> r.None?
    ensures r.Some? ==> r.value.axis == axis && r.value.crs == crs
    ensures r.Some? ==> (r.value.operation == Trim <==> max.Some? && |max.value| > 0)
    ensures r.Some? && r.value.operation == Slice ==> !r.value.min.Star? && r.value.max.Star?
    ensures r.Some? && r.value.operation == Trim ==>
      !(r.value.min.Star? && r.value.max.Star?) && Below(r.value.min, r.value.max)
    ensures r.Some? ==> Fits(r.value.min, r.value.kind) && Fits(r.value.max, r.value.kind)
  {
    if |axis| == 0 then None
    else match ParseTimeOrScalar(env, min)
      case None => None
      case Some(lo) =>
        if max.Some? && |max.value| > 0 then
          match ParseTimeOrScalar(env, max.value)
          case None => None
          case Some(hi) =>
            if lo.Star? && hi.Star? then None
            else if !lo.Star? && !hi.Star? && KindOf(lo) != KindOf(hi) then None
            else if !Below(lo, hi) then None
            else Some(Subset(axis, crs, Trim, if lo.Star? then KindOf(hi) else KindOf(lo), lo, hi))
        else if lo.Star? then None
        else Some(Subset(axis, crs, Slice, KindOf(lo), lo, Star))
  }

  // ---------------------------------------------------------------------
  // msWCSParseSubsetKVPString20: "axis[,crs](min[,max])"
  // ---------------------------------------------------------------------

  /** The text before the first `c` and, if there is one, the text after it. */
  function CutAt(s: string, c: char): (r: (string, Option<string>))
    ensures r.1.None? ==> r.0 == s && forall j :: 0 <= j < |s| ==> s[j] != c
    ensures r.1.Some? ==> s == r.0 + [c] + r.1.value && forall j :: 0 <= j < |r.0| ==> r.0[j] != c
  {
    match IndexOfChar(s, c)
    case None => (s, None)
    case Some(i) =>
      assert s == s[..i] + [c] + s[i + 1..];
      (s[..i], Some(s[i + 1..]))
  }

  /** The interval text with one trailing ')' removed. */
  function StripClose(s: string): (r: string)
    ensures |s| > 0 && s[|s| - 1] == ')' ==> r == s[..|s| - 1]
    ensures !(|s| > 0 && s[|s| - 1] == ')') ==> r == s
  {
    if |s| > 0 && s[|s| - 1] == ')' then s[..|s| - 1] else s
  }

  /** Without a '(' the string is rejected; otherwise the interval inside
      the parentheses splits at its first ',' into min and max, and the text
      before '(' at its first ',' into axis and CRS. */
  function ParseSubsetKvp(env: Env, s: string): (r: Option<Subset>)
    ensures (forall j :: 0 <= j < |s| ==> s[j] != '(') ==> r.None?
  {
    match IndexOfChar(s, '(')
    case None => None
    case Some(lp) =>
      var interval := CutAt(StripClose(s[lp + 1..]), ',');
      var head := CutAt(s[..lp], ',');
      ParseSubset(env, head.0, head.1, interval.0, interval.1)
  }

  /** The text of a bound written as a whole number, or '*' for `None`. */
  function BoundText(b: Option<int>): (r: string)
    ensures |r| > 0
  {
    match b
    case None => "*"
    case Some(n) => IntToDecimal(n)
  }

  function BoundOf(b: Option<int>): Bound {
    match b
    case None => Star
    case Some(n) => Scalar(n as real)
  }

  /** A SUBSET value for scalar whole-number bounds: `hi` is `None` for a
      slice, and its content `None` for a '*' maximum. */
  function SubsetText(axis: string, crs: Option<string>, lo: Option<int>, hi: Option<Option<int>>): string {
    HeadText(axis, crs) + "(" + IntervalText(lo, hi) + ")"
  }

  function HeadText(axis: string, crs: Option<string>): string {
    axis + (match crs case None => "" case Some(c) => "," + c)
  }

  function IntervalText(lo: Option<int>, hi: Option<Option<int>>): string {
    BoundText(lo) + (match hi case None => "" case Some(h) => "," + BoundText(h))
  }

  function MaxText(hi: Option<Option<int>>): Option<string> {
    match hi
    case None => None
    case Some(h) => Some(BoundText(h))
  }

  predicate Free(s: string, c: char) {
    forall j :: 0 <= j < |s| ==> s[j] != c
  }

  lemma DecimalFree(n: int, c: char)
    requires c != '-' && !IsDigit(c)
    ensures Free(IntToDecimal(n), c)
  {
  }

  /** Reading a bound back. */
  lemma BoundRoundTrip(env: Env, b: Option<int>)
    requires env.trim(BoundText(b)) == BoundText(b)
    ensures ParseTimeOrScalar(env, BoundText(b)) == Some(BoundOf(b))
  {
    if b.Some? {
      ParseDoubleOfDecimal(b.value);
      assert BoundText(b)[0] != '*';
    }
  }

  /** Cutting at the first `c` finds the one placed after a `c`-free prefix. */
  lemma CutAtJoin(x: string, y: string, c: char)
    requires Free(x, c)
    ensures CutAt(x + [c] + y, c) == (x, Some(y))
  {
    var s := x + [c] + y;
    assert s == x + ([c] + y);
    IndexOfCharAfter(x, [c] + y, c);
    assert s[..|x|] == x;
    assert s[|x| + 1..] == y;
  }

  lemma CutAtFree(x: string, c: char)
    requires Free(x, c)
    ensures CutAt(x, c) == (x, None)
  {
  }

  /** The interval part "min[,max])" of a subset text splits back into its bounds. */
  lemma IntervalRoundTrip(lo: Option<int>, hi: Option<Option<int>>)
    ensures CutAt(StripClose(IntervalText(lo, hi) + ")"), ',') == (BoundText(lo), MaxText(hi))
  {
    var text := IntervalText(lo, hi);
    var l := BoundText(lo);
    assert StripClose(text + ")") == text by {
      assert (text + ")")[..|text + ")"| - 1] == text;
    }
    assert Free(l, ',') by {
      if lo.Some? { DecimalFree(lo.value, ','); }
    }
    match hi
    case None =>
      assert text == l;
      CutAtFree(l, ',');
    case Some(h) =>
      assert text == l + [','] + BoundText(h);
      CutAtJoin(l, BoundText(h), ',');
  }

  /** The head "axis[,crs]" of a subset text splits back into axis and CRS. */
  lemma HeadRoundTrip(axis: string, crs: Option<string>)
    requires Free(axis, ',')
    ensures CutAt(HeadText(axis, crs), ',') == (axis, crs)
  {
    match crs
    case None =>
      assert HeadText(axis, crs) == axis;
      CutAtFree(axis, ',');
    case Some(c) =>
      assert HeadText(axis, crs) == axis + [','] + c;
      CutAtJoin(axis, c, ',');
  }

  /** Writing a scalar subset with whole-number bounds as a SUBSET value and
      parsing it gives the subset back, provided the axis holds neither ','
      nor '(', the CRS holds no '(', and the bounds obey the subset rules. */
  lemma SubsetRoundTrip(env: Env, axis: string, crs: Option<string>, lo: Option<int>, hi: Option<Option<int>>)
    requires |axis| > 0 && Free(axis, ',') && Free(axis, '(')
    requires crs.Some? ==> Free(crs.value, '(')
    requires env.trim(BoundText(lo)) == BoundText(lo)
    requires hi.Some? ==> env.trim(BoundText(hi.value)) == BoundText(hi.value)
    requires hi.None? ==> lo.Some?
    requires hi.Some? ==> lo.Some? || hi.value.Some?
    requires hi.Some? && lo.Some? && hi.value.Some? ==> lo.value < hi.value.value
    ensures ParseSubsetKvp(env, SubsetText(axis, crs, lo, hi))
         == Some(Subset(axis, crs, if hi.Some? then Trim else Slice, ScalarValue,
                        BoundOf(lo), if hi.Some? then BoundOf(hi.value) else Star))
  {
    var s := SubsetText(axis, crs, lo, hi);
    var lp := SubsetTextSplits(axis, crs, lo, hi);
    calc {
      ParseSubsetKvp(env, s);
      { ParseSubsetKvpAt(env, s, lp); }
      ParseSubset(env, axis, crs, BoundText(lo), MaxText(hi));
      { SubsetOfBounds(env, axis, crs, lo, hi); }
      Some(Subset(axis, crs, if hi.Some? then Trim else Slice, ScalarValue,
                  BoundOf(lo), if hi.Some? then BoundOf(hi.value) else Star));
    }
  }

  /** Where a subset text opens its interval, and the pieces on either side. */
  lemma SubsetTextSplits(axis: string, crs: Option<string>, lo: Option<int>, hi: Option<Option<int>>) returns (lp: nat)
    requires Free(axis, ',') && Free(axis, '(')
    requires crs.Some? ==> Free(crs.value, '(')
    ensures var s := SubsetText(axis, crs, lo, hi);
            IndexOfChar(s, '(') == Some(lp)
            && CutAt(s[..lp], ',') == (axis, crs)
            && CutAt(StripClose(s[lp + 1..]), ',') == (BoundText(lo), MaxText(hi))
  {
    var head := HeadText(axis, crs);
    var interval := IntervalText(lo, hi);
    lp := |head|;
    HeadFree(axis, crs);
    OpenSplit(head, interval);
    HeadRoundTrip(axis, crs);
    IntervalRoundTrip(lo, hi);
  }

  /** The head "axis[,crs]" holds no '(' when neither part does. */
  lemma HeadFree(axis: string, crs: Option<string>)
    requires Free(axis, '(') && (crs.Some? ==> Free(crs.value, '('))
    ensures Free(HeadText(axis, crs), '(')
  {
    if crs.Some? {
      assert HeadText(axis, crs) == axis + ("," + crs.value);
    }
  }

  /** A '('-free head, then "(", the interval and ")": the first '(' is
      right after the head. */
  lemma OpenSplit(head: string, interval: string)
    requires Free(head, '(')
    ensures var s := head + "(" + interval + ")";
      && IndexOfChar(s, '(') == Some(|head|)
      && s[..|head|] == head && s[|head| + 1..] == interval + ")"
  {
    var s := head + "(" + interval + ")";
    assert s == head + ("(" + interval + ")");
    IndexOfCharAfter(head, "(" + interval + ")", '(');
  }

  lemma ParseSubsetKvpAt(env: Env, s: string, lp: nat)
    requires IndexOfChar(s, '(') == Some(lp)
    ensures var interval := CutAt(StripClose(s[lp + 1..]), ',');
            var head := CutAt(s[..lp], ',');
            ParseSubsetKvp(env, s) == ParseSubset(env, head.0, head.1, interval.0, interval.1)
  {
  }

  /** The subset rules applied to bound texts of whole numbers. */
  lemma SubsetOfBounds(env: Env, axis: string, crs: Option<string>, lo: Option<int>, hi: Option<Option<int>>)
    requires |axis| > 0
    requires env.trim(BoundText(lo)) == BoundText(lo)
    requires hi.Some? ==> env.trim(BoundText(hi.value)) == BoundText(hi.value)
    requires hi.None? ==> lo.Some?
    requires hi.Some? ==> lo.Some? || hi.value.Some?
    requires hi.Some? && lo.Some? && hi.value.Some? ==> lo.value < hi.value.value
    ensures ParseSubset(env, axis, crs, BoundText(lo), MaxText(hi))
         == Some(Subset(axis, crs, if hi.Some? then Trim else Slice, ScalarValue,
                        BoundOf(lo), if hi.Some? then BoundOf(hi.value) else Star))
  {
    BoundRoundTrip(env, lo);
    match hi
    case None =>
      ParseSubsetSlice(env, axis, crs, BoundText(lo), BoundOf(lo));
    case Some(h) =>
      BoundRoundTrip(env, h);
      ParseSubsetTrim(env, axis, crs, BoundText(lo), BoundText(h), BoundOf(lo), BoundOf(h));
  }

  lemma ParseSubsetSlice(env: Env, axis: string, crs: Option<string>, min: string, lo: Bound)
    requires |axis| > 0 && ParseTimeOrScalar(env, min) == Some(lo) && lo.Scalar?
    ensures ParseSubset(env, axis, crs, min, None) == Some(Subset(axis, crs, Slice, ScalarValue, lo, Star))
  {
  }

  lemma ParseSubsetTrim(env: Env, axis: string, crs: Option<string>, min: string, max: string, lo: Bound, hi: Bound)
    requires |axis| > 0 && |max| > 0
    requires ParseTimeOrScalar(env, min) == Some(lo) && ParseTimeOrScalar(env, max) == Some(hi)
    requires !lo.Time? && !hi.Time? && !(lo.Star? && hi.Star?) && Below(lo, hi)
    ensures ParseSubset(env, axis, crs, min, Some(max)) == Some(Subset(axis, crs, Trim, ScalarValue, lo, hi))
  {
  }

  /**
   * The time a '*' bound holds as written: msWCSParseTimeOrScalar20 writes
   * only the scalar of a '*' bound, so its time is whatever the bound's
   * storage holds (the bits of MS_WCS20_UNBOUNDED when the time shares them
   * with the scalar); `starTime` stands for it.
   */
  function TimeAsWritten(b: Bound, starTime: int): int {
    match b
    case Time(t) => t
    case _ => starTime
  }

  /** The interval check as written: a time trim compares the two stored times, '*' included. */
  predicate BelowAsWritten(lo: Bound, hi: Bound, kind: ValueKind, starTime: int) {
    if kind == TimeValue then TimeAsWritten(lo, starTime) < TimeAsWritten(hi, starTime)
    else Below(lo, hi)
  }

  /** `ParseSubset` with the interval check as written. */
  function ParseSubsetAsWritten(env: Env, axis: string, crs: Option<string>, min: string, max: Option<string>,
                                starTime: int): (r: Option<Subset>)
    ensures r.Some? ==> r.value.axis == axis && r.value.crs == crs
    ensures r.Some? && r.value.operation == Trim ==> BelowAsWritten(r.value.min, r.value.max, r.value.kind, starTime)
  {
    if |axis| == 0 then None
    else match ParseTimeOrScalar(env, min)
      case None => None
      case Some(lo) =>
        if max.Some? && |max.value| > 0 then
          match ParseTimeOrScalar(env, max.value)
          case None => None
          case Some(hi) =>
            var kind := if lo.Star? then KindOf(hi) else KindOf(lo);
            if lo.Star? && hi.Star? then None
            else if !lo.Star? && !hi.Star? && KindOf(lo) != KindOf(hi) then None
            else if !BelowAsWritten(lo, hi, kind, starTime) then None
            else Some(Subset(axis, crs, Trim, kind, lo, hi))
        else if lo.Star? then None
        else Some(Subset(axis, crs, Slice, KindOf(lo), lo, Star))
  }

  /** As written and corrected agree on every subset without a '*' bound in a time trim. */
  lemma ParseSubsetAsWrittenAgrees(env: Env, axis: string, crs: Option<string>, min: string, max: Option<string>,
                                   starTime: int)
    requires max.Some? && |max.value| > 0 ==>
      !((ParseTimeOrScalar(env, min) == Some(Star) && ParseTimeOrScalar(env, max.value).Some?
         && ParseTimeOrScalar(env, max.value).value.Time?)
        || (ParseTimeOrScalar(env, max.value) == Some(Star) && ParseTimeOrScalar(env, min).Some?
            && ParseTimeOrScalar(env, min).value.Time?))
    ensures ParseSubsetAsWritten(env, axis, crs, min, max, starTime) == ParseSubset(env, axis, crs, min, max)
  {
  }

  /**
   * A time trim with a '*' minimum, t(*,T): as written it is refused
   * whenever the time stored for '*' is not below T, as it is when those
   * are the bits of MS_WCS20_UNBOUNDED; the corrected reading takes '*' as
   * the open lower end and accepts it.
   */
  lemma ParseSubsetAsWrittenRefusesOpenStart(env: Env, axis: string, crs: Option<string>, min: string, max: string,
                                             t: int, starTime: int)
    requires |axis| > 0 && |max| > 0
    requires ParseTimeOrScalar(env, min) == Some(Star) && ParseTimeOrScalar(env, max) == Some(Time(t))
    requires t <= starTime
    ensures ParseSubsetAsWritten(env, axis, crs, min, Some(max), starTime).None?
    ensures ParseSubset(env, axis, crs, min, Some(max)) == Some(Subset(axis, crs, Trim, TimeValue, Star, Time(t)))
  {
  }

  /** Corrected: a time trim with one '*' end is the half-open interval from or to the given time. */
  lemma ParseSubsetOpenTime(env: Env, axis: string, crs: Option<string>, min: string, max: string, lo: Bound, hi: Bound)
    requires |axis| > 0 && |max| > 0
    requires ParseTimeOrScalar(env, min) == Some(lo) && ParseTimeOrScalar(env, max) == Some(hi)
    requires (lo.Star? && hi.Time?) || (lo.Time? && hi.Star?)
    ensures ParseSubset(env, axis, crs, min, Some(max)) == Some(Subset(axis, crs, Trim, TimeValue, lo, hi))
  {
  }

  // ---------------------------------------------------------------------
  // SIZE "axis(n)" and RESOLUTION "axis(x)"
  // ---------------------------------------------------------------------

  /** The axis name buffer holds 500 bytes; `strlcpy` keeps 499 characters. */
  const AxisNameMax := 499

  /** The axis text and the number text of "axis(number)". The axis ends at
      the first '(' or the first ')', whichever comes first; the number
      runs from after '(' to the first ')' when that follows the '(', and
      to the end of the string otherwise. Either bracket missing is an error. */
  function SplitParen(s: string): (r: Option<(string, string)>)
    ensures r.None? <==> Free(s, '(') || Free(s, ')')
    ensures r.Some? ==> |r.value.0| <= AxisNameMax
  {
    match (IndexOfChar(s, '('), IndexOfChar(s, ')'))
    case (Some(lp), Some(rp)) =>
      var cut := if lp < rp then lp else rp;
      var axis := if cut <= AxisNameMax then s[..cut] else s[..AxisNameMax];
      Some((axis, if rp > lp then s[lp + 1..rp] else s[lp + 1..]))
    case _ => None
  }

  /** msWCSParseSizeString20: the number must be an integer read completely. */
  function ParseSize(s: string): (r: Option<(string, int)>)
    ensures r.Some? ==> SplitParen(s).Some? && r.value.0 == SplitParen(s).value.0
    ensures r.Some? ==> ParseInteger(SplitParen(s).value.1) == Number(AllRead, r.value.1)
  {
    match SplitParen(s)
    case None => None
    case Some((axis, number)) =>
      var n := ParseInteger(number);
      if n.status == AllRead then Some((axis, n.value)) else None
  }

  /** msWCSParseResolutionString20: the number must be a double read completely. */
  function ParseResolution(s: string): (r: Option<(string, real)>)
    ensures r.Some? ==> SplitParen(s).Some? && r.value.0 == SplitParen(s).value.0
    ensures r.Some? ==> ParseDouble(SplitParen(s).value.1) == Number(AllRead, r.value.1)
  {
    match SplitParen(s)
    case None => None
    case Some((axis, number)) =>
      var x := ParseDouble(number);
      if x.status == AllRead then Some((axis, x.value)) else None
  }

  /** "axis(number)" splits back into its axis and number. */
  lemma SplitParenOf(axis: string, number: string)
    requires |axis| <= AxisNameMax
    requires Free(axis, '(') && Free(axis, ')') && Free(number, '(') && Free(number, ')')
    ensures SplitParen(axis + "(" + number + ")") == Some((axis, number))
  {
    var s := axis + "(" + number + ")";
    assert s == axis + ("(" + number + ")");
    IndexOfCharAfter(axis, "(" + number + ")", '(');
    assert s == (axis + "(" + number) + ")";
    IndexOfCharAfter(axis + "(" + number, ")", ')');
    assert s[..|axis|] == axis;
    assert s[|axis| + 1..|axis| + 1 + |number|] == number;
  }

  /** A SIZE value written as "axis(n)" reads back as (axis, n). */
  lemma SizeRoundTrip(axis: string, n: int)
    requires |axis| <= AxisNameMax && Free(axis, '(') && Free(axis, ')')
    requires -Two31 <= n < Two31
    ensures ParseSize(axis + "(" + IntToDecimal(n) + ")") == Some((axis, n))
  {
    DecimalFree(n, '(');
    DecimalFree(n, ')');
    SplitParenOf(axis, IntToDecimal(n));
    ParseIntegerOfDecimal(n);
  }

  /** A RESOLUTION value written as "axis(n)" reads back as (axis, n). */
  lemma ResolutionRoundTrip(axis: string, n: int)
    requires |axis| <= AxisNameMax && Free(axis, '(') && Free(axis, ')')
    ensures ParseResolution(axis + "(" + IntToDecimal(n) + ")") == Some((axis, n as real))
  {
    DecimalFree(n, '(');
    DecimalFree(n, ')');
    SplitParenOf(axis, IntToDecimal(n));
    ParseDoubleOfDecimal(n);
  }
}
