/** The preparation of a WCS 2.0 GetCoverage request: the request's axes are
    matched against the accepted spellings of the x and y axes, the frame of
    the answer (extent, size, resolution, subset CRS) is derived from the
    matched axes, and the range subset becomes the comma-separated band list
    handed to the raster driver. */
module Wcs20Coverage {
  import opened Wrappers
  import opened CStrings
  import opened CNumbers
  import opened MapString
  import opened Wcs20
  import opened Wcs20Request

  // ---------------------------------------------------------------------
  // msWCSValidateAndFindAxes20
  // ---------------------------------------------------------------------

  /** Why the axes of a request are refused. */
  datatype AxisError =
    | TimeSubset(axis: string)
    | SliceSubset(axis: string)
    | SameAxis(first: string, second: string)
    | InvalidAxis(axis: string)

  /** Whether `name` is one of the spellings in `names`, ignoring case. */
  predicate Spelled(names: seq<string>, name: string) {
    exists n :: 0 <= n < |names| && EqualFold(name, names[n])
  }

  /** The first accepted axis, at or after `a`, that `name` spells. */
  function SlotFrom(lists: seq<seq<string>>, name: string, a: nat): (r: Option<nat>)
    ensures r.Some? ==> a <= r.value < |lists| && Spelled(lists[r.value], name)
    ensures r.Some? ==> forall b :: a <= b < r.value ==> !Spelled(lists[b], name)
    ensures r.None? ==> forall b :: a <= b < |lists| ==> !Spelled(lists[b], name)
    decreases |lists| - a
  {
    if a >= |lists| then None
    else if Spelled(lists[a], name) then Some(a)
    else SlotFrom(lists, name, a + 1)
  }

  /** The accepted axis that a request axis stands for, if any. */
  function Slot(lists: seq<seq<string>>, ax: Axis): (r: Option<nat>)
    ensures r.Some? ==> r.value < |lists|
  {
    SlotFrom(lists, ax.name, 0)
  }

  /** The subsets GetCoverage can serve: none at all, or a trim over numbers. */
  predicate Servable(ax: Axis) {
    ax.subset.None? || (ax.subset.value.kind == ScalarValue && ax.subset.value.operation == Trim)
  }

  /** The loop over the request axes from `i` on; `out` holds, per accepted
      axis, the request axis already matched to it. */
  function FindAxesFrom(axes: seq<Axis>, lists: seq<seq<string>>, out: seq<Option<Axis>>, i: nat)
    : (r: Result<seq<Option<Axis>>, AxisError>)
    requires |out| == |lists|
    ensures r.Success? ==> |r.value| == |lists|
    decreases |axes| - i
  {
    if i >= |axes| then Success(out)
    else
      var ax := axes[i];
      if ax.subset.Some? && ax.subset.value.kind == TimeValue then Failure(TimeSubset(ax.name))
      else if ax.subset.Some? && ax.subset.value.operation == Slice then Failure(SliceSubset(ax.name))
      else match Slot(lists, ax)
        case None => Failure(InvalidAxis(ax.name))
        case Some(a) =>
          if out[a].Some? then Failure(SameAxis(out[a].value.name, ax.name))
          else FindAxesFrom(axes, lists, out[a := Some(ax)], i + 1)
  }

  function NoAxes(n: nat): (r: seq<Option<Axis>>)
    ensures |r| == n && forall a :: 0 <= a < n ==> r[a].None?
  {
    seq(n, _ => None)
  }

  /** msWCSValidateAndFindAxes20: per accepted axis, the request axis that
      stands for it. */
  function FindAxes(axes: seq<Axis>, lists: seq<seq<string>>): (r: Result<seq<Option<Axis>>, AxisError>)
    ensures r.Success? ==> |r.value| == |lists|
  {
    FindAxesFrom(axes, lists, NoAxes(|lists|), 0)
  }

  /** Every request axis is servable and stands for an accepted axis, and no
      two stand for the same one. */
  predicate ValidAxes(axes: seq<Axis>, lists: seq<seq<string>>) {
    (forall k :: 0 <= k < |axes| ==> Servable(axes[k]) && Slot(lists, axes[k]).Some?)
    && (forall k, l :: 0 <= k < l < |axes| ==> Slot(lists, axes[k]) != Slot(lists, axes[l]))
  }

  /** The same, for the axes from `i` on, none of them standing for an
      accepted axis already taken in `out`. */
  predicate ValidFrom(axes: seq<Axis>, lists: seq<seq<string>>, out: seq<Option<Axis>>, i: nat)
    requires |out| == |lists|
  {
    (forall k :: i <= k < |axes| ==> Servable(axes[k]) && Slot(lists, axes[k]).Some?
                                     && out[Slot(lists, axes[k]).value].None?)
    && (forall k, l :: i <= k < l < |axes| ==> Slot(lists, axes[k]) != Slot(lists, axes[l]))
  }

  lemma {:induction false} FindAxesFromSucceeds(axes: seq<Axis>, lists: seq<seq<string>>, out: seq<Option<Axis>>, i: nat)
    requires |out| == |lists| && i <= |axes|
    ensures FindAxesFrom(axes, lists, out, i).Success? <==> ValidFrom(axes, lists, out, i)
    decreases |axes| - i
  {
    if i < |axes| {
      var ax := axes[i];
      if Servable(ax) && Slot(lists, ax).Some? && out[Slot(lists, ax).value].None? {
        var a := Slot(lists, ax).value;
        var next := out[a := Some(ax)];
        assert FindAxesFrom(axes, lists, out, i) == FindAxesFrom(axes, lists, next, i + 1);
        FindAxesFromSucceeds(axes, lists, next, i + 1);
        if ValidFrom(axes, lists, next, i + 1) {
          forall k | i < k < |axes|
            ensures Slot(lists, axes[k]) != Slot(lists, axes[i])
          {
            assert next[Slot(lists, axes[k]).value].None?;
          }
          assert ValidFrom(axes, lists, out, i);
        }
        if ValidFrom(axes, lists, out, i) {
          forall k | i + 1 <= k < |axes|
            ensures next[Slot(lists, axes[k]).value].None?
          {
            assert Slot(lists, axes[k]) != Slot(lists, axes[i]);
          }
          assert ValidFrom(axes, lists, next, i + 1);
        }
      } else {
        assert !ValidFrom(axes, lists, out, i) by {
          assert !(Servable(axes[i]) && Slot(lists, axes[i]).Some? && out[Slot(lists, axes[i]).value].None?);
        }
      }
    }
  }

  /** The request axes are accepted exactly when every axis is servable and
      stands for an accepted axis of its own: a time subset, a slice, an
      unknown axis name and two spellings of one axis are each refused. */
  lemma FindAxesSucceeds(axes: seq<Axis>, lists: seq<seq<string>>)
    ensures FindAxes(axes, lists).Success? <==> ValidAxes(axes, lists)
  {
    FindAxesFromSucceeds(axes, lists, NoAxes(|lists|), 0);
  }

  /** The first request axis, at or after `i`, that stands for accepted axis `a`. */
  function Claim(axes: seq<Axis>, lists: seq<seq<string>>, a: nat, i: nat): (r: Option<Axis>)
    decreases |axes| - i
  {
    if i >= |axes| then None
    else if Slot(lists, axes[i]) == Some(a) then Some(axes[i])
    else Claim(axes, lists, a, i + 1)
  }

  lemma {:induction false} FindAxesFromSlots(axes: seq<Axis>, lists: seq<seq<string>>, out: seq<Option<Axis>>, i: nat)
    requires |out| == |lists| && i <= |axes|
    requires FindAxesFrom(axes, lists, out, i).Success?
    ensures forall a :: 0 <= a < |lists| ==>
      FindAxesFrom(axes, lists, out, i).value[a] ==
        (if Claim(axes, lists, a, i).Some? then Claim(axes, lists, a, i) else out[a])
    decreases |axes| - i
  {
    if i < |axes| {
      var ax := axes[i];
      var s := Slot(lists, ax).value;
      var next := out[s := Some(ax)];
      assert FindAxesFrom(axes, lists, out, i) == FindAxesFrom(axes, lists, next, i + 1);
      FindAxesFromSlots(axes, lists, next, i + 1);
      FindAxesFromSucceeds(axes, lists, next, i + 1);
      assert Claim(axes, lists, s, i + 1).None? by {
        ClaimNone(axes, lists, next, s, i + 1);
      }
    }
  }

  /** Nothing from `i` on stands for an accepted axis that is already taken. */
  lemma {:induction false} ClaimNone(axes: seq<Axis>, lists: seq<seq<string>>, out: seq<Option<Axis>>, a: nat, i: nat)
    requires |out| == |lists| && i <= |axes| && a < |lists|
    requires ValidFrom(axes, lists, out, i) && out[a].Some?
    ensures Claim(axes, lists, a, i).None?
    decreases |axes| - i
  {
    if i < |axes| {
      assert Slot(lists, axes[i]) != Some(a);
      ClaimNone(axes, lists, out, a, i + 1);
    }
  }

  /** Accepted request axes land on the accepted axes they spell, and an
      accepted axis no request axis spells stays empty. */
  lemma FindAxesSlots(axes: seq<Axis>, lists: seq<seq<string>>)
    requires FindAxes(axes, lists).Success?
    ensures forall a :: 0 <= a < |lists| ==> FindAxes(axes, lists).value[a] == Claim(axes, lists, a, 0)
  {
    FindAxesFromSlots(axes, lists, NoAxes(|lists|), 0);
  }

  // ---------------------------------------------------------------------
  // msWCSGetCoverage20_FinalizeParamsObj
  // ---------------------------------------------------------------------

  const XAxisNames: seq<string> :=
    ["x", "xaxis", "x-axis", "x_axis", "long", "long_axis", "long-axis", "lon", "lon_axis", "lon-axis"]
  const YAxisNames: seq<string> := ["y", "yaxis", "y-axis", "y_axis", "lat", "lat_axis", "lat-axis"]
  const AxisNames: seq<seq<string>> := [XAxisNames, YAxisNames]

  /** The request's bounding box; a side left `None` keeps its initial
      value, -DBL_MAX for a minimum and DBL_MAX for a maximum. */
  datatype Extent = Extent(minx: Option<real>, miny: Option<real>, maxx: Option<real>, maxy: Option<real>)

  /** What finalisation writes into the parameters. A resolution left
      `None` keeps the initial MS_WCS20_UNBOUNDED. */
  datatype Frame = Frame(extent: Extent, width: int, height: int,
                         resolutionX: Option<real>, resolutionY: Option<real>,
                         resolutionUnits: Option<string>, subsetCrs: string)

  /** Why finalisation fails. `CrsAgainstNull` is the x subset naming a CRS
      while the y subset names none: the source then hands a NULL pointer to
      `strcasecmp`, whose outcome C leaves undefined. */
  datatype FrameError = BadAxes(reason: AxisError) | CrsMismatch | CrsAgainstNull | UomMismatch

  /** A bound as a number; '*' is unbounded. */
  function Limit(b: Bound): Option<real> {
    if b.Scalar? then Some(b.x) else None
  }

  function SubsetOf(ax: Option<Axis>): Option<Subset> {
    if ax.Some? then ax.value.subset else None
  }

  /** The CRS named by the axis's subset. */
  function CrsOf(ax: Option<Axis>): Option<string> {
    var s := SubsetOf(ax);
    if s.Some? then s.value.crs else None
  }

  function UomOf(ax: Option<Axis>): Option<string> {
    if ax.Some? then ax.value.resolutionUom else None
  }

  function LowOf(ax: Option<Axis>): Option<real> {
    var s := SubsetOf(ax);
    if s.Some? then Limit(s.value.min) else None
  }

  function HighOf(ax: Option<Axis>): Option<real> {
    var s := SubsetOf(ax);
    if s.Some? then Limit(s.value.max) else None
  }

  function SizeOf(ax: Option<Axis>): int {
    if ax.Some? then ax.value.size else 0
  }

  function ResolutionOf(ax: Option<Axis>): Option<real> {
    if ax.Some? then ax.value.resolution else None
  }

  /** The frame from the matched x and y axes. The y subset's CRS is
      compared with the x subset's when the latter names one, and taken over
      otherwise; the units of measure of the resolutions must agree when both
      are given. */
  function FrameOf(x: Option<Axis>, y: Option<Axis>): (r: Result<Frame, FrameError>)
    ensures r.Success? ==> r.value.width == SizeOf(x) && r.value.height == SizeOf(y)
    ensures r.Success? ==> r.value.resolutionX == ResolutionOf(x) && r.value.resolutionY == ResolutionOf(y)
  {
    var cx := CrsOf(x);
    var ys := SubsetOf(y);
    if cx.Some? && ys.Some? && ys.value.crs.None? then Failure(CrsAgainstNull)
    else if cx.Some? && ys.Some? && !EqualFold(cx.value, ys.value.crs.value) then Failure(CrsMismatch)
    else if UomOf(x).Some? && UomOf(y).Some? && !EqualFold(UomOf(x).value, UomOf(y).value) then Failure(UomMismatch)
    else
      var crs := if cx.Some? then cx else CrsOf(y);
      Success(Frame(Extent(LowOf(x), LowOf(y), HighOf(x), HighOf(y)),
                    SizeOf(x), SizeOf(y), ResolutionOf(x), ResolutionOf(y),
                    if UomOf(x).Some? then UomOf(x) else UomOf(y),
                    if crs.Some? then crs.value else "imageCRS"))
  }

  /** msWCSGetCoverage20_FinalizeParamsObj over the request's axes. */
  function Finalize(axes: seq<Axis>): (r: Result<Frame, FrameError>)
  {
    match FindAxes(axes, AxisNames)
    case Failure(e) => Failure(BadAxes(e))
    case Success(slots) => FrameOf(slots[0], slots[1])
  }

  /** Finalisation reads the first request axis spelling x and the first
      spelling y, and refuses any request whose axes are not valid. */
  lemma FinalizeClaims(axes: seq<Axis>)
    ensures ValidAxes(axes, AxisNames) ==>
      Finalize(axes) == FrameOf(Claim(axes, AxisNames, 0, 0), Claim(axes, AxisNames, 1, 0))
    ensures !ValidAxes(axes, AxisNames) ==> Finalize(axes).Failure? && Finalize(axes).error.BadAxes?
  {
    FindAxesSucceeds(axes, AxisNames);
    if ValidAxes(axes, AxisNames) {
      FindAxesSlots(axes, AxisNames);
    }
  }

  /** The subset CRS agrees, ignoring case, with every CRS the x and y
      subsets name, and is "imageCRS" when they name none. */
  lemma FrameCrs(x: Option<Axis>, y: Option<Axis>)
    requires FrameOf(x, y).Success?
    ensures CrsOf(x).Some? ==> EqualFold(FrameOf(x, y).value.subsetCrs, CrsOf(x).value)
    ensures CrsOf(y).Some? ==> EqualFold(FrameOf(x, y).value.subsetCrs, CrsOf(y).value)
    ensures CrsOf(x).None? && CrsOf(y).None? ==> FrameOf(x, y).value.subsetCrs == "imageCRS"
  {
  }

  /** Two subsets naming different CRSs, or an x subset with a CRS against a
      y subset without one, make finalisation fail. */
  lemma FrameCrsConflict(x: Option<Axis>, y: Option<Axis>)
    requires CrsOf(x).Some? && SubsetOf(y).Some?
    requires CrsOf(y).None? || !EqualFold(CrsOf(x).value, CrsOf(y).value)
    ensures FrameOf(x, y).Failure? && FrameOf(x, y).error != UomMismatch
  {
  }

  /** The units of the resolution agree with every unit the axes give. */
  lemma FrameUnits(x: Option<Axis>, y: Option<Axis>)
    requires FrameOf(x, y).Success?
    ensures UomOf(x).Some? ==> FrameOf(x, y).value.resolutionUnits == UomOf(x)
    ensures UomOf(y).Some? ==> EqualFold(FrameOf(x, y).value.resolutionUnits.value, UomOf(y).value)
    ensures UomOf(x).None? && UomOf(y).None? ==> FrameOf(x, y).value.resolutionUnits.None?
  {
  }

  /** A subset as the subset parser makes it: the bounds of a trim increase. */
  predicate Ordered(ax: Option<Axis>) {
    SubsetOf(ax).Some? ==> Below(SubsetOf(ax).value.min, SubsetOf(ax).value.max)
  }

  /** The extent is drawn from the subsets, and with subsets as parsed its
      sides increase wherever both are given. */
  lemma FrameExtent(x: Option<Axis>, y: Option<Axis>)
    requires FrameOf(x, y).Success?
    requires Ordered(x) && Ordered(y)
    ensures var e := FrameOf(x, y).value.extent;
      e.minx.Some? && e.maxx.Some? ==> e.minx.value < e.maxx.value
    ensures var e := FrameOf(x, y).value.extent;
      e.miny.Some? && e.maxy.Some? ==> e.miny.value < e.maxy.value
    ensures FrameOf(x, y).value.extent.minx.Some? ==>
      SubsetOf(x).Some? && SubsetOf(x).value.min == Scalar(FrameOf(x, y).value.extent.minx.value)
    ensures FrameOf(x, y).value.extent.maxy.Some? ==>
      SubsetOf(y).Some? && SubsetOf(y).value.max == Scalar(FrameOf(x, y).value.extent.maxy.value)
  {
  }

  // ---------------------------------------------------------------------
  // msWCSGetCoverage20_GetBands
  // ---------------------------------------------------------------------

  /** `snprintf(buf, size, "%s", s)`: at most `size - 1` characters of `s`. */
  function Snprintf(s: string, size: nat): (r: string)
    requires size >= 1
    ensures |r| < size && |r| <= |s| && r == s[..|r|]
    ensures |s| < size ==> r == s
  {
    if |s| < size then s else s[..size - 1]
  }

  /** The band list without a range subset: "1", then ",%d" of 2 up to
      `numbands`, each printed into a ten-character buffer. */
  function DefaultBands(numbands: int): (r: string)
    decreases numbands
  {
    if numbands <= 1 then "1"
    else DefaultBands(numbands - 1) + Snprintf("," + NatToDecimal(numbands), 10)
  }

  /** "1", "2", ..., the numbers of the first `n` bands. */
  function BandNumbers(n: nat): (r: seq<string>)
    ensures |r| == n && forall k :: 0 <= k < n ==> r[k] == NatToDecimal(k + 1)
  {
    seq(n, k requires 0 <= k < n => NatToDecimal(k + 1))
  }

  lemma {:induction false} DecimalWidth(n: nat, d: nat)
    requires 1 <= d && n < Pow10(d)
    ensures |NatToDecimal(n)| <= d
    decreases d
  {
    if n >= 10 {
      assert n / 10 < Pow10(d - 1);
      DecimalWidth(n / 10, d - 1);
    }
  }

  lemma {:induction false} JoinSnoc(a: seq<string>, x: string, d: string)
    requires |a| >= 1
    ensures JoinWith(a + [x], d) == JoinWith(a, d) + d + x
    decreases |a|
  {
    if |a| == 1 {
      assert (a + [x])[1..] == [x];
    } else {
      assert (a + [x])[1..] == a[1..] + [x];
      JoinSnoc(a[1..], x, d);
    }
  }

  /** Up to 99,999,999 bands, the default list names every band once, in
      order: the ten-character buffer holds each ",%d". */
  lemma {:induction false} DefaultBandsAll(n: nat)
    requires 1 <= n < 100_000_000
    ensures DefaultBands(n) == JoinWith(BandNumbers(n), ",")
    decreases n
  {
    if n > 1 {
      DefaultBandsAll(n - 1);
      assert Pow10(8) == 100_000_000;
      DecimalWidth(n, 8);
      assert BandNumbers(n) == BandNumbers(n - 1) + [NatToDecimal(n)];
      JoinSnoc(BandNumbers(n - 1), NatToDecimal(n), ",");
    } else {
      assert NatToDecimal(1) == "1";
    }
  }

  /** Why a range subset is refused. */
  datatype BandError = NotABand(entry: string)

  /** CSLFindString: the first name equal to `s` ignoring case. */
  function FindName(names: seq<string>, s: string): (r: Option<nat>)
    ensures r.Some? ==> r.value < |names| && EqualFold(names[r.value], s)
    ensures r.Some? ==> forall j :: 0 <= j < r.value ==> !EqualFold(names[j], s)
    ensures r.None? ==> forall j :: 0 <= j < |names| ==> !EqualFold(names[j], s)
  {
    if |names| == 0 then None
    else if EqualFold(names[0], s) then Some(0)
    else match FindName(names[1..], s)
      case None => None
      case Some(j) => Some(j + 1)
  }

  /** The band number of one range subset entry: an integer read completely
      is written back with `%d`; otherwise a band identifier gives its
      position in `bandIds` (the layer's "rangeset_axes" metadata, split on
      blanks) plus one. */
  function BandToken(bandIds: seq<string>, entry: string): Option<string> {
    var n := ParseInteger(entry);
    if n.status == AllRead then Some(IntToDecimal(n.value))
    else match FindName(bandIds, entry)
      case Some(i) => Some(NatToDecimal(i + 1))
      case None => None
  }

  /** The band number of every entry, `None` where an entry has none. */
  function Tokens(bandIds: seq<string>, entries: seq<string>): (r: seq<Option<string>>)
    ensures |r| == |entries|
  {
    seq(|entries|, k requires 0 <= k < |entries| => BandToken(bandIds, entries[k]))
  }

  /** The band numbers of the entries from `i` on, or the first of them
      that has none. */
  function Collect(entries: seq<string>, toks: seq<Option<string>>, i: nat): (r: Result<seq<string>, BandError>)
    requires |toks| == |entries| && i <= |entries|
    ensures r.Success? ==> |r.value| == |entries| - i
    ensures r.Success? ==> forall k :: i <= k < |entries| ==> toks[k] == Some(r.value[k - i])
    ensures r.Failure? ==>
      exists k :: i <= k < |entries| && toks[k].None? && r.error == NotABand(entries[k])
                  && forall j :: i <= j < k ==> toks[j].Some?
    decreases |entries| - i
  {
    if i >= |entries| then Success([])
    else match toks[i]
      case None => Failure(NotABand(entries[i]))
      case Some(t) =>
        match Collect(entries, toks, i + 1)
        case Failure(e) => Failure(e)
        case Success(ts) => Success([t] + ts)
  }

  /** The band list, as intended: without a range subset every band, and
      with one the band numbers of its entries joined by commas. */
  function GetBands(numbands: int, rangeSubset: Option<seq<string>>, bandIds: seq<string>): (r: Result<string, BandError>)
    ensures rangeSubset.None? ==> r == Success(DefaultBands(numbands))
  {
    match rangeSubset
    case None => Success(DefaultBands(numbands))
    case Some(entries) =>
      match Collect(entries, Tokens(bandIds, entries), 0)
      case Failure(e) => Failure(e)
      case Success(ts) => Success(JoinWith(ts, ","))
  }

  /** The range subset of the parsed request; NULL when it was not given. */
  function RangeSubset(p: Params): Option<seq<string>> {
    if RangeSubsetKey in p.lists then Some(p.lists[RangeSubsetKey]) else None
  }

  /** The source's loop: a comma before every entry but the first, then the
      entry's band number, each added with `strlcat` into a buffer of
      `maxlen` characters. */
  function AppendBands(text: string, entries: seq<string>, toks: seq<Option<string>>, i: nat, maxlen: nat)
    : (r: Result<string, BandError>)
    requires |toks| == |entries|
    decreases |entries| - i
  {
    if i >= |entries| then Success(text)
    else
      var sep := if i != 0 then StrlcatText(text, ",", maxlen) else text;
      match toks[i]
      case None => Failure(NotABand(entries[i]))
      case Some(t) => AppendBands(StrlcatText(sep, t, maxlen), entries, toks, i + 1, maxlen)
  }

  /** msWCSGetCoverage20_GetBands as written: the buffer holds four
      characters per entry, so a longer list is cut short. */
  function GetBandsAsWritten(numbands: int, rangeSubset: Option<seq<string>>, bandIds: seq<string>)
    : (r: Result<string, BandError>)
  {
    match rangeSubset
    case None => Success(DefaultBands(numbands))
    case Some(entries) => AppendBands("", entries, Tokens(bandIds, entries), 0, 4 * |entries|)
  }

  /** Every band number has at most three characters. */
  predicate Short(toks: seq<Option<string>>) {
    forall k :: 0 <= k < |toks| && toks[k].Some? ==> |toks[k].value| <= 3
  }

  /** What the loop ends with, given the text so far and the band numbers
      still to come. */
  function Continued(text: string, ts: seq<string>, first: bool): string {
    if first then JoinWith(ts, ",")
    else if |ts| == 0 then text
    else text + "," + JoinWith(ts, ",")
  }

  lemma ContinuedStep(text: string, t: string, ts: seq<string>, first: bool)
    ensures Continued(text, [t] + ts, first) == Continued(if first then t else text + "," + t, ts, false)
  {
    if |ts| > 0 {
      JoinCons(t, ts, ",");
    }
  }

  /** The outcome once the remaining band numbers are known. */
  function Finish(text: string, rest: Result<seq<string>, BandError>, first: bool): Result<string, BandError> {
    match rest
    case Failure(e) => Failure(e)
    case Success(ts) => Success(Continued(text, ts, first))
  }

  lemma {:induction false} AppendBandsShort(text: string, entries: seq<string>, toks: seq<Option<string>>, i: nat)
    requires |toks| == |entries| && i <= |entries| && Short(toks)
    requires i == 0 ==> text == []
    requires i > 0 ==> |text| <= 4 * i - 1
    ensures AppendBands(text, entries, toks, i, 4 * |entries|) == Finish(text, Collect(entries, toks, i), i == 0)
    decreases |entries| - i
  {
    var maxlen := 4 * |entries|;
    if i < |entries| && toks[i].Some? {
      var t := toks[i].value;
      var sep := if i != 0 then text + "," else text;
      var next := sep + t;
      assert AppendBands(text, entries, toks, i, maxlen) == AppendBands(next, entries, toks, i + 1, maxlen) by {
        assert (if i != 0 then StrlcatText(text, ",", maxlen) else text) == sep;
        assert StrlcatText(sep, t, maxlen) == next;
      }
      AppendBandsShort(next, entries, toks, i + 1);
      var later := Collect(entries, toks, i + 1);
      if later.Success? {
        assert Collect(entries, toks, i) == Success([t] + later.value);
        assert next == (if i == 0 then t else text + "," + t);
        ContinuedStep(text, t, later.value, i == 0);
      } else {
        assert Collect(entries, toks, i) == later;
      }
    }
  }

  /** While every band number has at most three characters, the source's
      buffer is long enough and it builds the intended list. */
  lemma GetBandsAsWrittenAgrees(numbands: int, rangeSubset: Option<seq<string>>, bandIds: seq<string>)
    requires rangeSubset.Some? ==> Short(Tokens(bandIds, rangeSubset.value))
    ensures GetBandsAsWritten(numbands, rangeSubset, bandIds) == GetBands(numbands, rangeSubset, bandIds)
  {
    if rangeSubset.Some? {
      var es := rangeSubset.value;
      AppendBandsShort([], es, Tokens(bandIds, es), 0);
    }
  }

  /** A four-digit band number overflows the buffer: RANGESUBSET=1000 asks
      for band 1000 and the source passes on band 100. */
  lemma GetBandsAsWrittenTruncates(numbands: int, bandIds: seq<string>)
    ensures GetBandsAsWritten(numbands, Some(["1000"]), bandIds) == Success("100")
    ensures GetBands(numbands, Some(["1000"]), bandIds) == Success("1000")
  {
    TokensOf1000(bandIds);
    FourDigitsTruncate(numbands, bandIds, "1000");
    assert "1000"[..3] == "100";
  }

  /** A single four-character band number is cut to three as written. */
  lemma FourDigitsTruncate(numbands: int, bandIds: seq<string>, e: string)
    requires |e| == 4 && Tokens(bandIds, [e]) == [Some(e)]
    ensures GetBandsAsWritten(numbands, Some([e]), bandIds) == Success(e[..3])
    ensures GetBands(numbands, Some([e]), bandIds) == Success(e)
  {
    var toks := Tokens(bandIds, [e]);
    OneEntry(e, toks);
    assert StrlcatText([], e, 4) == e[..3];
  }

  /** A range subset of one entry with a band number. */
  lemma OneEntry(e: string, toks: seq<Option<string>>)
    requires toks == [Some(e)]
    ensures AppendBands([], [e], toks, 0, 4) == Success(StrlcatText([], e, 4))
    ensures Collect([e], toks, 0) == Success([e])
    ensures JoinWith([e], ",") == e
  {
    assert AppendBands([], [e], toks, 0, 4) == AppendBands(StrlcatText([], e, 4), [e], toks, 1, 4);
    assert Collect([e], toks, 1) == Success([]);
    assert [e] + [] == [e];
  }

  /** The single entry "1000" is an integer and passes on as itself. */
  lemma TokensOf1000(bandIds: seq<string>)
    ensures Tokens(bandIds, ["1000"]) == [Some("1000")]
  {
    assert IntToDecimal(1000) == "1000";
    ParseIntegerOfDecimal(1000);
  }

  /** An entry that is an integer is passed on as that integer. */
  lemma BandTokenInteger(bandIds: seq<string>, n: int)
    requires -Two31 <= n < Two31
    ensures BandToken(bandIds, IntToDecimal(n)) == Some(IntToDecimal(n))
  {
    ParseIntegerOfDecimal(n);
  }

  /** An entry that is no integer but the name of a band is passed on as
      the band's position, counted from one, and the number reads back. */
  lemma BandTokenName(bandIds: seq<string>, entry: string, i: nat)
    requires ParseInteger(entry).status != AllRead
    requires i < |bandIds| && EqualFold(bandIds[i], entry)
    requires forall j :: 0 <= j < i ==> !EqualFold(bandIds[j], entry)
    ensures BandToken(bandIds, entry).Some?
    ensures DecimalValue(BandToken(bandIds, entry).value) == i + 1
  {
    assert FindName(bandIds, entry) == Some(i);
    DecimalRoundTrip(i + 1);
  }

  lemma {:induction false} AppendBandsRefuses(text: string, entries: seq<string>, toks: seq<Option<string>>, i: nat, maxlen: nat, k: nat)
    requires |toks| == |entries| && i <= k < |entries| && toks[k].None?
    ensures AppendBands(text, entries, toks, i, maxlen).Failure?
    decreases |entries| - i
  {
    if i < k && toks[i].Some? {
      var sep := if i != 0 then StrlcatText(text, ",", maxlen) else text;
      AppendBandsRefuses(StrlcatText(sep, toks[i].value, maxlen), entries, toks, i + 1, maxlen, k);
    }
  }

  /** An entry that is neither an integer nor a band name refuses the whole
      range subset, in the source as in the intended list. */
  lemma GetBandsRefuses(numbands: int, entries: seq<string>, bandIds: seq<string>, k: nat)
    requires k < |entries|
    requires ParseInteger(entries[k]).status != AllRead
    requires forall j :: 0 <= j < |bandIds| ==> !EqualFold(bandIds[j], entries[k])
    ensures GetBands(numbands, Some(entries), bandIds).Failure?
    ensures GetBandsAsWritten(numbands, Some(entries), bandIds).Failure?
  {
    var toks := Tokens(bandIds, entries);
    assert toks[k].None?;
    AppendBandsRefuses([], entries, toks, 0, 4 * |entries|, k);
  }

  /** A range subset is served exactly when every entry is an integer or a
      band name. */
  lemma GetBandsServes(numbands: int, entries: seq<string>, bandIds: seq<string>)
    ensures GetBands(numbands, Some(entries), bandIds).Success? <==>
      forall k :: 0 <= k < |entries| ==> BandToken(bandIds, entries[k]).Some?
  {
    var toks := Tokens(bandIds, entries);
    var c := Collect(entries, toks, 0);
    if c.Failure? {
      var k :| 0 <= k < |entries| && toks[k].None?;
      assert BandToken(bandIds, entries[k]).None?;
    } else {
      assert GetBands(numbands, Some(entries), bandIds).Success?;
      forall k | 0 <= k < |entries|
        ensures BandToken(bandIds, entries[k]).Some?
      {
        assert toks[k] == Some(c.value[k]);
      }
    }
  }

  /** A served range subset names one band per entry, in order. */
  lemma GetBandsLists(numbands: int, entries: seq<string>, bandIds: seq<string>)
    requires GetBands(numbands, Some(entries), bandIds).Success?
    ensures exists ts :: |ts| == |entries| && GetBands(numbands, Some(entries), bandIds).value == JoinWith(ts, ",")
                         && forall k :: 0 <= k < |entries| ==> BandToken(bandIds, entries[k]) == Some(ts[k])
  {
    var toks := Tokens(bandIds, entries);
    var ts := Collect(entries, toks, 0).value;
    assert forall k :: 0 <= k < |entries| ==> toks[k] == Some(ts[k]);
    assert GetBands(numbands, Some(entries), bandIds).value == JoinWith(ts, ",");
  }
}
