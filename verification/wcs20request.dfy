/** The key-value loop of the WCS 2.0 request parser (msWCSParseRequest20
    in mapwcs20.c): each parameter is classified by its name, ignoring
    case; VERSION, REQUEST, SERVICE and COVERAGEID may be given once; the
    list-valued parameters accumulate; FORMAT and friends keep the last
    value; SIZE, RESOLUTION and SUBSET address an axis by name, creating it
    on first use, and each may be set once per axis; unknown names are
    collected in order. The XML (POST) form of the request is not part of
    this model. */
module Wcs20Request {
  import opened Wrappers
  import opened CStrings
  import opened Wcs20

  /** One CGI parameter: `ParamNames[i]` and `ParamValues[i]`. */
  datatype Param = Param(name: string, value: string)

  /** What the loop makes of a parameter name. */
  datatype KeyKind =
    | VersionKey | RequestKey | ServiceKey | AcceptVersionsKey | SectionsKey
    | UpdateSequenceKey | AcceptFormatsKey | AcceptLanguagesKey | CoverageIdKey
    | FormatKey | MediaTypeKey | InterpolationKey | OutputCrsKey
    | SizeKey | ResolutionKey | SubsetKey | RangeSubsetKey | MapKey | UnknownKey

  /** The names are compared with `strcasecmp`, and SIZE, RESOLUTION and
      SUBSET with `strncasecmp` over their own length, so that "SUBSETX"
      is a subset; the tests run in this order. */
  function Classify(key: string): KeyKind {
    ClassifyLower(LowerAll(key))
  }

  function ClassifyLower(k: string): KeyKind {
    if k == "version" then VersionKey
    else if k == "request" then RequestKey
    else if k == "service" then ServiceKey
    else if k == "acceptversions" then AcceptVersionsKey
    else if k == "sections" then SectionsKey
    else if k == "updatesequence" then UpdateSequenceKey
    else if k == "acceptformats" then AcceptFormatsKey
    else if k == "acceptlanguages" then AcceptLanguagesKey
    else if k == "coverageid" then CoverageIdKey
    else if k == "format" then FormatKey
    else if k == "mediatype" then MediaTypeKey
    else if k == "interpolation" then InterpolationKey
    else if k == "outputcrs" then OutputCrsKey
    else if StartsWith(k, "size") then SizeKey
    else if StartsWith(k, "resolution") then ResolutionKey
    else if StartsWith(k, "subset") then SubsetKey
    else if k == "rangesubset" then RangeSubsetKey
    else if k == "map" then MapKey
    else UnknownKey
  }

  /** The parameters that may appear only once. */
  predicate IsOnce(k: KeyKind) {
    k == VersionKey || k == RequestKey || k == ServiceKey || k == CoverageIdKey
  }

  /** The parameters that address an axis. */
  predicate IsAxisKey(k: KeyKind) {
    k == SizeKey || k == ResolutionKey || k == SubsetKey
  }

  // ---------------------------------------------------------------------
  // Axes (msWCSCreateAxisObj20, msWCSFindAxis20, msWCSInsertAxisObj20)
  // ---------------------------------------------------------------------

  /** An axis of the request. A size of 0 means none was given and a
      missing resolution stands for MS_WCS20_UNBOUNDED. */
  datatype Axis = Axis(name: string, size: int, resolution: Option<real>,
                       resolutionUom: Option<string>, subset: Option<Subset>)

  function NewAxis(name: string): Axis {
    Axis(name, 0, None, None, None)
  }

  /** The first axis whose name equals `name` ignoring case. */
  function FindAxis(axes: seq<Axis>, name: string): (r: Option<nat>)
    ensures r.Some? ==> r.value < |axes| && EqualFold(axes[r.value].name, name)
    ensures r.Some? ==> forall i :: 0 <= i < r.value ==> !EqualFold(axes[i].name, name)
    ensures r.None? ==> forall i :: 0 <= i < |axes| ==> !EqualFold(axes[i].name, name)
  {
    FindAxisFrom(axes, name, 0)
  }

  function FindAxisFrom(axes: seq<Axis>, name: string, from: nat): (r: Option<nat>)
    requires from <= |axes|
    ensures r.Some? ==> from <= r.value < |axes| && EqualFold(axes[r.value].name, name)
    ensures r.Some? ==> forall i :: from <= i < r.value ==> !EqualFold(axes[i].name, name)
    ensures r.None? ==> forall i :: from <= i < |axes| ==> !EqualFold(axes[i].name, name)
    decreases |axes| - from
  {
    if from == |axes| then None
    else if EqualFold(axes[from].name, name) then Some(from)
    else FindAxisFrom(axes, name, from + 1)
  }

  /** The axes after looking `name` up, appending a fresh axis when absent. */
  function WithAxis(axes: seq<Axis>, name: string): seq<Axis> {
    if FindAxis(axes, name).Some? then axes else axes + [NewAxis(name)]
  }

  /** Where `name` sits in `WithAxis(axes, name)`. */
  function AxisIndex(axes: seq<Axis>, name: string): (r: nat)
    ensures r < |WithAxis(axes, name)| && EqualFold(WithAxis(axes, name)[r].name, name)
  {
    match FindAxis(axes, name)
    case Some(i) => i
    case None => |axes|
  }

  /** No two axes share a name, ignoring case. */
  predicate Distinct(axes: seq<Axis>) {
    forall i, j :: 0 <= i < j < |axes| ==> !EqualFold(axes[i].name, axes[j].name)
  }

  // ---------------------------------------------------------------------
  // The parameter record (msWCSCreateParamsObj20)
  // ---------------------------------------------------------------------

  /** The string-valued parameters: VERSION, REQUEST, SERVICE,
      UPDATESEQUENCE, FORMAT, INTERPOLATION and OUTPUTCRS. */
  predicate IsTextKey(k: KeyKind) {
    k == VersionKey || k == RequestKey || k == ServiceKey || k == UpdateSequenceKey
    || k == FormatKey || k == InterpolationKey || k == OutputCrsKey
  }

  /** The list-valued parameters: ACCEPTVERSIONS, SECTIONS and RANGESUBSET. */
  predicate IsListKey(k: KeyKind) {
    k == AcceptVersionsKey || k == SectionsKey || k == RangeSubsetKey
  }

  /** The fields of wcs20ParamsObj that the key-value loop fills in. The
      string fields are keyed by the parameter that sets them, and so are
      the string lists (a NULL list is an absent or empty entry); the
      coverage ids are kept apart because their presence is tested. */
  datatype Params = Params(
    texts: map<KeyKind, string>,
    lists: map<KeyKind, seq<string>>,
    ids: Option<seq<string>>,
    multipart: bool,
    axes: seq<Axis>,
    invalid: seq<string>)

  const Initial := Params(map[], map[], None, false, [], [])

  /** The string field set by parameters of kind `k` (`version`, `format`, ...). */
  function Text(p: Params, k: KeyKind): Option<string> {
    if k in p.texts then Some(p.texts[k]) else None
  }

  /** The string list extended by parameters of kind `k` (`accept_versions`, ...). */
  function List(p: Params, k: KeyKind): seq<string> {
    if k in p.lists then p.lists[k] else []
  }

  /** Whether the once-only parameter of kind `k` is already present. */
  predicate Holds(p: Params, k: KeyKind) {
    if k == CoverageIdKey then p.ids.Some? else IsOnce(k) && k in p.texts
  }

  /** Why the loop stops. */
  datatype KvpError =
    | AlreadySet(kind: KeyKind)
    | BadSize | BadResolution | BadSubset
    | SizeAlreadySet(axis: string) | ResolutionAlreadySet(axis: string) | AlreadySubsetted(axis: string)

  // ---------------------------------------------------------------------
  // One parameter
  // ---------------------------------------------------------------------

  /** A well-formed SIZE, RESOLUTION or SUBSET value: the axis it names
      and the setting it makes. */
  datatype Setting =
    | SizeSetting(axis: string, size: int)
    | ResolutionSetting(axis: string, resolution: real)
    | SubsetSetting(axis: string, subset: Subset)

  /** The kind of parameter that makes a setting. */
  function SortOf(st: Setting): KeyKind {
    match st
    case SizeSetting(_, _) => SizeKey
    case ResolutionSetting(_, _) => ResolutionKey
    case SubsetSetting(_, _) => SubsetKey
  }

  /** The value of a SIZE, RESOLUTION or SUBSET parameter, read by
      msWCSParseSizeString20, msWCSParseResolutionString20 or
      msWCSParseSubsetKVPString20. */
  function ReadSetting(env: Env, k: KeyKind, value: string): (r: Option<Setting>)
    ensures r.Some? ==> IsAxisKey(k) && SortOf(r.value) == k
    ensures r.Some? && k == SubsetKey ==> r.value.axis == r.value.subset.axis
  {
    match k
    case SizeKey => (match ParseSize(value) case Some(v) => Some(SizeSetting(v.0, v.1)) case None => None)
    case ResolutionKey => (match ParseResolution(value) case Some(v) => Some(ResolutionSetting(v.0, v.1)) case None => None)
    case SubsetKey => (match ParseSubsetKvp(env, value) case Some(s) => Some(SubsetSetting(s.axis, s)) case None => None)
    case _ => None
  }

  /** Whether the axis already carries a setting made by a parameter of kind `k`. */
  predicate Taken(a: Axis, k: KeyKind) {
    match k
    case SizeKey => a.size != 0
    case ResolutionKey => a.resolution.Some?
    case SubsetKey => a.subset.Some?
    case _ => false
  }

  function Apply(st: Setting, a: Axis): Axis {
    match st
    case SizeSetting(_, n) => a.(size := n)
    case ResolutionSetting(_, x) => a.(resolution := Some(x))
    case SubsetSetting(_, s) => a.(subset := Some(s))
  }

  function ParseError(k: KeyKind): KvpError {
    if k == SizeKey then BadSize else if k == ResolutionKey then BadResolution else BadSubset
  }

  function TakenError(st: Setting): KvpError {
    match st
    case SizeSetting(name, _) => SizeAlreadySet(name)
    case ResolutionSetting(name, _) => ResolutionAlreadySet(name)
    case SubsetSetting(name, _) => AlreadySubsetted(name)
  }

  /** Finds or creates the axis the setting names, refuses a setting the
      axis already has, and records it. */
  function Put(p: Params, st: Setting): Result<Params, KvpError> {
    var axes := WithAxis(p.axes, st.axis);
    var i := AxisIndex(p.axes, st.axis);
    if Taken(axes[i], SortOf(st)) then Failure(TakenError(st))
    else Success(p.(axes := axes[i := Apply(st, axes[i])]))
  }

  // ---------------------------------------------------------------------
  // One parameter
  // ---------------------------------------------------------------------

  /** What one parameter asks of the loop, read off its name and value
      alone: a string to set, items to add to a list, the coverage ids,
      whether MEDIATYPE asks for multipart output, an unknown name to
      collect, an axis setting, an axis parameter that does not parse, or
      nothing (ACCEPTFORMATS, ACCEPTLANGUAGES, MAP). */
  datatype Action =
    | SetText(kind: KeyKind, text: string)
    | Extend(kind: KeyKind, items: seq<string>)
    | SetIds(ids: seq<string>)
    | Media(multipart: bool)
    | Unknown(name: string)
    | Settle(setting: Setting)
    | Malformed(kind: KeyKind)
    | Ignore(kind: KeyKind)

  /** The kind of parameter an action comes from. */
  function KeyOf(a: Action): KeyKind {
    match a
    case SetText(k, _) => k
    case Extend(k, _) => k
    case SetIds(_) => CoverageIdKey
    case Media(_) => MediaTypeKey
    case Unknown(_) => UnknownKey
    case Settle(st) => SortOf(st)
    case Malformed(k) => k
    case Ignore(k) => k
  }

  /** The shapes `Interpret` gives each kind of parameter. */
  predicate Sound(a: Action) {
    match a
    case SetText(k, _) => IsTextKey(k)
    case Extend(k, _) => IsListKey(k)
    case Malformed(k) => IsAxisKey(k)
    case Ignore(k) => k == AcceptFormatsKey || k == AcceptLanguagesKey || k == MapKey
    case _ => true
  }

  /** How the loop body reads one parameter. Lists and coverage ids are
      split at commas; a MEDIATYPE asks for multipart output when it is
      "multipart/mixed" in any case. */
  function Interpret(env: Env, q: Param): Action {
    var k := Classify(q.name);
    if IsTextKey(k) then SetText(k, q.value)
    else if IsListKey(k) then Extend(k, env.split(q.value, ','))
    else if k == CoverageIdKey then SetIds(env.split(q.value, ','))
    else if k == MediaTypeKey then Media(LowerAll(q.value) == "multipart/mixed")
    else if k == UnknownKey then Unknown(q.name)
    else if IsAxisKey(k) then
      match ReadSetting(env, k, q.value)
      case None => Malformed(k)
      case Some(st) => Settle(st)
    else Ignore(k)
  }

  /** An action keeps the kind of its parameter. */
  lemma InterpretKind(env: Env, q: Param)
    ensures KeyOf(Interpret(env, q)) == Classify(q.name) && Sound(Interpret(env, q))
  {
    var k := Classify(q.name);
    if IsAxisKey(k) {
      assert !IsTextKey(k) && !IsListKey(k) && k != CoverageIdKey && k != MediaTypeKey && k != UnknownKey;
    }
  }

  /** A well-formed SIZE, RESOLUTION or SUBSET becomes its setting. */
  lemma InterpretSetting(env: Env, x: Param, st: Setting)
    requires ReadSetting(env, Classify(x.name), x.value) == Some(st)
    ensures Interpret(env, x) == Settle(st)
  {
    var k := Classify(x.name);
    assert IsAxisKey(k);
    assert !IsTextKey(k) && !IsListKey(k) && k != CoverageIdKey && k != MediaTypeKey && k != UnknownKey;
  }

  lemma SettleAt(env: Env, pairs: seq<Param>, i: nat, st: Setting)
    requires i < |pairs| && ReadSetting(env, Classify(pairs[i].name), pairs[i].value) == Some(st)
    ensures Actions(env, pairs)[i] == Settle(st)
  {
    InterpretSetting(env, pairs[i], st);
  }

  /** The loop body: a once-only parameter already present is an error, a
      SIZE, RESOLUTION or SUBSET that does not parse is an error, and
      otherwise the action takes effect. FORMAT, INTERPOLATION, OUTPUTCRS
      and UPDATESEQUENCE overwrite and the lists grow. */
  function Perform(p: Params, a: Action): Result<Params, KvpError> {
    if Holds(p, KeyOf(a)) then Failure(AlreadySet(KeyOf(a)))
    else
      match a
      case SetText(k, text) => Success(p.(texts := p.texts[k := text]))
      case Extend(k, items) => Success(p.(lists := p.lists[k := List(p, k) + items]))
      case SetIds(ids) => Success(p.(ids := Some(ids)))
      case Media(m) => Success(p.(multipart := p.multipart || m))
      case Unknown(name) => Success(p.(invalid := p.invalid + [name]))
      case Settle(st) => Put(p, st)
      case Malformed(k) => Failure(ParseError(k))
      case Ignore(_) => Success(p)
  }

  function Then(r: Result<Params, KvpError>, a: Action): Result<Params, KvpError> {
    match r
    case Failure(e) => Failure(e)
    case Success(p) => Perform(p, a)
  }

  /** The actions in order, stopping at the first error. */
  function Run(acts: seq<Action>): Result<Params, KvpError>
    decreases |acts|
  {
    if |acts| == 0 then Success(Initial) else Then(Run(acts[..|acts| - 1]), acts[|acts| - 1])
  }

  /** What each parameter asks for. */
  function Actions(env: Env, pairs: seq<Param>): seq<Action> {
    seq(|pairs|, n requires 0 <= n < |pairs| => Interpret(env, pairs[n]))
  }

  /** The whole loop over the CGI parameters. */
  function ParseKvp(env: Env, pairs: seq<Param>): Result<Params, KvpError> {
    Run(Actions(env, pairs))
  }

  /** The loop as the source writes it. */
  method ParseRequest(env: Env, pairs: seq<Param>) returns (r: Result<Params, KvpError>)
    ensures r == ParseKvp(env, pairs)
  {
    var p := Initial;
    var i := 0;
    while i < |pairs|
      invariant 0 <= i <= |pairs|
      invariant ParseKvp(env, pairs[..i]) == Success(p)
    {
      Unfold(env, pairs, i);
      var s := Perform(p, Interpret(env, pairs[i]));
      if s.Failure? {
        FailureSticks(env, pairs, i + 1);
        return s;
      }
      p := s.value;
      i := i + 1;
    }
    assert pairs[..i] == pairs;
    return Success(p);
  }

  // ---------------------------------------------------------------------
  // Prefixes
  // ---------------------------------------------------------------------

  lemma RunUnfold(acts: seq<Action>, n: nat)
    requires n < |acts|
    ensures Run(acts[..n + 1]) == Then(Run(acts[..n]), acts[n])
  {
    assert acts[..n + 1][..n] == acts[..n];
  }

  /** Once the loop has failed, later actions do not matter. */
  lemma {:induction false} RunSticks(acts: seq<Action>, n: nat)
    requires n <= |acts| && Run(acts[..n]).Failure?
    ensures Run(acts) == Run(acts[..n])
    decreases |acts| - n
  {
    if n == |acts| {
      assert acts[..n] == acts;
    } else {
      RunUnfold(acts, n);
      RunSticks(acts, n + 1);
    }
  }

  lemma ActionsTake(env: Env, pairs: seq<Param>, n: nat)
    requires n <= |pairs|
    ensures Actions(env, pairs[..n]) == Actions(env, pairs)[..n]
  {
  }

  lemma Unfold(env: Env, pairs: seq<Param>, n: nat)
    requires n < |pairs|
    ensures ParseKvp(env, pairs[..n + 1]) == Then(ParseKvp(env, pairs[..n]), Interpret(env, pairs[n]))
  {
    var acts := Actions(env, pairs);
    ActionsTake(env, pairs, n);
    ActionsTake(env, pairs, n + 1);
    RunUnfold(acts, n);
  }

  /** Once the loop has failed, later parameters do not matter. */
  lemma FailureSticks(env: Env, pairs: seq<Param>, n: nat)
    requires n <= |pairs| && ParseKvp(env, pairs[..n]).Failure?
    ensures ParseKvp(env, pairs) == ParseKvp(env, pairs[..n])
  {
    ActionsTake(env, pairs, n);
    RunSticks(Actions(env, pairs), n);
  }

  /** Later state keeps what earlier state had: a once-only parameter
      stays present, axes keep their place and name, and a size,
      resolution or subset once given stays. */
  predicate AxisExtends(a: Axis, b: Axis) {
    b.name == a.name
    && (a.size != 0 ==> b.size == a.size)
    && (a.resolution.Some? ==> b.resolution == a.resolution)
    && (a.subset.Some? ==> b.subset == a.subset)
  }

  predicate Extends(p: Params, q: Params) {
    (forall k :: Holds(p, k) ==> Holds(q, k))
    && |p.axes| <= |q.axes|
    && forall i :: 0 <= i < |p.axes| ==> AxisExtends(p.axes[i], q.axes[i])
  }

  lemma PutExtends(p: Params, st: Setting)
    requires Put(p, st).Success?
    ensures Extends(p, Put(p, st).value)
    ensures Put(p, st).value.(axes := p.axes) == p
  {
    var axes := WithAxis(p.axes, st.axis);
    var i := AxisIndex(p.axes, st.axis);
    var q := Put(p, st).value;
    assert q.axes == axes[i := Apply(st, axes[i])];
    assert forall j :: 0 <= j < |p.axes| ==> axes[j] == p.axes[j];
    assert Apply(st, axes[i]).name == axes[i].name;
  }

  /** A successful action keeps everything earlier actions established,
      and only settings touch the axes. */
  lemma PerformExtends(p: Params, a: Action)
    requires Perform(p, a).Success?
    ensures Extends(p, Perform(p, a).value)
    ensures Sound(a) && IsOnce(KeyOf(a)) ==> Holds(Perform(p, a).value, KeyOf(a))
    ensures !a.Settle? ==> Perform(p, a).value.axes == p.axes
  {
    if a.Settle? {
      PutExtends(p, a.setting);
    }
  }

  lemma ExtendsTrans(p: Params, q: Params, s: Params)
    requires Extends(p, q) && Extends(q, s)
    ensures Extends(p, s)
  {
  }

  /** A successful run passes through successful prefixes, each extended
      by the final state. */
  lemma {:induction false} PrefixExtends(acts: seq<Action>, n: nat)
    requires n <= |acts| && Run(acts).Success?
    ensures Run(acts[..n]).Success?
    ensures Extends(Run(acts[..n]).value, Run(acts).value)
    decreases |acts| - n
  {
    if n == |acts| {
      assert acts[..n] == acts;
    } else {
      PrefixExtends(acts, n + 1);
      RunUnfold(acts, n);
      var p := Run(acts[..n]);
      PerformExtends(p.value, acts[n]);
      ExtendsTrans(p.value, Run(acts[..n + 1]).value, Run(acts).value);
    }
  }

  /** Between two prefixes of a run that gets that far, the later state
      extends the earlier. */
  lemma Between(acts: seq<Action>, n: nat, m: nat)
    requires n <= m <= |acts| && Run(acts[..m]).Success?
    ensures Run(acts[..n]).Success?
    ensures Extends(Run(acts[..n]).value, Run(acts[..m]).value)
  {
    PrefixExtends(acts[..m], n);
    assert acts[..m][..n] == acts[..n];
  }

  lemma FailurePersists(acts: seq<Action>, n: nat, m: nat)
    requires n <= m <= |acts| && Run(acts[..n]).Failure?
    ensures Run(acts[..m]).Failure?
  {
    assert acts[..m][..n] == acts[..n];
    RunSticks(acts[..m], n);
  }

  // ---------------------------------------------------------------------
  // Once-only parameters
  // ---------------------------------------------------------------------

  /** The repeated once-only action is refused, if the run gets that far. */
  lemma RepeatRefused(acts: seq<Action>, i: nat, j: nat)
    requires i < j < |acts| && Run(acts[..i + 1]).Success? && Run(acts[..j]).Success?
    requires IsOnce(KeyOf(acts[i])) && Sound(acts[i]) && KeyOf(acts[j]) == KeyOf(acts[i])
    ensures Run(acts[..j + 1]).Failure?
  {
    RunUnfold(acts, i);
    PerformExtends(Run(acts[..i]).value, acts[i]);
    Between(acts, i + 1, j);
    RunUnfold(acts, j);
  }

  /** The run stops at the repeated once-only action at the latest. */
  lemma RepeatStops(acts: seq<Action>, i: nat, j: nat)
    requires i < j < |acts|
    requires IsOnce(KeyOf(acts[i])) && Sound(acts[i]) && KeyOf(acts[j]) == KeyOf(acts[i])
    ensures Run(acts[..j + 1]).Failure?
  {
    if Run(acts[..i + 1]).Failure? {
      FailurePersists(acts, i + 1, j + 1);
    } else if Run(acts[..j]).Failure? {
      FailurePersists(acts, j, j + 1);
    } else {
      RepeatRefused(acts, i, j);
    }
  }

  /** A once-only parameter given twice (in any spelling) fails the request. */
  lemma RepeatedKeyFails(env: Env, pairs: seq<Param>, i: nat, j: nat)
    requires i < j < |pairs|
    requires IsOnce(Classify(pairs[i].name)) && Classify(pairs[j].name) == Classify(pairs[i].name)
    ensures ParseKvp(env, pairs).Failure?
  {
    var acts := Actions(env, pairs);
    InterpretKind(env, pairs[i]);
    InterpretKind(env, pairs[j]);
    RepeatStops(acts, i, j);
    RunSticks(acts, j + 1);
  }

  /** What a successful action does to the string field of kind `t`. */
  lemma PerformText(p: Params, a: Action, t: KeyKind, q: Params)
    requires Perform(p, a) == Success(q) && IsTextKey(t)
    ensures Text(q, t) == (if a.SetText? && a.kind == t then Some(a.text) else Text(p, t))
  {
    if a.Settle? {
      PutExtends(p, a.setting);
    }
  }

  /** What a successful action does to the string list of kind `t`. */
  lemma PerformList(p: Params, a: Action, t: KeyKind, q: Params)
    requires Perform(p, a) == Success(q) && IsListKey(t)
    ensures List(q, t) == (if a.Extend? && a.kind == t then List(p, t) + a.items else List(p, t))
  {
    if a.Settle? {
      PutExtends(p, a.setting);
    }
  }

  /** What a successful action does to the coverage ids. */
  lemma PerformIds(p: Params, a: Action, q: Params)
    requires Perform(p, a) == Success(q)
    ensures q.ids == (if a.SetIds? then Some(a.ids) else p.ids)
  {
    if a.Settle? {
      PutExtends(p, a.setting);
    }
  }

  /** What a successful action does to the unknown names. */
  lemma PerformInvalid(p: Params, a: Action, q: Params)
    requires Perform(p, a) == Success(q)
    ensures q.invalid == (if a.Unknown? then p.invalid + [a.name] else p.invalid)
  {
    if a.Settle? {
      PutExtends(p, a.setting);
    }
  }

  /** What a successful action does to the multipart flag. */
  lemma PerformMultipart(p: Params, a: Action, q: Params)
    requires Perform(p, a) == Success(q)
    ensures q.multipart == (p.multipart || (a.Media? && a.multipart))
  {
    if a.Settle? {
      PutExtends(p, a.setting);
    }
  }

  /** The states before and after the parameter at `n`, for a run that gets past it. */
  lemma Transition(env: Env, pairs: seq<Param>, n: nat) returns (p: Params, q: Params)
    requires n < |pairs| && ParseKvp(env, pairs[..n + 1]).Success?
    ensures ParseKvp(env, pairs[..n]) == Success(p) && ParseKvp(env, pairs[..n + 1]) == Success(q)
    ensures Perform(p, Interpret(env, pairs[n])) == Success(q)
  {
    Unfold(env, pairs, n);
    p := ParseKvp(env, pairs[..n]).value;
    q := ParseKvp(env, pairs[..n + 1]).value;
  }

  /** The first parameter of kind `k`, if any. */
  function FirstValue(pairs: seq<Param>, k: KeyKind): (r: Option<string>)
    ensures r.Some? ==> exists i :: 0 <= i < |pairs| && Classify(pairs[i].name) == k && pairs[i].value == r.value
    ensures r.None? ==> forall i :: 0 <= i < |pairs| ==> Classify(pairs[i].name) != k
    decreases |pairs|
  {
    if |pairs| == 0 then None
    else
      var last := pairs[|pairs| - 1];
      var before := FirstValue(pairs[..|pairs| - 1], k);
      assert forall i :: 0 <= i < |pairs| - 1 ==> pairs[..|pairs| - 1][i] == pairs[i];
      if before.Some? then before
      else if Classify(last.name) == k then Some(last.value)
      else None
  }

  /** The value of the last parameter of kind `k`, if any. */
  function LastValue(pairs: seq<Param>, k: KeyKind): (r: Option<string>)
    ensures r.Some? ==> exists i :: 0 <= i < |pairs| && Classify(pairs[i].name) == k && pairs[i].value == r.value
    ensures r.None? ==> forall i :: 0 <= i < |pairs| ==> Classify(pairs[i].name) != k
    decreases |pairs|
  {
    if |pairs| == 0 then None
    else
      var r := if Classify(pairs[|pairs| - 1].name) == k then Some(pairs[|pairs| - 1].value)
               else LastValue(pairs[..|pairs| - 1], k);
      assert forall i :: 0 <= i < |pairs| - 1 ==> pairs[..|pairs| - 1][i] == pairs[i];
      r
  }

  /** What one parameter does to the string field of kind `k`; a
      once-only one is accepted only while the field is absent. */
  lemma ParamText(env: Env, p: Params, x: Param, k: KeyKind, q: Params)
    requires Perform(p, Interpret(env, x)) == Success(q) && IsTextKey(k)
    ensures Text(q, k) == (if Classify(x.name) == k then Some(x.value) else Text(p, k))
    ensures IsOnce(k) && Classify(x.name) == k ==> Text(p, k).None?
  {
    InterpretKind(env, x);
    PerformText(p, Interpret(env, x), k, q);
  }

  /** What one parameter does to the coverage ids, which it may set only once. */
  lemma ParamIds(env: Env, p: Params, x: Param, q: Params)
    requires Perform(p, Interpret(env, x)) == Success(q)
    ensures q.ids == (if Classify(x.name) == CoverageIdKey then Some(env.split(x.value, ',')) else p.ids)
    ensures Classify(x.name) == CoverageIdKey ==> p.ids.None?
  {
    InterpretKind(env, x);
    PerformIds(p, Interpret(env, x), q);
  }

  /** A once-only string parameter of a successful request holds the one
      value given for it. */
  lemma {:induction false} OnceText(env: Env, pairs: seq<Param>, k: KeyKind)
    requires ParseKvp(env, pairs).Success? && IsOnce(k) && k != CoverageIdKey
    ensures Text(ParseKvp(env, pairs).value, k) == FirstValue(pairs, k)
    decreases |pairs|
  {
    if |pairs| > 0 {
      var n := |pairs| - 1;
      assert pairs[..n + 1] == pairs;
      var p, q := Transition(env, pairs, n);
      ParamText(env, p, pairs[n], k, q);
      OnceText(env, pairs[..n], k);
    }
  }

  /** The coverage ids of a successful request are the one COVERAGEID
      value given, split at commas. */
  lemma {:induction false} OnceIds(env: Env, pairs: seq<Param>)
    requires ParseKvp(env, pairs).Success?
    ensures ParseKvp(env, pairs).value.ids ==
      (match FirstValue(pairs, CoverageIdKey) case None => None case Some(v) => Some(env.split(v, ',')))
    decreases |pairs|
  {
    if |pairs| > 0 {
      var n := |pairs| - 1;
      assert pairs[..n + 1] == pairs;
      var p, q := Transition(env, pairs, n);
      ParamIds(env, p, pairs[n], q);
      OnceIds(env, pairs[..n]);
    }
  }

  /** The names of the parameters the loop does not know, in order. */
  function UnknownKeys(pairs: seq<Param>): (r: seq<string>)
    ensures |r| <= |pairs|
    decreases |pairs|
  {
    if |pairs| == 0 then []
    else
      var last := pairs[|pairs| - 1];
      var before := UnknownKeys(pairs[..|pairs| - 1]);
      if Classify(last.name) == UnknownKey then before + [last.name] else before
  }

  /** The split values of every parameter of kind `k`, in order. */
  function Collected(env: Env, pairs: seq<Param>, k: KeyKind): seq<string>
    decreases |pairs|
  {
    if |pairs| == 0 then []
    else
      var last := pairs[|pairs| - 1];
      var before := Collected(env, pairs[..|pairs| - 1], k);
      if Classify(last.name) == k then before + env.split(last.value, ',') else before
  }

  /** Whether some MEDIATYPE parameter asks for "multipart/mixed" in any case. */
  predicate AsksMultipart(pairs: seq<Param>)
    decreases |pairs|
  {
    |pairs| > 0 &&
    (AsksMultipart(pairs[..|pairs| - 1])
     || (Classify(pairs[|pairs| - 1].name) == MediaTypeKey && LowerAll(pairs[|pairs| - 1].value) == "multipart/mixed"))
  }

  /** What one parameter does to the list of kind `k`. */
  lemma ParamList(env: Env, p: Params, x: Param, k: KeyKind, q: Params)
    requires Perform(p, Interpret(env, x)) == Success(q) && IsListKey(k)
    ensures List(q, k) == (if Classify(x.name) == k then List(p, k) + env.split(x.value, ',') else List(p, k))
  {
    InterpretKind(env, x);
    PerformList(p, Interpret(env, x), k, q);
  }

  /** What one parameter does to the unknown names. */
  lemma ParamInvalid(env: Env, p: Params, x: Param, q: Params)
    requires Perform(p, Interpret(env, x)) == Success(q)
    ensures q.invalid == (if Classify(x.name) == UnknownKey then p.invalid + [x.name] else p.invalid)
  {
    if Classify(x.name) == UnknownKey {
      assert Interpret(env, x) == Unknown(x.name);
    } else {
      InterpretKind(env, x);
    }
    PerformInvalid(p, Interpret(env, x), q);
  }

  /** What one parameter does to the multipart flag. */
  lemma ParamMultipart(env: Env, p: Params, x: Param, q: Params)
    requires Perform(p, Interpret(env, x)) == Success(q)
    ensures q.multipart ==
      (p.multipart || (Classify(x.name) == MediaTypeKey && LowerAll(x.value) == "multipart/mixed"))
  {
    InterpretKind(env, x);
    PerformMultipart(p, Interpret(env, x), q);
  }

  /** The names the loop does not know are collected in order. */
  lemma {:induction false} UnknownCollected(env: Env, pairs: seq<Param>)
    requires ParseKvp(env, pairs).Success?
    ensures ParseKvp(env, pairs).value.invalid == UnknownKeys(pairs)
    decreases |pairs|
  {
    if |pairs| > 0 {
      var n := |pairs| - 1;
      assert pairs[..n + 1] == pairs;
      var p, q := Transition(env, pairs, n);
      ParamInvalid(env, p, pairs[n], q);
      UnknownCollected(env, pairs[..n]);
    }
  }

  /** MEDIATYPE=multipart/mixed, in any case, switches multipart output on for good. */
  lemma {:induction false} MultipartSticks(env: Env, pairs: seq<Param>)
    requires ParseKvp(env, pairs).Success?
    ensures ParseKvp(env, pairs).value.multipart == AsksMultipart(pairs)
    decreases |pairs|
  {
    if |pairs| > 0 {
      var n := |pairs| - 1;
      assert pairs[..n + 1] == pairs;
      var p, q := Transition(env, pairs, n);
      ParamMultipart(env, p, pairs[n], q);
      MultipartSticks(env, pairs[..n]);
    }
  }

  /** ACCEPTVERSIONS, SECTIONS and RANGESUBSET hold the split values of
      all their occurrences, in order. */
  lemma {:induction false} ListsCollected(env: Env, pairs: seq<Param>, k: KeyKind)
    requires ParseKvp(env, pairs).Success? && IsListKey(k)
    ensures List(ParseKvp(env, pairs).value, k) == Collected(env, pairs, k)
    decreases |pairs|
  {
    if |pairs| > 0 {
      var n := |pairs| - 1;
      assert pairs[..n + 1] == pairs;
      var p, q := Transition(env, pairs, n);
      ParamList(env, p, pairs[n], k, q);
      ListsCollected(env, pairs[..n], k);
    }
  }

  /** UPDATESEQUENCE, FORMAT, INTERPOLATION and OUTPUTCRS keep the last value given. */
  lemma {:induction false} LastTextKept(env: Env, pairs: seq<Param>, k: KeyKind)
    requires ParseKvp(env, pairs).Success? && IsTextKey(k) && !IsOnce(k)
    ensures Text(ParseKvp(env, pairs).value, k) == LastValue(pairs, k)
    decreases |pairs|
  {
    if |pairs| > 0 {
      var n := |pairs| - 1;
      assert pairs[..n + 1] == pairs;
      var p, q := Transition(env, pairs, n);
      assert LastValue(pairs, k) ==
        (if Classify(pairs[n].name) == k then Some(pairs[n].value) else LastValue(pairs[..n], k));
      ParamText(env, p, pairs[n], k, q);
      LastTextKept(env, pairs[..n], k);
    }
  }

  // ---------------------------------------------------------------------
  // Axes
  // ---------------------------------------------------------------------

  lemma PutDistinct(p: Params, st: Setting)
    requires Distinct(p.axes) && Put(p, st).Success?
    ensures Distinct(Put(p, st).value.axes)
  {
    var axes := WithAxis(p.axes, st.axis);
    assert Distinct(axes) by {
      if FindAxis(p.axes, st.axis).None? {
        forall i, j | 0 <= i < j < |axes|
          ensures !EqualFold(axes[i].name, axes[j].name)
        {
          if j == |p.axes| { assert axes[j].name == st.axis; }
        }
      }
    }
    PutExtends(p, st);
  }

  lemma PerformDistinct(p: Params, a: Action)
    requires Distinct(p.axes) && Perform(p, a).Success?
    ensures Distinct(Perform(p, a).value.axes)
  {
    if a.Settle? {
      PutDistinct(p, a.setting);
    } else {
      PerformExtends(p, a);
    }
  }

  lemma {:induction false} RunDistinct(acts: seq<Action>)
    requires Run(acts).Success?
    ensures Distinct(Run(acts).value.axes)
    decreases |acts|
  {
    if |acts| > 0 {
      var n := |acts| - 1;
      assert acts[..n + 1] == acts;
      RunUnfold(acts, n);
      RunDistinct(acts[..n]);
      PerformDistinct(Run(acts[..n]).value, acts[n]);
    }
  }

  /** The axes of every successful request have distinct names, ignoring case. */
  lemma AxesDistinct(env: Env, pairs: seq<Param>)
    requires ParseKvp(env, pairs).Success?
    ensures Distinct(ParseKvp(env, pairs).value.axes)
  {
    RunDistinct(Actions(env, pairs));
  }

  /** With distinct axis names, a well-formed SIZE, RESOLUTION or SUBSET
      fails exactly when an axis of that name, ignoring case, already
      carries the setting; a size of 0 counts as no size. */
  lemma PutFails(p: Params, st: Setting)
    requires Distinct(p.axes)
    ensures Put(p, st).Failure? <==>
      exists i :: 0 <= i < |p.axes| && EqualFold(p.axes[i].name, st.axis) && Taken(p.axes[i], SortOf(st))
  {
    var axes := WithAxis(p.axes, st.axis);
    var i := AxisIndex(p.axes, st.axis);
    match FindAxis(p.axes, st.axis)
    case None =>
      assert axes[i] == NewAxis(st.axis);
    case Some(m) =>
      forall j | 0 <= j < |p.axes| && EqualFold(p.axes[j].name, st.axis)
        ensures j == m
      {
        assert EqualFold(p.axes[j].name, p.axes[m].name);
      }
  }

  /** A recorded setting leaves its axis taken, unless it is a size of 0. */
  lemma PutTakes(p: Params, st: Setting) returns (m: nat)
    requires Put(p, st).Success? && !(st.SizeSetting? && st.size == 0)
    ensures m < |Put(p, st).value.axes|
    ensures EqualFold(Put(p, st).value.axes[m].name, st.axis) && Taken(Put(p, st).value.axes[m], SortOf(st))
  {
    var axes := WithAxis(p.axes, st.axis);
    m := AxisIndex(p.axes, st.axis);
    assert Put(p, st).value.axes[m] == Apply(st, axes[m]);
  }

  /** After a setting (other than a size of 0) the axis it names carries it. */
  lemma TakenAfter(acts: seq<Action>, i: nat, first: Setting) returns (m: nat)
    requires i < |acts| && Run(acts[..i + 1]).Success? && acts[i] == Settle(first)
    requires !(first.SizeSetting? && first.size == 0)
    ensures m < |Run(acts[..i + 1]).value.axes|
    ensures EqualFold(Run(acts[..i + 1]).value.axes[m].name, first.axis)
    ensures Taken(Run(acts[..i + 1]).value.axes[m], SortOf(first))
  {
    RunUnfold(acts, i);
    var p := Run(acts[..i]).value;
    assert Put(p, first) == Run(acts[..i + 1]);
    m := PutTakes(p, first);
  }

  /** An axis keeps its name and its settings as the run goes on. */
  lemma TakenStays(acts: seq<Action>, n: nat, m: nat, axis: nat, k: KeyKind)
    requires n <= m <= |acts| && Run(acts[..m]).Success? && Run(acts[..n]).Success?
    requires axis < |Run(acts[..n]).value.axes|
    ensures axis < |Run(acts[..m]).value.axes|
    ensures Run(acts[..m]).value.axes[axis].name == Run(acts[..n]).value.axes[axis].name
    ensures Taken(Run(acts[..n]).value.axes[axis], k) ==> Taken(Run(acts[..m]).value.axes[axis], k)
  {
    Between(acts, n, m);
    assert AxisExtends(Run(acts[..n]).value.axes[axis], Run(acts[..m]).value.axes[axis]);
  }

  /** A setting for an axis that already carries one of its sort stops the run. */
  lemma RefusedAt(acts: seq<Action>, j: nat, second: Setting, m: nat)
    requires j < |acts| && Run(acts[..j]).Success? && acts[j] == Settle(second)
    requires m < |Run(acts[..j]).value.axes|
    requires EqualFold(Run(acts[..j]).value.axes[m].name, second.axis)
    requires Taken(Run(acts[..j]).value.axes[m], SortOf(second))
    ensures Run(acts[..j + 1]).Failure?
  {
    RunUnfold(acts, j);
    var s := Run(acts[..j]).value;
    RunDistinct(acts[..j]);
    PutFails(s, second);
  }

  /** The second of two settings of one sort for the same axis is refused,
      if the run gets that far. */
  lemma SecondRefused(acts: seq<Action>, i: nat, j: nat, first: Setting, second: Setting)
    requires i < j < |acts| && Run(acts[..i + 1]).Success? && Run(acts[..j]).Success?
    requires acts[i] == Settle(first) && acts[j] == Settle(second) && SortOf(first) == SortOf(second)
    requires EqualFold(first.axis, second.axis) && !(first.SizeSetting? && first.size == 0)
    ensures Run(acts[..j + 1]).Failure?
  {
    var m := TakenAfter(acts, i, first);
    TakenStays(acts, i + 1, j, m, SortOf(first));
    RefusedAt(acts, j, second, m);
  }

  /** The run stops at the second setting at the latest. */
  lemma SecondStops(acts: seq<Action>, i: nat, j: nat, first: Setting, second: Setting)
    requires i < j < |acts|
    requires acts[i] == Settle(first) && acts[j] == Settle(second) && SortOf(first) == SortOf(second)
    requires EqualFold(first.axis, second.axis) && !(first.SizeSetting? && first.size == 0)
    ensures Run(acts[..j + 1]).Failure?
  {
    if Run(acts[..i + 1]).Failure? {
      FailurePersists(acts, i + 1, j + 1);
    } else if Run(acts[..j]).Failure? {
      FailurePersists(acts, j, j + 1);
    } else {
      SecondRefused(acts, i, j, first, second);
    }
  }

  /** Two SIZE, RESOLUTION or SUBSET parameters of the same kind for the same
      axis (names compared ignoring case) fail the request; for SIZE only when
      the first size is not 0, since a size of 0 reads as no size. */
  lemma RepeatedAxisFails(env: Env, pairs: seq<Param>, i: nat, j: nat, first: Setting, second: Setting)
    requires i < j < |pairs|
    requires ReadSetting(env, Classify(pairs[i].name), pairs[i].value) == Some(first)
    requires ReadSetting(env, Classify(pairs[j].name), pairs[j].value) == Some(second)
    requires SortOf(first) == SortOf(second)
    requires EqualFold(first.axis, second.axis) && !(first.SizeSetting? && first.size == 0)
    ensures ParseKvp(env, pairs).Failure?
  {
    var acts := Actions(env, pairs);
    SettleAt(env, pairs, i, first);
    SettleAt(env, pairs, j, second);
    SecondStops(acts, i, j, first, second);
    RunSticks(acts, j + 1);
  }
}
