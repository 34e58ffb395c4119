/** Output formats of a map: the `KEY=VALUE` option list of one format,
    validation of transparency against the image mode, selection by MIME
    type or name, the list of distinct MIME types, applying a format with
    transparency/interlace/quality overrides under reference counting,
    and the built-in default formats.

    Formats live in a heap (`seq<Format>`) and are referred to by index, so
    that sharing and reference counts can be stated; a freed format stays in
    the heap with `live == false`. */
module OutputFormat {
  import opened Wrappers
  import opened CStrings

  /** `MS_IMAGEMODE_*`, in declaration order. */
  datatype ImageMode = PC256 | RGB | RGBA | Int16 | Float32 | Byte | NullMode

  /** `MS_NOOVERRIDE`: "leave this setting as the format has it". */
  const NoOverride: int := -1111

  datatype Format = Format(
    name: string,
    mimetype: Option<string>,
    driver: string,
    extension: Option<string>,
    imagemode: ImageMode,
    transparent: int,
    options: seq<string>,
    refcount: int,
    live: bool)

  // ---------------------------------------------------------------------
  // The option list
  // ---------------------------------------------------------------------

  /** `strncasecmp(option, key, len) == 0 && option[len] == '='`. */
  predicate KeyMatches(option: string, key: string) {
    |key| < |option| && EqualFold(option[..|key|], key) && option[|key|] == '='
  }

  /** Position of the first option at or after `i` that carries `key`. */
  function FirstKeyFrom(options: seq<string>, key: string, i: nat): (r: Option<nat>)
    requires i <= |options|
    ensures r.Some? ==> i <= r.value < |options| && KeyMatches(options[r.value], key)
    decreases |options| - i
  {
    if i == |options| then None
    else if KeyMatches(options[i], key) then Some(i)
    else FirstKeyFrom(options, key, i + 1)
  }

  lemma {:induction false} FirstKeyFromIsFirst(options: seq<string>, key: string, i: nat)
    requires i <= |options|
    ensures var r := FirstKeyFrom(options, key, i);
      forall j :: i <= j < (if r.Some? then r.value else |options|) ==> !KeyMatches(options[j], key)
    decreases |options| - i
  {
    if i < |options| && !KeyMatches(options[i], key) {
      FirstKeyFromIsFirst(options, key, i + 1);
    }
  }

  /** The first option carrying `key` is at `i`. */
  lemma {:induction false} FirstKeyAt(options: seq<string>, key: string, i: nat)
    requires i < |options| && KeyMatches(options[i], key)
    requires forall j :: 0 <= j < i ==> !KeyMatches(options[j], key)
    ensures FirstKeyFrom(options, key, 0) == Some(i)
  {
    FirstKeyFromIsFirst(options, key, 0);
  }

  /** `msGetOutputFormatOption`: the text after `key=` in the first option
      carrying the key, else `default`. */
  function GetOption(options: seq<string>, key: string, default: string): string {
    var hit := FirstKeyFrom(options, key, 0);
    if hit.Some? then options[hit.value][|key| + 1..] else default
  }

  lemma GetOptionFound(options: seq<string>, key: string, default: string, i: nat)
    requires i < |options| && KeyMatches(options[i], key)
    requires forall j :: 0 <= j < i ==> !KeyMatches(options[j], key)
    ensures GetOption(options, key, default) == options[i][|key| + 1..]
  {
    FirstKeyAt(options, key, i);
  }

  lemma GetOptionMissing(options: seq<string>, key: string, default: string)
    requires forall j :: 0 <= j < |options| ==> !KeyMatches(options[j], key)
    ensures GetOption(options, key, default) == default
  {
    FirstKeyFromIsFirst(options, key, 0);
  }

  /** `msSetOutputFormatOption`: replace the first option carrying `key`
      by `key=value`, or append one. */
  function SetOption(options: seq<string>, key: string, value: string): seq<string> {
    var line := key + "=" + value;
    var hit := FirstKeyFrom(options, key, 0);
    if hit.Some? then options[hit.value := line] else options + [line]
  }

  lemma KeyOfLine(key: string, value: string)
    ensures KeyMatches(key + "=" + value, key)
  {
    var line := key + "=" + value;
    assert line[..|key|] == key;
  }

  /** An existing key is replaced in place; nothing else moves. */
  lemma SetOptionReplaces(options: seq<string>, key: string, value: string, i: nat)
    requires i < |options| && KeyMatches(options[i], key)
    requires forall j :: 0 <= j < i ==> !KeyMatches(options[j], key)
    ensures var r := SetOption(options, key, value);
      |r| == |options| && r[i] == key + "=" + value
      && forall j :: 0 <= j < |options| && j != i ==> r[j] == options[j]
  {
    FirstKeyAt(options, key, i);
  }

  /** A new key is appended; the existing options are untouched. */
  lemma SetOptionAppends(options: seq<string>, key: string, value: string)
    requires forall j :: 0 <= j < |options| ==> !KeyMatches(options[j], key)
    ensures var r := SetOption(options, key, value);
      |r| == |options| + 1 && r[..|options|] == options && r[|options|] == key + "=" + value
  {
    FirstKeyFromIsFirst(options, key, 0);
  }

  /** Reading a key back after setting it gives the value set. */
  lemma GetAfterSet(options: seq<string>, key: string, value: string, default: string)
    ensures GetOption(SetOption(options, key, value), key, default) == value
  {
    var line := key + "=" + value;
    KeyOfLine(key, value);
    FirstKeyFromIsFirst(options, key, 0);
    var r := SetOption(options, key, value);
    var hit := FirstKeyFrom(options, key, 0);
    if hit.Some? {
      GetOptionFound(r, key, default, hit.value);
    } else {
      GetOptionFound(r, key, default, |options|);
    }
    assert line[|key| + 1..] == value;
  }

  // ---------------------------------------------------------------------
  // Validation
  // ---------------------------------------------------------------------

  /** `msOutputFormatValidate`: a transparent format must not be RGB and an
      opaque one must not be RGBA. */
  function Validate(f: Format): bool {
    if f.transparent != 0 && f.imagemode == RGB then false
    else if f.transparent == 0 && f.imagemode == RGBA then false
    else true
  }

  /** Validation only constrains the two true-colour modes: RGB is valid
      exactly when opaque, RGBA exactly when transparent, every other mode
      always. */
  lemma ValidateModes(f: Format)
    ensures f.imagemode == RGB ==> (Validate(f) <==> f.transparent == 0)
    ensures f.imagemode == RGBA ==> (Validate(f) <==> f.transparent != 0)
    ensures f.imagemode != RGB && f.imagemode != RGBA ==> Validate(f)
  {
  }

  // ---------------------------------------------------------------------
  // The map's format list and selection
  // ---------------------------------------------------------------------

  /** The part of `mapObj` that output formats touch: the heap of formats,
      `outputformatlist` as heap indices, `imagetype` and `outputformat`. */
  datatype Map = Map(heap: seq<Format>, list: seq<nat>, imagetype: Option<string>, outputformat: Option<nat>)

  ghost predicate WellFormed(m: Map) {
    forall i :: 0 <= i < |m.list| ==> m.list[i] < |m.heap|
  }

  predicate MimeMatch(f: Format, t: string) {
    f.mimetype.Some? && EqualFold(t, f.mimetype.value)
  }

  predicate NameMatch(f: Format, t: string) {
    EqualFold(t, f.name)
  }

  /** First list position at or after `i` whose format has MIME type `t`. */
  function FirstMimeFrom(m: Map, t: string, i: nat): (r: Option<nat>)
    requires WellFormed(m) && i <= |m.list|
    ensures r.Some? ==> i <= r.value < |m.list| && MimeMatch(m.heap[m.list[r.value]], t)
    decreases |m.list| - i
  {
    if i == |m.list| then None
    else if MimeMatch(m.heap[m.list[i]], t) then Some(i)
    else FirstMimeFrom(m, t, i + 1)
  }

  /** First list position at or after `i` whose format is named `t`. */
  function FirstNameFrom(m: Map, t: string, i: nat): (r: Option<nat>)
    requires WellFormed(m) && i <= |m.list|
    ensures r.Some? ==> i <= r.value < |m.list| && NameMatch(m.heap[m.list[r.value]], t)
    decreases |m.list| - i
  {
    if i == |m.list| then None
    else if NameMatch(m.heap[m.list[i]], t) then Some(i)
    else FirstNameFrom(m, t, i + 1)
  }

  lemma {:induction false} FirstMimeFromIsFirst(m: Map, t: string, i: nat)
    requires WellFormed(m) && i <= |m.list|
    ensures var r := FirstMimeFrom(m, t, i);
      forall j :: i <= j < (if r.Some? then r.value else |m.list|) ==> !MimeMatch(m.heap[m.list[j]], t)
    decreases |m.list| - i
  {
    if i < |m.list| && !MimeMatch(m.heap[m.list[i]], t) {
      FirstMimeFromIsFirst(m, t, i + 1);
    }
  }

  lemma {:induction false} FirstNameFromIsFirst(m: Map, t: string, i: nat)
    requires WellFormed(m) && i <= |m.list|
    ensures var r := FirstNameFrom(m, t, i);
      forall j :: i <= j < (if r.Some? then r.value else |m.list|) ==> !NameMatch(m.heap[m.list[j]], t)
    decreases |m.list| - i
  {
    if i < |m.list| && !NameMatch(m.heap[m.list[i]], t) {
      FirstNameFromIsFirst(m, t, i + 1);
    }
  }

  /** The list position `msSelectOutputFormat` picks: the first MIME-type
      match, and only when there is none the first name match. */
  function SelectPosition(m: Map, imagetype: Option<string>): Option<nat>
    requires WellFormed(m)
  {
    if imagetype.None? || |imagetype.value| == 0 then None
    else
      var byMime := FirstMimeFrom(m, imagetype.value, 0);
      if byMime.Some? then byMime else FirstNameFrom(m, imagetype.value, 0)
  }

  /** `msSelectOutputFormat`: the chosen format (a heap index), and the map
      with `imagetype` set to its name. */
  function SelectOutputFormat(m: Map, imagetype: Option<string>): (r: (Map, Option<nat>))
    requires WellFormed(m)
    ensures r.1.Some? ==> r.1.value < |m.heap| && r.0 == m.(imagetype := Some(m.heap[r.1.value].name))
    ensures r.1.None? ==> r.0 == m
  {
    var pos := SelectPosition(m, imagetype);
    if pos.Some? then
      var id := m.list[pos.value];
      (m.(imagetype := Some(m.heap[id].name)), Some(id))
    else (m, None)
  }

  /** A MIME-type match anywhere in the list wins over every name match. */
  lemma SelectByMime(m: Map, t: string, i: nat)
    requires WellFormed(m) && |t| > 0
    requires i < |m.list| && MimeMatch(m.heap[m.list[i]], t)
    requires forall j :: 0 <= j < i ==> !MimeMatch(m.heap[m.list[j]], t)
    ensures SelectOutputFormat(m, Some(t)).1 == Some(m.list[i])
  {
    FirstMimeFromIsFirst(m, t, 0);
  }

  /** Without any MIME-type match the first name match is chosen. */
  lemma SelectByName(m: Map, t: string, i: nat)
    requires WellFormed(m) && |t| > 0
    requires forall j :: 0 <= j < |m.list| ==> !MimeMatch(m.heap[m.list[j]], t)
    requires i < |m.list| && NameMatch(m.heap[m.list[i]], t)
    requires forall j :: 0 <= j < i ==> !NameMatch(m.heap[m.list[j]], t)
    ensures SelectOutputFormat(m, Some(t)).1 == Some(m.list[i])
  {
    FirstMimeFromIsFirst(m, t, 0);
    FirstNameFromIsFirst(m, t, 0);
  }

  /** Selection succeeds exactly when the type is non-empty and some
      format in the list carries it as MIME type or name. */
  lemma SelectFindsIff(m: Map, t: Option<string>)
    requires WellFormed(m)
    ensures SelectOutputFormat(m, t).1.Some? <==>
      t.Some? && |t.value| > 0 &&
      exists j :: 0 <= j < |m.list| && (MimeMatch(m.heap[m.list[j]], t.value) || NameMatch(m.heap[m.list[j]], t.value))
  {
    if t.Some? && |t.value| > 0 {
      FirstMimeFromIsFirst(m, t.value, 0);
      FirstNameFromIsFirst(m, t.value, 0);
      var byMime := FirstMimeFrom(m, t.value, 0);
      if byMime.Some? {
        assert MimeMatch(m.heap[m.list[byMime.value]], t.value);
      } else {
        var byName := FirstNameFrom(m, t.value, 0);
        if byName.Some? {
          assert NameMatch(m.heap[m.list[byName.value]], t.value);
        }
      }
    }
  }

  // ---------------------------------------------------------------------
  // The MIME type list
  // ---------------------------------------------------------------------

  /** Some entry of `mimes` equals `t` case-insensitively. */
  predicate Covered(mimes: seq<string>, t: string) {
    exists l :: 0 <= l < |mimes| && EqualFold(mimes[l], t)
  }

  lemma CoveredAppend(mimes: seq<string>, x: string, t: string)
    requires Covered(mimes, t) || EqualFold(x, t)
    ensures Covered(mimes + [x], t)
  {
    if EqualFold(x, t) {
      assert (mimes + [x])[|mimes|] == x;
    } else {
      var l :| 0 <= l < |mimes| && EqualFold(mimes[l], t);
      assert (mimes + [x])[l] == mimes[l];
    }
  }

  // The invariants of the MIME list scan, after the first `i` positions.

  ghost predicate Sourced(m: Map, mimes: seq<string>, picked: seq<nat>, i: nat)
    requires WellFormed(m) && i <= |m.list|
  {
    |mimes| == |picked|
    && (forall k :: 0 <= k < |picked| ==> picked[k] < i && m.heap[m.list[picked[k]]].mimetype == Some(mimes[k]))
    && (forall k, l :: 0 <= k < l < |picked| ==> picked[k] < picked[l])
  }

  ghost predicate DistinctFold(mimes: seq<string>) {
    forall k, l :: 0 <= k < l < |mimes| ==> !EqualFold(mimes[k], mimes[l])
  }

  ghost predicate FirstSeen(m: Map, mimes: seq<string>, picked: seq<nat>)
    requires WellFormed(m) && |mimes| == |picked|
    requires forall k :: 0 <= k < |picked| ==> picked[k] < |m.list|
  {
    forall k, j :: 0 <= k < |picked| && 0 <= j < picked[k] ==> !MimeMatch(m.heap[m.list[j]], mimes[k])
  }

  ghost predicate CoveredUpTo(m: Map, mimes: seq<string>, i: nat)
    requires WellFormed(m) && i <= |m.list|
  {
    forall j :: 0 <= j < i && m.heap[m.list[j]].mimetype.Some? ==> Covered(mimes, m.heap[m.list[j]].mimetype.value)
  }

  /** `msGetOutputFormatMimeList`: the distinct (case-insensitively) MIME
      types of the list, each taken from its first occurrence, in list
      order, at most `maxMime` of them. `picked` gives the list position
      each entry was taken from. */
  method MimeList(m: Map, maxMime: int) returns (mimes: seq<string>, picked: seq<nat>)
    requires WellFormed(m)
    ensures |mimes| == |picked| && |mimes| <= (if maxMime < 0 then 0 else maxMime)
    ensures forall k :: 0 <= k < |picked| ==>
      picked[k] < |m.list| && m.heap[m.list[picked[k]]].mimetype == Some(mimes[k])
    ensures forall k, l :: 0 <= k < l < |picked| ==> picked[k] < picked[l]
    ensures forall k, l :: 0 <= k < l < |mimes| ==> !EqualFold(mimes[k], mimes[l])
    ensures forall k, j :: 0 <= k < |picked| && 0 <= j < picked[k] ==> !MimeMatch(m.heap[m.list[j]], mimes[k])
    ensures |mimes| < maxMime ==> forall j :: 0 <= j < |m.list| && m.heap[m.list[j]].mimetype.Some? ==>
      Covered(mimes, m.heap[m.list[j]].mimetype.value)
  {
    mimes, picked := [], [];
    var i := 0;
    while i < |m.list| && |mimes| < maxMime
      invariant 0 <= i <= |m.list|
      invariant |mimes| <= (if maxMime < 0 then 0 else maxMime)
      invariant Sourced(m, mimes, picked, i)
      invariant DistinctFold(mimes)
      invariant FirstSeen(m, mimes, picked)
      invariant CoveredUpTo(m, mimes, i)
    {
      var mt := m.heap[m.list[i]].mimetype;
      var j := 0;
      if mt.Some? {
        j := IndexFold(mimes, mt.value);
      }
      if mt.Some? && j == |mimes| {
        MimeListTake(m, mimes, picked, i);
        mimes, picked := mimes + [mt.value], picked + [i];
      } else {
        MimeListSkip(m, mimes, picked, i);
      }
      i := i + 1;
    }
  }

  /** The first position of `mimes` holding `t` case-insensitively, or
      `|mimes|` when there is none. */
  method IndexFold(mimes: seq<string>, t: string) returns (j: nat)
    ensures j <= |mimes|
    ensures j < |mimes| ==> EqualFold(mimes[j], t)
    ensures forall l :: 0 <= l < j ==> !EqualFold(mimes[l], t)
  {
    j := 0;
    while j < |mimes| && !EqualFold(mimes[j], t)
      invariant 0 <= j <= |mimes|
      invariant forall l :: 0 <= l < j ==> !EqualFold(mimes[l], t)
    {
      j := j + 1;
    }
  }

  /** A step of `MimeList` that takes the new MIME type at position `i`. */
  lemma MimeListTake(m: Map, mimes: seq<string>, picked: seq<nat>, i: nat)
    requires WellFormed(m) && i < |m.list| && m.heap[m.list[i]].mimetype.Some?
    requires Sourced(m, mimes, picked, i) && DistinctFold(mimes) && FirstSeen(m, mimes, picked) && CoveredUpTo(m, mimes, i)
    requires forall l :: 0 <= l < |mimes| ==> !EqualFold(mimes[l], m.heap[m.list[i]].mimetype.value)
    ensures var x := m.heap[m.list[i]].mimetype.value;
      Sourced(m, mimes + [x], picked + [i], i + 1) && DistinctFold(mimes + [x])
      && FirstSeen(m, mimes + [x], picked + [i]) && CoveredUpTo(m, mimes + [x], i + 1)
  {
    var x := m.heap[m.list[i]].mimetype.value;
    assert Sourced(m, mimes + [x], picked + [i], i + 1) by {
      TakeSourced(m, mimes, picked, i);
    }
    assert DistinctFold(mimes + [x]) by {
      TakeDistinct(mimes, x);
    }
    assert FirstSeen(m, mimes + [x], picked + [i]) by {
      TakeFirstSeen(m, mimes, picked, i);
    }
    assert CoveredUpTo(m, mimes + [x], i + 1) by {
      TakeCovered(m, mimes, i);
    }
  }

  lemma TakeSourced(m: Map, mimes: seq<string>, picked: seq<nat>, i: nat)
    requires WellFormed(m) && i < |m.list| && m.heap[m.list[i]].mimetype.Some?
    requires Sourced(m, mimes, picked, i)
    ensures Sourced(m, mimes + [m.heap[m.list[i]].mimetype.value], picked + [i], i + 1)
  {
    var mimes', picked' := mimes + [m.heap[m.list[i]].mimetype.value], picked + [i];
    assert forall k :: 0 <= k < |picked| ==> picked'[k] == picked[k] && mimes'[k] == mimes[k];
  }

  lemma TakeDistinct(mimes: seq<string>, x: string)
    requires DistinctFold(mimes)
    requires forall l :: 0 <= l < |mimes| ==> !EqualFold(mimes[l], x)
    ensures DistinctFold(mimes + [x])
  {
    var mimes' := mimes + [x];
    assert forall k :: 0 <= k < |mimes| ==> mimes'[k] == mimes[k];
  }

  lemma TakeFirstSeen(m: Map, mimes: seq<string>, picked: seq<nat>, i: nat)
    requires WellFormed(m) && i < |m.list| && m.heap[m.list[i]].mimetype.Some?
    requires Sourced(m, mimes, picked, i) && FirstSeen(m, mimes, picked) && CoveredUpTo(m, mimes, i)
    requires forall l :: 0 <= l < |mimes| ==> !EqualFold(mimes[l], m.heap[m.list[i]].mimetype.value)
    ensures Sourced(m, mimes + [m.heap[m.list[i]].mimetype.value], picked + [i], i + 1)
    ensures FirstSeen(m, mimes + [m.heap[m.list[i]].mimetype.value], picked + [i])
  {
    var x := m.heap[m.list[i]].mimetype.value;
    TakeSourced(m, mimes, picked, i);
    forall j | 0 <= j < i && m.heap[m.list[j]].mimetype.Some?
      ensures !EqualFold(x, m.heap[m.list[j]].mimetype.value)
    {
      assert Covered(mimes, m.heap[m.list[j]].mimetype.value);
    }
    var mimes', picked' := mimes + [x], picked + [i];
    assert forall k :: 0 <= k < |picked| ==> picked'[k] == picked[k] && mimes'[k] == mimes[k];
  }

  lemma TakeCovered(m: Map, mimes: seq<string>, i: nat)
    requires WellFormed(m) && i < |m.list| && m.heap[m.list[i]].mimetype.Some?
    requires CoveredUpTo(m, mimes, i)
    ensures CoveredUpTo(m, mimes + [m.heap[m.list[i]].mimetype.value], i + 1)
  {
    var x := m.heap[m.list[i]].mimetype.value;
    forall j | 0 <= j < i + 1 && m.heap[m.list[j]].mimetype.Some?
      ensures Covered(mimes + [x], m.heap[m.list[j]].mimetype.value)
    {
      if j == i {
        CoveredAppend(mimes, x, x);
      } else {
        CoveredAppend(mimes, x, m.heap[m.list[j]].mimetype.value);
      }
    }
  }

  /** A step of `MimeList` that passes position `i` over: it has no MIME
      type, or one already listed. */
  lemma MimeListSkip(m: Map, mimes: seq<string>, picked: seq<nat>, i: nat)
    requires WellFormed(m) && i < |m.list|
    requires Sourced(m, mimes, picked, i) && CoveredUpTo(m, mimes, i)
    requires m.heap[m.list[i]].mimetype.Some? ==> Covered(mimes, m.heap[m.list[i]].mimetype.value)
    ensures Sourced(m, mimes, picked, i + 1) && CoveredUpTo(m, mimes, i + 1)
  {
  }

  // ---------------------------------------------------------------------
  // Allocation and cloning
  // ---------------------------------------------------------------------

  /** What `msAllocOutputFormat` fills in: name and driver, PC256, no MIME
      type, extension or options, opaque, no references. */
  function NewFormat(name: string, driver: string): Format {
    Format(name, None, driver, None, PC256, 0, [], 0, true)
  }

  /** `msAllocOutputFormat` with a map: the new format is appended to the
      list and holds the list's reference. */
  function AllocOutputFormat(m: Map, name: string, driver: string): (r: (Map, nat))
    ensures r.1 == |m.heap| && |r.0.heap| == |m.heap| + 1 && r.0.heap[..|m.heap|] == m.heap
    ensures r.0.list == m.list + [r.1] && r.0.imagetype == m.imagetype && r.0.outputformat == m.outputformat
    ensures var f := r.0.heap[r.1];
      f.name == name && f.driver == driver && f.refcount == 1 && f.imagemode == PC256
      && f.live && f.mimetype.None? && f.options == []
  {
    var id := |m.heap|;
    (m.(heap := m.heap + [NewFormat(name, driver).(refcount := 1)], list := m.list + [id]), id)
  }

  /** `msCloneOutputFormat`: a copy of every setting, unreferenced. */
  function Clone(src: Format): (r: Format)
    ensures r.(refcount := src.refcount, live := src.live) == src
    ensures r.refcount == 0 && r.live
  {
    NewFormat(src.name, src.driver).(mimetype := src.mimetype, extension := src.extension,
      imagemode := src.imagemode, transparent := src.transparent, options := src.options)
  }

  /** A freshly allocated format whose name no listed format uses as MIME
      type or name is what selecting that name finds. */
  lemma SelectAfterAlloc(m: Map, name: string, driver: string)
    requires WellFormed(m) && |name| > 0
    requires forall j :: 0 <= j < |m.list| ==>
      !MimeMatch(m.heap[m.list[j]], name) && !NameMatch(m.heap[m.list[j]], name)
    ensures var (m1, id) := AllocOutputFormat(m, name, driver);
      WellFormed(m1) && SelectOutputFormat(m1, Some(name)).1 == Some(id)
  {
    var (m1, id) := AllocOutputFormat(m, name, driver);
    assert WellFormed(m1) by {
      forall i | 0 <= i < |m1.list| ensures m1.list[i] < |m1.heap| {
        if i < |m.list| { assert m1.list[i] == m.list[i]; }
      }
    }
    forall j | 0 <= j < |m1.list|
      ensures !MimeMatch(m1.heap[m1.list[j]], name)
    {
      if j < |m.list| {
        assert m1.list[j] == m.list[j];
        assert m1.heap[m.list[j]] == m.heap[m.list[j]];
      }
    }
    forall j | 0 <= j < |m.list|
      ensures !NameMatch(m1.heap[m1.list[j]], name)
    {
      assert m1.list[j] == m.list[j];
      assert m1.heap[m.list[j]] == m.heap[m.list[j]];
    }
    assert NameMatch(m1.heap[m1.list[|m.list|]], name);
    SelectByName(m1, name, |m.list|);
  }

  // ---------------------------------------------------------------------
  // Default formats
  // ---------------------------------------------------------------------

  /** What GDAL reports for a driver it can write with (the work of
      `msInitDefaultGDALOutputFormat`). */
  datatype GdalSetup = GdalSetup(mimetype: Option<string>, extension: Option<string>, imagemode: ImageMode)

  /** The compile-time configuration that decides which default formats
      exist: `USE_GD_GIF`, `USE_GD_PNG`, `GD2_VERS > 1`, `USE_GD_JPEG`,
      `USE_GD_WBMP`, `USE_MING_FLASH`, `USE_PDF`, `USE_GDAL`, and the GDAL
      drivers whose initialisation succeeds, by name. */
  datatype Build = Build(gdGif: bool, gdPng: bool, gd2: bool, gdJpeg: bool, gdWbmp: bool,
                         ming: bool, pdf: bool, gdal: bool, gdalInit: map<string, GdalSetup>)

  /** A map with its list extended: earlier formats, their positions and
      `outputformat` all unchanged. */
  ghost predicate Extends(m: Map, m': Map) {
    |m.heap| <= |m'.heap| && m'.heap[..|m.heap|] == m.heap
    && |m.list| <= |m'.list| && m'.list[..|m.list|] == m.list
    && m'.outputformat == m.outputformat
  }

  datatype Created = Created(result: Map, format: Option<nat>)

  /** Allocate a format and fill in its MIME type, image mode and extension. */
  function AddDefault(m: Map, name: string, driver: string, mimetype: Option<string>,
                      mode: ImageMode, extension: Option<string>): (r: Created)
    requires WellFormed(m)
    ensures r.format == Some(|m.heap|) && Extends(m, r.result) && WellFormed(r.result)
    ensures r.result.imagetype == m.imagetype
    ensures r.result.list == m.list + [|m.heap|] && |r.result.heap| == |m.heap| + 1
    ensures var f := r.result.heap[|m.heap|];
      f.name == name && f.driver == driver && f.mimetype == mimetype && f.imagemode == mode
      && f.extension == extension && f.refcount == 1 && f.live
  {
    var (m1, id) := AllocOutputFormat(m, name, driver);
    var f := m1.heap[id].(mimetype := mimetype, imagemode := mode, extension := extension);
    Created(m1.(heap := m1.heap[id := f]), Some(id))
  }

  /** The drivers `msCreateDefaultOutputFormat` knows. */
  datatype DriverKind = GdGif | GdPng | GdPng24 | GdJpeg | GdWbmp | Swf | Pdf | Gdal | Imagemap

  /** The driver name each kind answers to, in lower case; GDAL drivers
      answer to the prefix `gdal/`. */
  function KindDriver(k: DriverKind): string {
    match k
    case GdGif => "gd/gif"
    case GdPng => "gd/png"
    case GdPng24 => "gd/png24"
    case GdJpeg => "gd/jpeg"
    case GdWbmp => "gd/wbmp"
    case Swf => "swf"
    case Pdf => "pdf"
    case Gdal => "gdal/"
    case Imagemap => "imagemap"
  }

  /** Whether `driver` names kind `k`: `strcasecmp` (for GDAL,
      `strncasecmp` over five characters) against the lower-case name. */
  predicate Names(driver: string, k: DriverKind) {
    if k == Gdal then |driver| >= 5 && LowerAll(driver[..5]) == KindDriver(k)
    else LowerAll(driver) == KindDriver(k)
  }

  /** The driver tests of `msCreateDefaultOutputFormat`, in the source's
      order. The source makes each test only when its library is built in
      and goes on to the next test when a library is missing; no name
      passes two tests, so testing first and consulting the build after
      gives the same outcome. */
  function KindOf(driver: string): (r: Option<DriverKind>)
    ensures r.Some? ==> Names(driver, r.value)
  {
    if Names(driver, GdGif) then Some(GdGif)
    else if Names(driver, GdPng) then Some(GdPng)
    else if Names(driver, GdPng24) then Some(GdPng24)
    else if Names(driver, GdJpeg) then Some(GdJpeg)
    else if Names(driver, GdWbmp) then Some(GdWbmp)
    else if Names(driver, Swf) then Some(Swf)
    else if Names(driver, Pdf) then Some(Pdf)
    else if Names(driver, Gdal) then Some(Gdal)
    else if Names(driver, Imagemap) then Some(Imagemap)
    else None
  }

  /** The settings of a default format, before it is allocated. */
  datatype Default = Default(name: string, driver: string, mimetype: Option<string>,
                             imagemode: ImageMode, extension: Option<string>)

  /** Only the GDAL kind's names start with `gdal/`. */
  lemma KindDriverNotGdal(k: DriverKind)
    requires k != Gdal
    ensures |KindDriver(k)| < 5 || KindDriver(k)[..5] != "gdal/"
  {
    var a := KindDriver(k);
    if |a| >= 5 {
      assert a[0] != 'g' || a[2] != 'a';
    }
  }

  /** No driver name is two kinds at once. */
  lemma NamesExclusive(driver: string, k1: DriverKind, k2: DriverKind)
    ensures Names(driver, k1) && Names(driver, k2) ==> k1 == k2
  {
    if k1 != k2 && (k1 == Gdal || k2 == Gdal) && |driver| >= 5 {
      var other := if k1 == Gdal then k2 else k1;
      LowerAllTake(driver, 5);
      KindDriverNotGdal(other);
    }
  }

  /** The recogniser finds every kind a driver names: the order of the
      tests does not matter. */
  lemma KindOfComplete(driver: string, k: DriverKind)
    ensures Names(driver, k) ==> KindOf(driver) == Some(k)
  {
    var r := KindOf(driver);
    if r.Some? {
      NamesExclusive(driver, r.value, k);
    }
  }

  /** Which default `msCreateDefaultOutputFormat` makes for a driver other
      than GD/PC256, if this build has it. */
  function BuiltinDefault(driver: string, build: Build): (r: Option<Default>)
    ensures r.Some? ==> KindOf(driver).Some?
  {
    match KindOf(driver)
    case None => None
    case Some(k) =>
      match k
      case GdGif =>
        if build.gdGif then Some(Default("gif", driver, Some("image/gif"), PC256, Some("gif"))) else None
      case GdPng =>
        if build.gdPng then Some(Default("png", driver, Some("image/png"), PC256, Some("png"))) else None
      case GdPng24 =>
        if build.gdPng && build.gd2 then Some(Default("png24", "GD/PNG", Some("image/png"), RGB, Some("png"))) else None
      case GdJpeg =>
        if build.gdJpeg then Some(Default("jpeg", driver, Some("image/jpeg"), if build.gd2 then RGB else PC256, Some("jpg")))
        else None
      case GdWbmp =>
        if build.gdWbmp then Some(Default("wbmp", driver, Some("image/wbmp"), PC256, Some("wbmp"))) else None
      case Swf =>
        if build.ming then Some(Default("swf", driver, Some("application/x-shockwave-flash"), PC256, Some("swf"))) else None
      case Pdf =>
        if build.pdf then Some(Default("pdf", driver, Some("application/x-pdf"), PC256, Some("pdf"))) else None
      case Gdal =>
        if build.gdal && driver[5..] in build.gdalInit then
          var setup := build.gdalInit[driver[5..]];
          Some(Default(driver[5..], driver, setup.mimetype, setup.imagemode, setup.extension))
        else None
      case Imagemap =>
        Some(Default("imagemap", driver, Some("text/html"), PC256, Some("html")))
  }

  /** `msCreateDefaultOutputFormat` for every driver but GD/PC256. */
  function CreateBuiltin(m: Map, driver: string, build: Build): (r: Created)
    requires WellFormed(m)
    ensures WellFormed(r.result)
    ensures r.format.None? ==> r.result == m
    ensures r.format.Some? ==> (r.format == Some(|m.heap|) && Extends(m, r.result)
      && r.result.imagetype == m.imagetype
      && r.result.list == m.list + [|m.heap|] && |r.result.heap| == |m.heap| + 1)
    ensures r.format.Some? <==> BuiltinDefault(driver, build).Some?
    ensures r.format.Some? ==> r.result.heap[|m.heap|].name == BuiltinDefault(driver, build).value.name
  {
    match BuiltinDefault(driver, build)
    case None => Created(m, None)
    case Some(d) => AddDefault(m, d.name, d.driver, d.mimetype, d.imagemode, d.extension)
  }

  /** `msCreateDefaultOutputFormat`: GD/PC256 stands for GD/GIF, or GD/PNG
      when GIF is not built in. */
  function CreateDefaultOutputFormat(m: Map, driver: string, build: Build): (r: Created)
    requires WellFormed(m)
    ensures WellFormed(r.result)
    ensures r.format.None? ==> r.result == m
    ensures r.format.Some? ==> (r.format == Some(|m.heap|) && Extends(m, r.result)
      && r.result.imagetype == m.imagetype
      && r.result.list == m.list + [|m.heap|] && |r.result.heap| == |m.heap| + 1)
  {
    if LowerAll(driver) == "gd/pc256" then
      if build.gdGif then CreateBuiltin(m, "GD/GIF", build)
      else if build.gdPng then CreateBuiltin(m, "GD/PNG", build)
      else Created(m, None)
    else CreateBuiltin(m, driver, build)
  }

  /** `msApplyDefaultOutputFormats` goes through nine (type, driver) pairs. */
  const DefaultCount: nat := 9

  function DefaultType(i: nat): string
    requires i < DefaultCount
  {
    if i == 0 then "gif" else if i == 1 then "png" else if i == 2 then "png24"
    else if i == 3 then "jpeg" else if i == 4 then "wbmp" else if i == 5 then "swf"
    else if i == 6 then "imagemap" else if i == 7 then "pdf" else "GTiff"
  }

  function DefaultDriver(i: nat): string
    requires i < DefaultCount
  {
    if i == 0 then "GD/GIF" else if i == 1 then "GD/PNG" else if i == 2 then "GD/PNG24"
    else if i == 3 then "GD/JPEG" else if i == 4 then "GD/WBMP" else if i == 5 then "swf"
    else if i == 6 then "imagemap" else if i == 7 then "pdf" else "GDAL/GTiff"
  }

  lemma ExtendsTrans(m1: Map, m2: Map, m3: Map)
    requires Extends(m1, m2) && Extends(m2, m3)
    ensures Extends(m1, m3)
  {
    assert m3.heap[..|m1.heap|] == m3.heap[..|m2.heap|][..|m1.heap|];
    assert m3.list[..|m1.list|] == m3.list[..|m2.list|][..|m1.list|];
  }

  /** Defaults `k` onwards: each is created unless its type already selects
      a format. */
  function ApplyDefaultsFrom(m: Map, build: Build, k: nat): (r: Map)
    requires WellFormed(m) && k <= DefaultCount
    ensures WellFormed(r) && Extends(m, r)
    decreases DefaultCount - k
  {
    if k == DefaultCount then m
    else
      var m2 := ApplyDefaultStep(m, build, k);
      var r := ApplyDefaultsFrom(m2, build, k + 1);
      ExtendsTrans(m, m2, r);
      r
  }

  /** One `if (msSelectOutputFormat(...) == NULL) msCreateDefaultOutputFormat(...)`. */
  function ApplyDefaultStep(m: Map, build: Build, k: nat): (r: Map)
    requires WellFormed(m) && k < DefaultCount
    ensures WellFormed(r) && Extends(m, r)
  {
    var (m1, found) := SelectOutputFormat(m, Some(DefaultType(k)));
    if found.None? then CreateDefaultOutputFormat(m1, DefaultDriver(k), build).result else m1
  }

  /** `msApplyDefaultOutputFormats`: add the built-in formats the map does
      not define, then restore `imagetype` (selection changes it). */
  function ApplyDefaultOutputFormats(m: Map, build: Build): (r: Map)
    requires WellFormed(m)
    ensures WellFormed(r) && Extends(m, r) && r.imagetype == m.imagetype
  {
    ApplyDefaultsFrom(m, build, 0).(imagetype := m.imagetype)
  }

  /** Some format of the list answers to `t`, by MIME type or by name. */
  ghost predicate Offers(m: Map, t: string)
    requires WellFormed(m)
  {
    exists j :: 0 <= j < |m.list| && (MimeMatch(m.heap[m.list[j]], t) || NameMatch(m.heap[m.list[j]], t))
  }

  lemma OffersSelect(m: Map, t: string)
    requires WellFormed(m) && |t| > 0
    ensures SelectOutputFormat(m, Some(t)).1.Some? <==> Offers(m, t)
  {
    SelectFindsIff(m, Some(t));
  }

  /** Extending the list never takes a format away. */
  lemma OffersExtends(m: Map, m': Map, t: string)
    requires WellFormed(m) && WellFormed(m') && Extends(m, m') && Offers(m, t)
    ensures Offers(m', t)
  {
    var j :| 0 <= j < |m.list| && (MimeMatch(m.heap[m.list[j]], t) || NameMatch(m.heap[m.list[j]], t));
    assert m'.list[j] == m.list[j];
    assert m'.heap[m.list[j]] == m.heap[m.list[j]];
  }

  /** The kind of the `i`-th default's driver. */
  function DefaultKind(i: nat): DriverKind
    requires i < DefaultCount
  {
    if i == 0 then GdGif else if i == 1 then GdPng else if i == 2 then GdPng24
    else if i == 3 then GdJpeg else if i == 4 then GdWbmp else if i == 5 then Swf
    else if i == 6 then Imagemap else if i == 7 then Pdf else Gdal
  }

  lemma DefaultDriverNames(i: nat)
    requires i < DefaultCount
    ensures Names(DefaultDriver(i), DefaultKind(i))
  {
    var d := DefaultDriver(i);
    if i < 8 {
      LowerAllAt(d);
    } else {
      LowerAllAt(d[..5]);
    }
  }

  lemma DefaultDriverKind(i: nat)
    requires i < DefaultCount
    ensures KindOf(DefaultDriver(i)) == Some(DefaultKind(i))
  {
    assert Names(DefaultDriver(i), DefaultKind(i)) by { DefaultDriverNames(i); }
    KindOfComplete(DefaultDriver(i), DefaultKind(i));
  }

  lemma DefaultNotPc256(i: nat)
    requires i < DefaultCount
    ensures LowerAll(DefaultDriver(i)) != "gd/pc256"
  {
    DefaultDriverKind(i);
  }

  /** The library each non-GDAL kind needs, and the type name it gets. */
  predicate KindBuilt(k: DriverKind, build: Build)
    requires k != Gdal
  {
    match k
    case GdGif => build.gdGif
    case GdPng => build.gdPng
    case GdPng24 => build.gdPng && build.gd2
    case GdJpeg => build.gdJpeg
    case GdWbmp => build.gdWbmp
    case Swf => build.ming
    case Pdf => build.pdf
    case Imagemap => true
  }

  function KindName(k: DriverKind): string
    requires k != Gdal
  {
    match k
    case GdGif => "gif"
    case GdPng => "png"
    case GdPng24 => "png24"
    case GdJpeg => "jpeg"
    case GdWbmp => "wbmp"
    case Swf => "swf"
    case Pdf => "pdf"
    case Imagemap => "imagemap"
  }

  /** A recognised non-GDAL driver gets its default exactly when its
      library is built in; GDAL drivers need GDAL and a driver that
      initialises, and are named after the driver. */
  lemma BuiltinOfKind(driver: string, build: Build)
    requires KindOf(driver).Some?
    ensures var k, b := KindOf(driver).value, BuiltinDefault(driver, build);
      if k == Gdal then
        |driver| >= 5 && (b.Some? <==> build.gdal && driver[5..] in build.gdalInit)
        && (b.Some? ==> b.value.name == driver[5..])
      else (b.Some? <==> KindBuilt(k, build)) && (b.Some? ==> b.value.name == KindName(k))
  {
  }

  /** Whether the build can make the `i`-th default. */
  predicate DefaultBuilt(i: nat, build: Build)
    requires i < DefaultCount
  {
    if DefaultKind(i) == Gdal then build.gdal && "GTiff" in build.gdalInit
    else KindBuilt(DefaultKind(i), build)
  }

  /** The type of each default is the name its driver's format gets. */
  lemma DefaultTypeNamed(i: nat)
    requires i < DefaultCount
    ensures DefaultKind(i) == Gdal ==> DefaultDriver(i)[5..] == DefaultType(i)
    ensures DefaultKind(i) != Gdal ==> KindName(DefaultKind(i)) == DefaultType(i)
  {
  }

  /** Creating the `i`-th default succeeds exactly when the build has it,
      and the new format answers to the default's type. */
  lemma DefaultCreates(m: Map, build: Build, i: nat)
    requires WellFormed(m) && i < DefaultCount
    ensures var c := CreateDefaultOutputFormat(m, DefaultDriver(i), build);
      (c.format.Some? <==> DefaultBuilt(i, build))
      && (c.format.Some? ==> Offers(c.result, DefaultType(i)))
  {
    var t, d := DefaultType(i), DefaultDriver(i);
    var c := CreateDefaultOutputFormat(m, d, build);
    assert c == CreateBuiltin(m, d, build) by { DefaultNotPc256(i); }
    var b := BuiltinDefault(d, build);
    assert (b.Some? <==> DefaultBuilt(i, build)) && (b.Some? ==> b.value.name == t) by {
      DefaultDriverKind(i);
      BuiltinOfKind(d, build);
      DefaultTypeNamed(i);
    }
    if c.format.Some? {
      var j := |m.list|;
      assert c.result.list[j] == |m.heap|;
      assert NameMatch(c.result.heap[c.result.list[j]], t);
    }
  }

  /** One step offers its type afterwards when the map offered it already
      or the build can make it. */
  lemma StepOffers(m: Map, build: Build, k: nat)
    requires WellFormed(m) && k < DefaultCount
    ensures Offers(m, DefaultType(k)) || DefaultBuilt(k, build) ==> Offers(ApplyDefaultStep(m, build, k), DefaultType(k))
  {
    var t := DefaultType(k);
    if Offers(m, t) {
      OffersExtends(m, ApplyDefaultStep(m, build, k), t);
    } else if DefaultBuilt(k, build) {
      StepCreates(m, build, k);
      DefaultCreates(m, build, k);
    }
  }

  /** A step whose type the map does not offer creates the default. */
  lemma StepCreates(m: Map, build: Build, k: nat)
    requires WellFormed(m) && k < DefaultCount && !Offers(m, DefaultType(k))
    ensures ApplyDefaultStep(m, build, k) == CreateDefaultOutputFormat(m, DefaultDriver(k), build).result
  {
    OffersSelect(m, DefaultType(k));
  }

  /** One step changes nothing but `imagetype` when the map offers its type
      or the build cannot make it. */
  lemma StepStill(m: Map, build: Build, k: nat)
    requires WellFormed(m) && k < DefaultCount
    requires Offers(m, DefaultType(k)) || !DefaultBuilt(k, build)
    ensures var r := ApplyDefaultStep(m, build, k);
      r.heap == m.heap && r.list == m.list && r.outputformat == m.outputformat
  {
    OffersSelect(m, DefaultType(k));
    if !Offers(m, DefaultType(k)) {
      DefaultCreates(m, build, k);
    }
  }

  /** `Offers` looks at the list and the formats only. */
  lemma OffersSameList(m: Map, m': Map, t: string)
    requires WellFormed(m) && m'.heap == m.heap && m'.list == m.list
    ensures Offers(m', t) <==> Offers(m, t)
  {
  }

  lemma {:induction false} DefaultsFromOffers(m: Map, build: Build, k: nat, i: nat)
    requires WellFormed(m) && k <= i < DefaultCount
    ensures Offers(m, DefaultType(i)) || DefaultBuilt(i, build) ==> Offers(ApplyDefaultsFrom(m, build, k), DefaultType(i))
    decreases DefaultCount - k
  {
    var m2 := ApplyDefaultStep(m, build, k);
    var r := ApplyDefaultsFrom(m, build, k);
    assert r == ApplyDefaultsFrom(m2, build, k + 1);
    if Offers(m, DefaultType(i)) || DefaultBuilt(i, build) {
      if k == i {
        StepOffers(m, build, k);
        OffersExtends(m2, r, DefaultType(i));
      } else {
        if Offers(m, DefaultType(i)) {
          OffersExtends(m, m2, DefaultType(i));
        }
        DefaultsFromOffers(m2, build, k + 1, i);
      }
    }
  }

  /** After the defaults are applied, every default type the map lacked but
      the build supports selects a format, and every type the map offered
      still does. */
  lemma ApplyDefaultsOffers(m: Map, build: Build, t: string)
    requires WellFormed(m)
    ensures Offers(m, t) ==> Offers(ApplyDefaultOutputFormats(m, build), t)
    ensures forall i :: 0 <= i < DefaultCount && t == DefaultType(i) && DefaultBuilt(i, build) ==>
      Offers(ApplyDefaultOutputFormats(m, build), t)
  {
    var r := ApplyDefaultOutputFormats(m, build);
    var r0 := ApplyDefaultsFrom(m, build, 0);
    OffersSameList(r0, r, t);
    if Offers(m, t) {
      OffersExtends(m, r0, t);
    }
    forall i | 0 <= i < DefaultCount && t == DefaultType(i) && DefaultBuilt(i, build)
      ensures Offers(r, t)
    {
      DefaultsFromOffers(m, build, 0, i);
    }
  }

  lemma {:induction false} DefaultsFromStill(m: Map, build: Build, k: nat)
    requires WellFormed(m) && k <= DefaultCount
    requires forall i :: k <= i < DefaultCount ==> Offers(m, DefaultType(i)) || !DefaultBuilt(i, build)
    ensures var r := ApplyDefaultsFrom(m, build, k);
      r.heap == m.heap && r.list == m.list && r.outputformat == m.outputformat
    decreases DefaultCount - k
  {
    if k < DefaultCount {
      var m2 := ApplyDefaultStep(m, build, k);
      StepStill(m, build, k);
      forall i | k + 1 <= i < DefaultCount
        ensures Offers(m2, DefaultType(i)) || !DefaultBuilt(i, build)
      {
        OffersSameList(m, m2, DefaultType(i));
      }
      DefaultsFromStill(m2, build, k + 1);
    }
  }

  /** Applying the defaults twice is applying them once. */
  lemma ApplyDefaultsIdempotent(m: Map, build: Build)
    requires WellFormed(m)
    ensures var r := ApplyDefaultOutputFormats(m, build);
      ApplyDefaultOutputFormats(r, build) == r
  {
    var r := ApplyDefaultOutputFormats(m, build);
    forall i | 0 <= i < DefaultCount
      ensures Offers(r, DefaultType(i)) || !DefaultBuilt(i, build)
    {
      ApplyDefaultsOffers(m, build, DefaultType(i));
    }
    DefaultsFromStill(r, build, 0);
  }

  // ---------------------------------------------------------------------
  // Applying a format with overrides
  // ---------------------------------------------------------------------

  /** The heap after `msApplyOutputFormat`, and the new `*target`. */
  datatype Applied = Applied(heap: seq<Format>, target: Option<nat>)

  /** `msFreeOutputFormat` of an optional heap entry. */
  function Free(heap: seq<Format>, id: Option<nat>): (r: seq<Format>)
    requires id.Some? ==> id.value < |heap|
    ensures |r| == |heap|
    ensures forall k :: 0 <= k < |heap| ==> r[k].(live := heap[k].live) == heap[k]
    ensures forall k :: 0 <= k < |heap| ==> (r[k].live <==> heap[k].live && id != Some(k))
  {
    if id.Some? then heap[id.value := heap[id.value].(live := false)] else heap
  }

  /** `atoi` of the QUALITY option, 75 when it is absent. */
  function Quality(options: seq<string>): int {
    Atoi(GetOption(options, "QUALITY", "75"))
  }

  /** INTERLACE is on unless the option says OFF (either case); the
      default "ON" is not OFF, so only a present option can turn it off. */
  predicate Interlaced(options: seq<string>) {
    var hit := FirstKeyFrom(options, "INTERLACE", 0);
    hit.None? || !EqualFold(options[hit.value][|"INTERLACE"| + 1..], "OFF")
  }

  /** `Interlaced` is `strcasecmp(get(INTERLACE, "ON"), "OFF") != 0`. */
  lemma InterlacedIsNotOff(options: seq<string>)
    ensures Interlaced(options) <==> !EqualFold(GetOption(options, "INTERLACE", "ON"), "OFF")
  {
    assert LowerAll("ON") != LowerAll("OFF");
  }

  /** Does any override differ from what the format already has? */
  predicate ChangeNeeded(f: Format, transparent: int, interlaced: int, quality: int) {
    (transparent != NoOverride && (f.transparent == 0) != (transparent == 0))
    || (quality != NoOverride && Quality(f.options) != quality)
    || (interlaced != NoOverride && (interlaced == 0) != !Interlaced(f.options))
  }

  /** A transparency override sets TRANSPARENT and turns RGB into RGBA. */
  function WithTransparency(f: Format, transparent: int): Format {
    if transparent != NoOverride
    then f.(transparent := transparent, imagemode := if f.imagemode == RGB then RGBA else f.imagemode)
    else f
  }

  /** A quality override that differs from `current` is written as QUALITY. */
  function WithQuality(f: Format, quality: int, current: int): Format {
    if quality != NoOverride && quality != current
    then f.(options := SetOption(f.options, "QUALITY", IntToDecimal(quality)))
    else f
  }

  /** An interlace override that differs from `current` is written as
      INTERLACE=ON or INTERLACE=OFF. */
  function WithInterlace(f: Format, interlaced: int, current: bool): Format {
    if interlaced != NoOverride && (interlaced == 0) != !current
    then f.(options := SetOption(f.options, "INTERLACE", if interlaced != 0 then "ON" else "OFF"))
    else f
  }

  /** The edits `msApplyOutputFormat` makes to a format it changes; the
      QUALITY and INTERLACE comparisons use the values before any edit. */
  function Adjust(f: Format, transparent: int, interlaced: int, quality: int): Format {
    WithInterlace(WithQuality(WithTransparency(f, transparent), quality, Quality(f.options)),
                  interlaced, Interlaced(f.options))
  }

  /** The first half of `msApplyOutputFormat`: the old target gives up its
      reference. */
  function Release(heap: seq<Format>, target: Option<nat>): (r: seq<Format>)
    requires target.Some? ==> target.value < |heap|
    ensures |r| == |heap|
  {
    if target.Some?
    then heap[target.value := heap[target.value].(refcount := heap[target.value].refcount - 1)]
    else heap
  }

  /** Where the new target lives: a clone appended to the heap when the
      format must change while something references it, else the format. */
  function InstallTarget(heap: seq<Format>, format: nat, transparent: int, interlaced: int, quality: int): nat
    requires format < |heap|
  {
    if ChangeNeeded(heap[format], transparent, interlaced, quality) && heap[format].refcount > 0
    then |heap| else format
  }

  /** The second half: the format, cloned and adjusted if it must change,
      gains a reference. */
  function Install(heap: seq<Format>, format: nat, transparent: int, interlaced: int, quality: int): (r: seq<Format>)
    requires format < |heap|
    ensures |r| == |heap| || |r| == |heap| + 1
    ensures InstallTarget(heap, format, transparent, interlaced, quality) < |r|
    ensures var id := InstallTarget(heap, format, transparent, interlaced, quality);
      && (forall k :: 0 <= k < |heap| && k != id ==> r[k] == heap[k])
      && (id == format ==> r[id].refcount == heap[format].refcount + 1 && r[id].live == heap[format].live)
      && (id != format ==> id == |heap| && r[id].refcount == 1 && r[id].live)
  {
    var f := heap[format];
    if !ChangeNeeded(f, transparent, interlaced, quality) then
      heap[format := f.(refcount := f.refcount + 1)]
    else if f.refcount > 0 then
      var g := Adjust(Clone(f), transparent, interlaced, quality);
      heap + [g.(refcount := g.refcount + 1)]
    else
      var g := Adjust(f, transparent, interlaced, quality);
      heap[format := g.(refcount := g.refcount + 1)]
  }

  /** `msApplyOutputFormat(target, format, transparent, interlaced, quality)`.
      The old target loses a reference and is freed when none are left; a
      format that must change is cloned first if anything references it;
      the new target gains a reference. */
  function ApplyOutputFormat(heap: seq<Format>, target: Option<nat>, format: Option<nat>,
                             transparent: int, interlaced: int, quality: int): (r: Applied)
    requires target.Some? ==> target.value < |heap|
    requires format.Some? ==> format.value < |heap|
    ensures |r.heap| == |heap| || |r.heap| == |heap| + 1
    ensures r.target.Some? ==> r.target.value < |r.heap|
    ensures format.None? ==> r.target.None? || r.target == target
    ensures format.Some? ==> r.target.Some?
  {
    var dropped := target.Some? && heap[target.value].refcount - 1 < 1;
    var h1 := Release(heap, target);
    var toFree := if dropped then target else None;
    if format.None? then
      Applied(Free(h1, toFree), if dropped then None else target)
    else
      var id := InstallTarget(h1, format.value, transparent, interlaced, quality);
      Applied(Free(Install(h1, format.value, transparent, interlaced, quality), toFree), Some(id))
  }

  lemma KeyFirstLetter(x: string, key: string)
    requires |key| > 0
    ensures KeyMatches(x, key) ==> Lower(x[0]) == Lower(key[0])
  {
    if KeyMatches(x, key) {
      EqualFoldAt(x[..|key|], key);
      assert x[..|key|][0] == x[0];
    }
  }

  /** No option can carry two keys whose first letters differ. */
  lemma KeysExclusive(x: string, key: string, other: string)
    requires |key| > 0 && |other| > 0 && Lower(key[0]) != Lower(other[0])
    ensures !(KeyMatches(x, key) && KeyMatches(x, other))
  {
    KeyFirstLetter(x, key);
    KeyFirstLetter(x, other);
  }

  /** Setting one key leaves reading another alone when no option can carry both. */
  lemma GetAfterSetExclusive(options: seq<string>, key: string, other: string, value: string, default: string)
    requires forall x :: !(KeyMatches(x, key) && KeyMatches(x, other))
    ensures GetOption(SetOption(options, other, value), key, default) == GetOption(options, key, default)
  {
    var line := other + "=" + value;
    var r := SetOption(options, other, value);
    KeyOfLine(other, value);
    FirstKeyFromIsFirst(options, other, 0);
    FirstKeyFromIsFirst(options, key, 0);
    var hit := FirstKeyFrom(options, other, 0);
    assert forall j :: 0 <= j < |r| ==> r[j] == line || (j < |options| && r[j] == options[j]);
    assert forall j :: 0 <= j < |options| && r[j] != options[j] ==> KeyMatches(options[j], other) by {
      if hit.Some? {
        assert forall j :: 0 <= j < |options| && j != hit.value ==> r[j] == options[j];
      }
    }
    var k := FirstKeyFrom(options, key, 0);
    if k.Some? {
      GetOptionFound(r, key, default, k.value);
    } else {
      GetOptionMissing(r, key, default);
    }
  }

  /** Setting one key leaves reading a key with another first letter alone. */
  lemma GetAfterSetOther(options: seq<string>, key: string, other: string, value: string, default: string)
    requires |key| > 0 && |other| > 0 && Lower(key[0]) != Lower(other[0])
    ensures GetOption(SetOption(options, other, value), key, default) == GetOption(options, key, default)
  {
    forall x
      ensures !(KeyMatches(x, key) && KeyMatches(x, other))
    {
      KeysExclusive(x, key, other);
    }
    GetAfterSetExclusive(options, key, other, value, default);
  }

  /** An option carrying a key and a longer one puts '=' in the longer key. */
  lemma KeyInsideLonger(x: string, key: string, other: string)
    requires KeyMatches(x, key) && KeyMatches(x, other) && |key| < |other|
    ensures other[|key|] == '='
  {
    EqualFoldAt(x[..|other|], other);
    assert x[..|other|][|key|] == x[|key|];
  }

  /** No option carries two keys that differ ignoring case and hold no '='. */
  lemma KeysExclusiveFold(x: string, key: string, other: string)
    requires '=' !in key && '=' !in other && !EqualFold(key, other)
    ensures !(KeyMatches(x, key) && KeyMatches(x, other))
  {
    if KeyMatches(x, key) && KeyMatches(x, other) {
      if |key| < |other| {
        KeyInsideLonger(x, key, other);
      } else if |other| < |key| {
        KeyInsideLonger(x, other, key);
      }
    }
  }

  /**
   * Setting one key leaves reading every other key alone, the keys compared
   * ignoring case as msGetOutputFormatOption and msSetOutputFormatOption
   * compare them, provided neither holds '='.
   */
  lemma GetAfterSetDistinct(options: seq<string>, key: string, other: string, value: string, default: string)
    requires '=' !in key && '=' !in other && !EqualFold(key, other)
    ensures GetOption(SetOption(options, other, value), key, default) == GetOption(options, key, default)
  {
    forall x
      ensures !(KeyMatches(x, key) && KeyMatches(x, other))
    {
      KeysExclusiveFold(x, key, other);
    }
    GetAfterSetExclusive(options, key, other, value, default);
  }

  lemma QualityKeepsInterlace(options: seq<string>, value: string)
    ensures Interlaced(SetOption(options, "QUALITY", value)) == Interlaced(options)
  {
    GetAfterSetOther(options, "INTERLACE", "QUALITY", value, "ON");
  }

  lemma InterlaceKeepsQuality(options: seq<string>, value: string)
    ensures Quality(SetOption(options, "INTERLACE", value)) == Quality(options)
  {
    GetAfterSetOther(options, "QUALITY", "INTERLACE", value, "75");
  }

  lemma QualityReadBack(options: seq<string>, quality: int)
    ensures Quality(SetOption(options, "QUALITY", IntToDecimal(quality))) == quality
  {
    GetAfterSet(options, "QUALITY", IntToDecimal(quality), "75");
    AtoiOfDecimal(quality);
  }

  lemma InterlaceReadBack(options: seq<string>, on: bool)
    ensures Interlaced(SetOption(options, "INTERLACE", if on then "ON" else "OFF")) == on
  {
    GetAfterSet(options, "INTERLACE", if on then "ON" else "OFF", "ON");
    assert LowerAll("ON") != LowerAll("OFF");
  }

  lemma AdjustQuality(f: Format, transparent: int, interlaced: int, quality: int)
    requires quality != NoOverride
    ensures Quality(Adjust(f, transparent, interlaced, quality).options) == quality
  {
    var f1 := WithTransparency(f, transparent);
    var f2 := WithQuality(f1, quality, Quality(f.options));
    assert Quality(f2.options) == quality by {
      if quality != Quality(f.options) {
        QualityReadBack(f1.options, quality);
      }
    }
    var g := WithInterlace(f2, interlaced, Interlaced(f.options));
    assert Quality(g.options) == Quality(f2.options) by {
      if g != f2 {
        InterlaceKeepsQuality(f2.options, if interlaced != 0 then "ON" else "OFF");
      }
    }
  }

  lemma AdjustInterlace(f: Format, transparent: int, interlaced: int, quality: int)
    requires interlaced != NoOverride
    ensures Interlaced(Adjust(f, transparent, interlaced, quality).options) == (interlaced != 0)
  {
    var f1 := WithTransparency(f, transparent);
    var f2 := WithQuality(f1, quality, Quality(f.options));
    assert Interlaced(f2.options) == Interlaced(f.options) by {
      if f2 != f1 {
        QualityKeepsInterlace(f1.options, IntToDecimal(quality));
      }
    }
    var g := WithInterlace(f2, interlaced, Interlaced(f.options));
    if (interlaced == 0) != !Interlaced(f.options) {
      InterlaceReadBack(f2.options, interlaced != 0);
    }
  }

  /** Adjusting changes only the transparency, the image mode (RGB to
      RGBA) and the options. */
  lemma AdjustTouches(f: Format, transparent: int, interlaced: int, quality: int)
    ensures var g := Adjust(f, transparent, interlaced, quality);
      && g.name == f.name && g.mimetype == f.mimetype && g.driver == f.driver && g.extension == f.extension
      && g.refcount == f.refcount && g.live == f.live
      && g.transparent == (if transparent != NoOverride then transparent else f.transparent)
      && g.imagemode == (if transparent != NoOverride && f.imagemode == RGB then RGBA else f.imagemode)
  {
  }

  /** The entry `Install` leaves at the new target. */
  lemma InstallAt(heap: seq<Format>, format: nat, transparent: int, interlaced: int, quality: int)
    requires format < |heap|
    ensures var f := heap[format];
      var g := Install(heap, format, transparent, interlaced, quality)[InstallTarget(heap, format, transparent, interlaced, quality)];
      var x := if f.refcount > 0 then Clone(f) else f;
      var a := Adjust(x, transparent, interlaced, quality);
      g == if ChangeNeeded(f, transparent, interlaced, quality) then a.(refcount := a.refcount + 1) else f.(refcount := f.refcount + 1)
  {
  }

  /** The overrides hold of an adjusted format, which keeps its identity;
      the image mode only moves from RGB to RGBA, and does so with a
      transparency override. */
  predicate Overridden(f: Format, g: Format, transparent: int, interlaced: int, quality: int) {
    && g.name == f.name && g.mimetype == f.mimetype && g.driver == f.driver && g.extension == f.extension
    && (transparent != NoOverride ==> (g.transparent != 0) == (transparent != 0))
    && (quality != NoOverride ==> Quality(g.options) == quality)
    && (interlaced != NoOverride ==> Interlaced(g.options) == (interlaced != 0))
    && (g.imagemode == f.imagemode || (f.imagemode == RGB && g.imagemode == RGBA))
  }

  lemma AdjustOverrides(f: Format, transparent: int, interlaced: int, quality: int)
    ensures var a := Adjust(f, transparent, interlaced, quality);
      && Overridden(f, a, transparent, interlaced, quality)
      && (transparent != NoOverride && f.imagemode == RGB ==> a.imagemode == RGBA)
  {
    AdjustTouches(f, transparent, interlaced, quality);
    if quality != NoOverride {
      AdjustQuality(f, transparent, interlaced, quality);
    }
    if interlaced != NoOverride {
      AdjustInterlace(f, transparent, interlaced, quality);
    }
  }

  /** Validation after the edits `msApplyOutputFormat` makes to a valid
      format: the edited format stays valid unless transparency is turned
      off on an RGB or RGBA format, because a transparency override turns
      RGB into RGBA whatever its value. */
  lemma AdjustValidity(f: Format, transparent: int, interlaced: int, quality: int)
    requires Validate(f)
    ensures Validate(Adjust(f, transparent, interlaced, quality))
        <==> transparent != 0 || (f.imagemode != RGB && f.imagemode != RGBA)
  {
    AdjustTouches(f, transparent, interlaced, quality);
  }

  /** What `Install` leaves at the new target: the overrides hold, the
      image mode only moves from RGB to RGBA, the identity is the format's. */
  lemma InstallOverrides(heap: seq<Format>, format: nat, transparent: int, interlaced: int, quality: int)
    requires format < |heap|
    ensures var f := heap[format];
      var g := Install(heap, format, transparent, interlaced, quality)[InstallTarget(heap, format, transparent, interlaced, quality)];
      && Overridden(f, g, transparent, interlaced, quality)
      && (transparent != NoOverride && ChangeNeeded(f, transparent, interlaced, quality) && f.imagemode == RGB
          ==> g.imagemode == RGBA)
  {
    var f := heap[format];
    var g := Install(heap, format, transparent, interlaced, quality)[InstallTarget(heap, format, transparent, interlaced, quality)];
    var x := if f.refcount > 0 then Clone(f) else f;
    var a := Adjust(x, transparent, interlaced, quality);
    var change := ChangeNeeded(f, transparent, interlaced, quality);
    assert g == if change then a.(refcount := a.refcount + 1) else f.(refcount := f.refcount + 1) by {
      InstallAt(heap, format, transparent, interlaced, quality);
    }
    if change {
      assert x.options == f.options && x.transparent == f.transparent && x.imagemode == f.imagemode
        && x.name == f.name && x.mimetype == f.mimetype && x.driver == f.driver && x.extension == f.extension;
      AdjustOverrides(x, transparent, interlaced, quality);
    }
  }

  /** `Install`'s reference counting: a changed, referenced format is left
      alone and a clone holding one reference is appended; otherwise the
      format itself gains a reference. No other entry changes. */
  lemma InstallReferences(heap: seq<Format>, format: nat, transparent: int, interlaced: int, quality: int)
    requires format < |heap|
    ensures var f := heap[format];
      var id := InstallTarget(heap, format, transparent, interlaced, quality);
      var h := Install(heap, format, transparent, interlaced, quality);
      && (forall k :: 0 <= k < |heap| && k != id ==> h[k] == heap[k])
      && (id != format <==> ChangeNeeded(f, transparent, interlaced, quality) && f.refcount > 0)
      && (id == format ==> h[id].refcount == f.refcount + 1 && h[id].live == f.live)
      && (id != format ==> id == |heap| && h[id].refcount == 1 && h[id].live)
  {
  }

  /** `ApplyOutputFormat` with a format is `Release` then `Install`, with
      the released target freed when its count fell below one. */
  lemma ApplySplits(heap: seq<Format>, target: Option<nat>, format: nat,
                    transparent: int, interlaced: int, quality: int)
    requires target.Some? ==> target.value < |heap|
    requires format < |heap|
    ensures var r := ApplyOutputFormat(heap, target, Some(format), transparent, interlaced, quality);
      var h1 := Release(heap, target);
      var h2 := Install(h1, format, transparent, interlaced, quality);
      var dropped := target.Some? && heap[target.value].refcount - 1 < 1;
      && r.target == Some(InstallTarget(h1, format, transparent, interlaced, quality))
      && |r.heap| == |h2|
      && (forall k :: 0 <= k < |h2| ==> r.heap[k].(live := h2[k].live) == h2[k])
      && (forall k :: 0 <= k < |h2| ==> (r.heap[k].live <==> h2[k].live && !(dropped && target == Some(k))))
  {
  }

  /** `Release` only lowers the target's count. */
  lemma ReleaseTarget(heap: seq<Format>, target: Option<nat>, k: nat)
    requires target.Some? ==> target.value < |heap|
    requires k < |heap|
    ensures var h1 := Release(heap, target);
      h1[k] == if target == Some(k) then heap[k].(refcount := heap[k].refcount - 1) else heap[k]
  {
  }

  /** The overrides hold for the applied format: its transparency has the
      requested truth value, its QUALITY reads back as requested, its
      INTERLACE setting is on exactly when requested; the image mode only
      changes from RGB to RGBA, and does so whenever a change is made with
      a transparency override. Name, MIME type, driver and extension are
      the format's own. */
  lemma ApplyOverrides(heap: seq<Format>, target: Option<nat>, format: nat,
                       transparent: int, interlaced: int, quality: int)
    requires target.Some? ==> target.value < |heap|
    requires format < |heap|
    ensures var r := ApplyOutputFormat(heap, target, Some(format), transparent, interlaced, quality);
      var F := heap[format];
      var g := r.heap[r.target.value];
      && (transparent != NoOverride ==> (g.transparent != 0) == (transparent != 0))
      && (quality != NoOverride ==> Quality(g.options) == quality)
      && (interlaced != NoOverride ==> Interlaced(g.options) == (interlaced != 0))
      && (g.imagemode == F.imagemode || (F.imagemode == RGB && g.imagemode == RGBA))
      && (transparent != NoOverride && ChangeNeeded(F, transparent, interlaced, quality) && F.imagemode == RGB
          ==> g.imagemode == RGBA)
      && g.name == F.name && g.mimetype == F.mimetype && g.driver == F.driver && g.extension == F.extension
  {
    var F := heap[format];
    var h1 := Release(heap, target);
    var f := h1[format];
    assert f.options == F.options && f.transparent == F.transparent && f.imagemode == F.imagemode
      && f.name == F.name && f.mimetype == F.mimetype && f.driver == F.driver && f.extension == F.extension by {
      ReleaseTarget(heap, target, format);
    }
    var id := InstallTarget(h1, format, transparent, interlaced, quality);
    var h2 := Install(h1, format, transparent, interlaced, quality);
    InstallOverrides(h1, format, transparent, interlaced, quality);
    ApplySplits(heap, target, format, transparent, interlaced, quality);
    var r := ApplyOutputFormat(heap, target, Some(format), transparent, interlaced, quality);
    assert r.heap[id].(live := h2[id].live) == h2[id];
  }

  /** A valid format applied without a transparency override keeps its
      renderer, its image mode and its transparency, and so stays valid:
      only QUALITY and INTERLACE can change. */
  lemma ApplyKeepsValid(heap: seq<Format>, target: Option<nat>, format: nat, interlaced: int, quality: int)
    requires target.Some? ==> target.value < |heap|
    requires format < |heap| && Validate(heap[format])
    ensures var r := ApplyOutputFormat(heap, target, Some(format), NoOverride, interlaced, quality);
      var g := r.heap[r.target.value];
      && g.driver == heap[format].driver && g.imagemode == heap[format].imagemode
      && g.transparent == heap[format].transparent && Validate(g)
  {
    var F := heap[format];
    var h1 := Release(heap, target);
    var f := h1[format];
    assert f.transparent == F.transparent && f.imagemode == F.imagemode && f.driver == F.driver by {
      ReleaseTarget(heap, target, format);
    }
    var id := InstallTarget(h1, format, NoOverride, interlaced, quality);
    var h2 := Install(h1, format, NoOverride, interlaced, quality);
    InstallAt(h1, format, NoOverride, interlaced, quality);
    var x := if f.refcount > 0 then Clone(f) else f;
    AdjustTouches(x, NoOverride, interlaced, quality);
    ApplySplits(heap, target, format, NoOverride, interlaced, quality);
    var r := ApplyOutputFormat(heap, target, Some(format), NoOverride, interlaced, quality);
    assert r.heap[id].(live := h2[id].live) == h2[id];
  }

  /** Reference counting when the new format is not the old target: the old
      target loses one reference and is freed when none remain; a format
      that must change and is referenced is cloned and left untouched, the
      clone holding the one reference; otherwise the format gains one. */
  lemma ApplyReferences(heap: seq<Format>, target: Option<nat>, format: nat,
                        transparent: int, interlaced: int, quality: int)
    requires target.Some? ==> target.value < |heap| && target.value != format
    requires format < |heap|
    ensures var r := ApplyOutputFormat(heap, target, Some(format), transparent, interlaced, quality);
      var f := heap[format];
      && (target.Some? ==>
            r.heap[target.value].refcount == heap[target.value].refcount - 1
            && (r.heap[target.value].live <==> heap[target.value].live && heap[target.value].refcount >= 2))
      && (r.target != Some(format) <==> ChangeNeeded(f, transparent, interlaced, quality) && f.refcount > 0)
      && (r.target == Some(format) ==> r.heap[format].refcount == f.refcount + 1 && r.heap[format].live == f.live)
      && (r.target != Some(format) ==>
            r.target == Some(|heap|) && r.heap[|heap|].refcount == 1 && r.heap[|heap|].live
            && r.heap[format] == f)
  {
    var h1 := Release(heap, target);
    ReleaseTarget(heap, target, format);
    assert h1[format] == heap[format];
    if target.Some? {
      ReleaseTarget(heap, target, target.value);
    }
    InstallReferences(h1, format, transparent, interlaced, quality);
    ApplySplits(heap, target, format, transparent, interlaced, quality);
  }

  /** The new target is a live format unless the call hands the target its
      own last reference as the new format. */
  lemma ApplyTargetLive(heap: seq<Format>, target: Option<nat>, format: nat,
                        transparent: int, interlaced: int, quality: int)
    requires target.Some? ==> target.value < |heap|
    requires format < |heap| && heap[format].live
    requires !(target == Some(format) && heap[format].refcount <= 1)
    ensures var r := ApplyOutputFormat(heap, target, Some(format), transparent, interlaced, quality);
      r.heap[r.target.value].live
  {
    var h1 := Release(heap, target);
    ReleaseTarget(heap, target, format);
    InstallReferences(h1, format, transparent, interlaced, quality);
    ApplySplits(heap, target, format, transparent, interlaced, quality);
  }

  /** Applying the target's own format when the target holds its last
      reference: the count drops to 0, so no clone is made; the format is
      edited in place, re-targeted and counted, and then freed, so
      `*target` is left pointing at a freed format. */
  lemma ApplyToSelfDangles(heap: seq<Format>, format: nat,
                           transparent: int, interlaced: int, quality: int)
    requires format < |heap| && heap[format].refcount <= 1
    ensures var r := ApplyOutputFormat(heap, Some(format), Some(format), transparent, interlaced, quality);
      r.target == Some(format) && !r.heap[format].live
  {
    var h1 := Release(heap, Some(format));
    ReleaseTarget(heap, Some(format), format);
    InstallReferences(h1, format, transparent, interlaced, quality);
    ApplySplits(heap, Some(format), format, transparent, interlaced, quality);
  }

  /** With no new format the target only gives up its reference; it is
      cleared when that was the last one and kept otherwise. */
  lemma ApplyNothing(heap: seq<Format>, target: nat,
                     transparent: int, interlaced: int, quality: int)
    requires target < |heap|
    ensures var r := ApplyOutputFormat(heap, Some(target), None, transparent, interlaced, quality);
      && r.heap[target].refcount == heap[target].refcount - 1
      && (heap[target].refcount < 2 ==> r.target.None? && !r.heap[target].live)
      && (heap[target].refcount >= 2 ==> r.target == Some(target) && r.heap[target].live == heap[target].live)
  {
  }
}
