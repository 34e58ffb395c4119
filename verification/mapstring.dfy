/** The string utilities of mapstring.c: bounded concatenation (`strlcat`),
    substring replacement (`gsub`), path handling, tokenising (`split`) and
    joining, URL and HTML-entity encoding, and the 16-byte string hash. */
module MapString {
  import opened Wrappers
  import opened CStrings

  /** MS_MAXPATHLEN of map.h. */
  const MaxPathLen: nat := 1024

  /** The unsigned byte a C `char` holds. */
  function Byte(c: char): nat { (c as int) % 256 }

  // ---------------------------------------------------------------------
  // strlcat
  // ---------------------------------------------------------------------

  /** `strlcat(dst, src, siz)` where `dst` holds the C string `dst` (its
      characters before the NUL) and the buffer has `siz` bytes. `text` is the
      C string the buffer holds afterwards and `ret` the returned length. When
      `siz <= strlen(dst)` nothing is written. */
  method Strlcat(dst: string, src: string, siz: nat) returns (text: string, ret: nat)
    ensures text == StrlcatText(dst, src, siz)
    ensures ret == |src| + (if siz < |dst| then siz else |dst|)
    ensures siz <= |dst| ==> text == dst
    ensures siz > |dst| ==> |dst| <= |text| < siz && |text| <= |dst| + |src| && text == dst + src[..|text| - |dst|]
    ensures siz > |dst| ==> (ret >= siz <==> text != dst + src)
  {
    var dlen := if siz < |dst| then siz else |dst|;
    var n := siz - dlen;
    if n == 0 {
      return dst, dlen + |src|;
    }
    text := dst;
    var s := 0;
    while s < |src|
      invariant 0 <= s <= |src|
      invariant 1 <= n <= siz - |dst|
      invariant |text| == siz - n
      invariant |dst| <= |text| <= |dst| + s
      invariant text == dst + src[..|text| - |dst|]
      invariant n > 1 ==> |text| == |dst| + s
    {
      if n != 1 {
        text := text + [src[s]];
        n := n - 1;
      }
      s := s + 1;
    }
    ret := dlen + |src|;
  }

  /** The text `strlcat` leaves in a buffer of `siz` bytes: the
      concatenation cut to `siz - 1` characters, or `dst` untouched when it
      already fills the buffer. */
  function StrlcatText(dst: string, src: string, siz: nat): (r: string)
  {
    if siz <= |dst| then dst
    else if |dst| + |src| < siz then dst + src
    else (dst + src)[..siz - 1]
  }

  // ---------------------------------------------------------------------
  // gsub
  // ---------------------------------------------------------------------

  /** `gsub(str, old, new)`: every occurrence of `old`, found left to right,
      is replaced by `new`, and the search resumes after the inserted text.
      An empty `old` makes the C loop run forever, hence the precondition. */
  function Gsub(s: string, pat: string, rep: string): (r: string)
    requires |pat| > 0
    decreases |s|
  {
    match Find(s, pat)
    case None => s
    case Some(i) => s[..i] + rep + Gsub(s[i + |pat|..], pat, rep)
  }

  /** The pieces of `s` between the occurrences that a left-to-right scan
      for `pat` meets; the last piece holds no occurrence. */
  function Pieces(s: string, pat: string): (p: seq<string>)
    requires |pat| > 0
    ensures |p| >= 1
    decreases |s|
  {
    match Find(s, pat)
    case None => [s]
    case Some(i) => [s[..i]] + Pieces(s[i + |pat|..], pat)
  }

  /** Every piece but the last is followed by `pat`, and `pat` first occurs
      in `piece + pat` right after the piece: the scan never skips a match. */
  ghost predicate LeftmostPieces(p: seq<string>, pat: string) {
    forall k :: 0 <= k < |p| - 1 ==> Find(p[k] + pat, pat) == Some(|p[k]|)
  }

  lemma {:induction false} PiecesAreLeftmost(s: string, pat: string)
    requires |pat| > 0
    ensures LeftmostPieces(Pieces(s, pat), pat)
    decreases |s|
  {
    if Find(s, pat).Some? {
      var i := Find(s, pat).value;
      var rest := s[i + |pat|..];
      PiecesAreLeftmost(rest, pat);
      var t := s[..i] + pat;
      OccurrenceSplits(s, pat, i);
      assert s[..i + |pat|] == t;
      FindIsFirst(s, pat);
      forall j | 0 <= j < i
        ensures OccursAt(t, pat, j) ==> OccursAt(s, pat, j)
      {
        if j + |pat| <= |t| {
          assert s[j..j + |pat|] == t[j..j + |pat|];
        }
      }
      assert OccursAt(t, pat, i);
      FindAt(t, pat, i);
      var p := Pieces(s, pat);
      assert p == [s[..i]] + Pieces(rest, pat);
      forall k | 0 <= k < |p| - 1
        ensures Find(p[k] + pat, pat) == Some(|p[k]|)
      {
        if k > 0 {
          assert p[k] == Pieces(rest, pat)[k - 1];
        }
      }
    }
  }

  /** Joining the pieces with `pat` gives back the input. */
  lemma {:induction false} PiecesRebuild(s: string, pat: string)
    requires |pat| > 0
    ensures JoinWith(Pieces(s, pat), pat) == s
    decreases |s|
  {
    if Find(s, pat).Some? {
      var i := Find(s, pat).value;
      var rest := s[i + |pat|..];
      assert Pieces(s, pat) == [s[..i]] + Pieces(rest, pat);
      calc {
        JoinWith(Pieces(s, pat), pat);
        == { JoinCons(s[..i], Pieces(rest, pat), pat); }
        s[..i] + pat + JoinWith(Pieces(rest, pat), pat);
        == { PiecesRebuild(rest, pat); }
        s[..i] + pat + rest;
        == { OccurrenceSplits(s, pat, i); }
        s;
      }
    }
  }

  /** gsub is the same pieces joined with `rep`. */
  lemma {:induction false} GsubJoinsPieces(s: string, pat: string, rep: string)
    requires |pat| > 0
    ensures Gsub(s, pat, rep) == JoinWith(Pieces(s, pat), rep)
    decreases |s|
  {
    if Find(s, pat).Some? {
      var i := Find(s, pat).value;
      var rest := s[i + |pat|..];
      GsubJoinsPieces(rest, pat, rep);
      assert Pieces(s, pat) == [s[..i]] + Pieces(rest, pat);
      JoinCons(s[..i], Pieces(rest, pat), rep);
    }
  }

  /** Number of replacements gsub performs. */
  function Replacements(s: string, pat: string): nat
    requires |pat| > 0
  {
    |Pieces(s, pat)| - 1
  }

  lemma MulSucc(k: nat, d: int)
    ensures (k + 1) * d == k * d + d
  {
  }

  /** Each replacement changes the length by `|rep| - |pat|`. */
  lemma {:induction false} GsubLength(s: string, pat: string, rep: string)
    requires |pat| > 0
    ensures |Gsub(s, pat, rep)| == |s| + Replacements(s, pat) * (|rep| - |pat|)
    decreases |s|
  {
    if Find(s, pat).Some? {
      var i := Find(s, pat).value;
      var rest := s[i + |pat|..];
      GsubLength(rest, pat, rep);
      assert Pieces(s, pat) == [s[..i]] + Pieces(rest, pat);
      OccurrenceSplits(s, pat, i);
      assert |s| == i + |pat| + |rest|;
      assert |Gsub(s, pat, rep)| == i + |rep| + |Gsub(rest, pat, rep)|;
      assert Replacements(s, pat) == Replacements(rest, pat) + 1;
      MulSucc(Replacements(rest, pat), |rep| - |pat|);
    }
  }

  /** Replacing a string by itself is the identity. */
  lemma GsubSelf(s: string, pat: string)
    requires |pat| > 0
    ensures Gsub(s, pat, pat) == s
  {
    GsubJoinsPieces(s, pat, pat);
    PiecesRebuild(s, pat);
  }

  // ---------------------------------------------------------------------
  // Paths
  // ---------------------------------------------------------------------

  predicate IsSeparator(c: char) { c == '/' || c == '\\' }

  /** `stripPath(fn)`: the text after the last '/', or `fn` itself. */
  function StripPath(fn: string): (r: string)
    ensures '/' !in r
    ensures |r| <= |fn| && r == fn[|fn| - |r|..]
    ensures '/' in fn ==> fn[|fn| - |r| - 1] == '/'
    ensures '/' !in fn ==> r == fn
  {
    match LastIndexOfChar(fn, '/')
    case None => fn
    case Some(i) => fn[i + 1..]
  }

  /** Index of the last '/' or '\\' of `s`. */
  function LastSeparator(s: string): (r: Option<nat>)
    ensures r.Some? ==> r.value < |s| && IsSeparator(s[r.value])
    ensures r.Some? ==> forall j :: r.value < j < |s| ==> !IsSeparator(s[j])
    ensures r.None? ==> forall j :: 0 <= j < |s| ==> !IsSeparator(s[j])
  {
    if |s| == 0 then None
    else if IsSeparator(s[|s| - 1]) then Some(|s| - 1)
    else LastSeparator(s[..|s| - 1])
  }

  /** `getPath(fn)` on a non-Windows build: `fn` up to and including its last
      separator, or "./" when that prefix would be `fn` itself (no separator,
      or a separator as the last character). */
  function GetPath(fn: string): (r: string)
    ensures LastSeparator(fn).None? ==> r == "./"
    ensures LastSeparator(fn).Some? && LastSeparator(fn).value == |fn| - 1 ==> r == "./"
    ensures LastSeparator(fn).Some? && LastSeparator(fn).value < |fn| - 1 ==>
              1 <= |r| < |fn| && r == fn[..|r|] && IsSeparator(r[|r| - 1])
              && forall j :: |r| <= j < |fn| ==> !IsSeparator(fn[j])
  {
    match LastSeparator(fn)
    case None => "./"
    case Some(i) => if fn[..i + 1] == fn then "./" else fn[..i + 1]
  }

  /** Without backslashes the last separator is the last '/'. */
  lemma {:induction false} LastSeparatorIsLastSlash(s: string)
    requires '\\' !in s
    ensures LastSeparator(s) == LastIndexOfChar(s, '/')
    decreases |s|
  {
    if |s| > 0 {
      assert s[|s| - 1] in s;
      assert forall c :: c in s[..|s| - 1] ==> c in s;
      LastSeparatorIsLastSlash(s[..|s| - 1]);
    }
  }

  /** For a Unix path with a directory part, directory + file name is the path. */
  lemma PathSplits(fn: string)
    requires '\\' !in fn && '/' in fn && fn[|fn| - 1] != '/'
    ensures GetPath(fn) + StripPath(fn) == fn
  {
    LastSeparatorIsLastSlash(fn);
    var i := LastIndexOfChar(fn, '/').value;
    assert fn[..i + 1] + fn[i + 1..] == fn;
  }

  /** The file name of `x + y` is that of `y` when `y` has a '/'. */
  lemma StripPathAppend(x: string, y: string)
    requires '/' in y
    ensures StripPath(x + y) == StripPath(y)
  {
    LastIndexOfCharAppend(x, y, '/');
    var i := LastIndexOfChar(y, '/').value;
    assert (x + y)[|x| + i + 1..] == y[i + 1..];
  }

  /** The file name of `x + "/" + y` is `y` when `y` has no '/'. */
  lemma StripPathAfterSlash(x: string, y: string)
    requires '/' !in y
    ensures StripPath(x + "/" + y) == y
  {
    LastIndexOfCharAppend(x + "/", y, '/');
    LastIndexOfCharAppend(x, "/", '/');
    assert (x + "/" + y)[|x| + 1..] == y;
  }

  datatype PathError = NullPath | PathTooLong

  /** `msBuildPath(buf, abs_path, path)`; `None` stands for a NULL pointer. */
  function BuildPath(absPath: Option<string>, path: Option<string>): (r: Result<string, PathError>)
    ensures path.None? <==> r == Failure(NullPath)
    ensures path.Some? ==>
              (|path.value| + |absPath.GetOr([])| + 2 > MaxPathLen <==> r == Failure(PathTooLong))
    ensures r.Success? ==> |r.value| < MaxPathLen
    ensures r.Success? && path.Some? && absPath.Some? && |absPath.value| > 0
            && !(|path.value| > 0 && IsSeparator(path.value[0]))
            && !(|path.value| > 1 && path.value[1] == ':') ==>
              r.value == absPath.value + (if IsSeparator(absPath.value[|absPath.value| - 1]) then "" else "/") + path.value
    ensures r.Success? && path.Some? && (absPath.None? || |absPath.value| == 0
            || (|path.value| > 0 && IsSeparator(path.value[0]))
            || (|path.value| > 1 && path.value[1] == ':')) ==>
              r.value == path.value
  {
    if path.None? then Failure(NullPath)
    else
      var p := path.value;
      var a := absPath.GetOr([]);
      if |p| + |a| + 2 > MaxPathLen then Failure(PathTooLong)
      else if absPath.None? || |a| == 0 || (|p| > 0 && IsSeparator(p[0])) || (|p| > 1 && p[1] == ':') then
        Success(p)
      else if IsSeparator(a[|a| - 1]) then Success(a + p)
      else Success(a + "/" + p)
  }

  /** `msBuildPath3(buf, abs_path, path1, path2)`: `path2` qualified by
      `path1`, then by `abs_path`. The inner call's failure propagates as a
      NULL path. */
  function BuildPath3(absPath: Option<string>, path1: Option<string>, path2: Option<string>): (r: Result<string, PathError>)
    ensures path2.None? ==> r == Failure(NullPath)
    ensures r.Success? ==> BuildPath(path1, path2).Success?
                           && r == BuildPath(absPath, Some(BuildPath(path1, path2).value))
  {
    match BuildPath(path1, path2)
    case Failure(_) => BuildPath(absPath, None)
    case Success(p) => BuildPath(absPath, Some(p))
  }

  /** Building a path keeps its file name. */
  lemma BuildPathKeepsFileName(absPath: Option<string>, path: string)
    requires BuildPath(absPath, Some(path)).Success?
    requires '/' in path || absPath.None? || |absPath.value| == 0 || absPath.value[|absPath.value| - 1] != '\\'
    ensures StripPath(BuildPath(absPath, Some(path)).value) == StripPath(path)
  {
    var r := BuildPath(absPath, Some(path)).value;
    var a := absPath.GetOr([]);
    if absPath.None? || |a| == 0 || (|path| > 0 && IsSeparator(path[0])) || (|path| > 1 && path[1] == ':') {
      assert r == path;
    } else if IsSeparator(a[|a| - 1]) {
      assert r == a + path;
      if '/' in path {
        StripPathAppend(a, path);
      } else {
        assert a == a[..|a| - 1] + "/";
        StripPathAfterSlash(a[..|a| - 1], path);
      }
    } else {
      assert r == a + "/" + path;
      if '/' in path {
        StripPathAppend(a + "/", path);
      } else {
        StripPathAfterSlash(a, path);
      }
    }
  }

  // ---------------------------------------------------------------------
  // split and msJoinStrings
  // ---------------------------------------------------------------------

  /** `s` with its leading run of `c` removed. */
  function DropRun(s: string, c: char): (r: string)
    ensures |r| <= |s|
  {
    if |s| > 0 && s[0] == c then DropRun(s[1..], c) else s
  }

  /** `split(string, ch, &n)`: the tokens between maximal runs of `ch`.
      Runs collapse; a leading or trailing run yields an empty first or
      last token. */
  function Split(s: string, c: char): (r: seq<string>)
    ensures |r| >= 1
    decreases |s|
  {
    match IndexOfChar(s, c)
    case None => [s]
    case Some(i) => [s[..i]] + Split(DropRun(s[i..], c), c)
  }

  /** No token of split holds the delimiter. */
  lemma {:induction false} SplitTokensFree(s: string, c: char)
    ensures forall k :: 0 <= k < |Split(s, c)| ==> c !in Split(s, c)[k]
    decreases |s|
  {
    if IndexOfChar(s, c).Some? {
      var i := IndexOfChar(s, c).value;
      var t := DropRun(s[i..], c);
      SplitTokensFree(t, c);
      assert Split(s, c) == [s[..i]] + Split(t, c);
      assert c !in s[..i];
    }
  }

  /** The number of maximal runs of `c` in `s`, counted independently of split. */
  function RunCount(s: string, c: char): nat
    decreases |s|
  {
    if |s| == 0 then 0
    else if s[0] != c then RunCount(s[1..], c)
    else 1 + RunCount(DropRun(s, c), c)
  }

  lemma {:induction false} RunCountSkips(s: string, c: char, i: nat)
    requires i <= |s| && c !in s[..i]
    ensures RunCount(s, c) == RunCount(s[i..], c)
    decreases i
  {
    if i > 0 {
      assert s[0] == s[..i][0];
      assert s[1..][..i - 1] == s[..i][1..];
      RunCountSkips(s[1..], c, i - 1);
      assert s[1..][i - 1..] == s[i..];
    }
  }

  /** split yields one token more than there are runs of the delimiter. */
  lemma {:induction false} SplitCount(s: string, c: char)
    ensures |Split(s, c)| == 1 + RunCount(s, c)
    decreases |s|
  {
    match IndexOfChar(s, c)
    case None =>
      RunCountSkips(s, c, |s|);
    case Some(i) =>
      var t := DropRun(s[i..], c);
      SplitCount(t, c);
      RunCountSkips(s, c, i);
      assert RunCount(s[i..], c) == 1 + RunCount(t, c);
  }

  /** Splitting is undone by joining with the delimiter when no run of the
      input is longer than one character. */
  lemma {:induction false} JoinSplit(s: string, c: char)
    requires forall i :: 0 <= i < |s| - 1 ==> !(s[i] == c && s[i + 1] == c)
    ensures JoinWith(Split(s, c), [c]) == s
    decreases |s|
  {
    if IndexOfChar(s, c).Some? {
      var i := IndexOfChar(s, c).value;
      var t := s[i + 1..];
      assert DropRun(s[i..], c) == t by {
        assert s[i..][1..] == t;
        if |t| > 0 { assert t[0] == s[i + 1]; }
      }
      assert Split(s, c) == [s[..i]] + Split(t, c);
      forall j | 0 <= j < |t| - 1
        ensures !(t[j] == c && t[j + 1] == c)
      {
        assert t[j] == s[i + 1 + j] && t[j + 1] == s[i + 1 + j + 1];
      }
      JoinSplit(t, c);
      JoinCons(s[..i], Split(t, c), [c]);
      assert s == s[..i] + [c] + t;
    }
  }

  /** `msJoinStrings(array, n, delimiter)`; `None` stands for NULL. */
  function JoinStrings(a: Option<seq<string>>, delimiter: Option<string>): (r: Option<string>)
    ensures r.None? <==> a.None? || |a.value| == 0 || delimiter.None?
    ensures r.Some? ==> r.value == JoinWith(a.value, delimiter.value)
  {
    if a.None? || |a.value| == 0 || delimiter.None? then None
    else Some(JoinWith(a.value, delimiter.value))
  }

  /** The joined text never ends with a delimiter that no element put there. */
  lemma {:induction false} JoinNoTrailingDelimiter(a: seq<string>, d: string)
    requires |a| >= 1
    ensures |JoinWith(a, d)| >= |a[|a| - 1]|
    ensures JoinWith(a, d)[|JoinWith(a, d)| - |a[|a| - 1]|..] == a[|a| - 1]
    decreases |a|
  {
    if |a| > 1 {
      JoinNoTrailingDelimiter(a[1..], d);
    }
  }

  /** One delimiter after a delimiter-free token cuts off exactly that token. */
  lemma SplitAt(x: string, t: string, c: char)
    requires forall j :: 0 <= j < |x| ==> x[j] != c
    requires |t| == 0 || t[0] != c
    ensures Split(x + [c] + t, c) == [x] + Split(t, c)
  {
    var s := x + [c] + t;
    assert IndexOfChar(s, c) == Some(|x|) by {
      assert s == x + ([c] + t);
      assert IndexOfChar([c] + t, c) == Some(0);
      IndexOfCharAfter(x, [c] + t, c);
    }
    assert s[..|x|] == x;
    assert DropRun(s[|x|..], c) == t by {
      assert s[|x|..] == [c] + t;
      assert ([c] + t)[1..] == t;
      assert DropRun(t, c) == t;
    }
  }

  /** The joined text starts with the first element. */
  lemma JoinWithHead(a: seq<string>, d: string)
    requires |a| >= 1
    ensures |JoinWith(a, d)| >= |a[0]| && JoinWith(a, d)[..|a[0]|] == a[0]
  {
  }

  /** split undoes msJoinStrings with a one-character delimiter, for elements
      free of the delimiter whose inner elements are not empty. */
  lemma {:induction false} SplitJoin(a: seq<string>, c: char)
    requires |a| >= 1
    requires forall k :: 0 <= k < |a| ==> c !in a[k]
    requires forall k :: 0 < k < |a| - 1 ==> |a[k]| > 0
    ensures Split(JoinWith(a, [c]), c) == a
    decreases |a|
  {
    if |a| == 1 {
      assert IndexOfChar(a[0], c).None?;
    } else {
      var tail := JoinWith(a[1..], [c]);
      assert JoinWith(a, [c]) == a[0] + [c] + tail;
      assert |tail| == 0 || tail[0] != c by {
        JoinWithHead(a[1..], [c]);
        if |a[1]| > 0 {
          assert tail[0] == a[1][0];
          assert a[1][0] in a[1];
        } else {
          assert |a| == 2 && tail == a[1];
        }
      }
      assert c !in a[0];
      SplitAt(a[0], tail, c);
      assert Split(tail, c) == a[1..] by {
        SplitJoin(a[1..], c);
      }
    }
  }

  // ---------------------------------------------------------------------
  // msEncodeUrl
  // ---------------------------------------------------------------------

  /** Upper-case hexadecimal digit of `v`. */
  function HexUpper(v: nat): (c: char)
    requires v < 16
    ensures IsHexDigit(c) && HexDigitValue(c) == v && !IsLowerCase(c)
  {
    if v < 10 then ('0' as int + v) as char else ('A' as int + v - 10) as char
  }

  /** Lower-case hexadecimal digit of `v` (`%x`). */
  function HexLower(v: nat): (c: char)
    requires v < 16
    ensures IsHexDigit(c) && HexDigitValue(c) == v && !IsUpper(c)
  {
    if v < 10 then ('0' as int + v) as char else ('a' as int + v - 10) as char
  }

  /** The encoding of one character: kept, '+', or "%XY". */
  function UrlEscape(c: char): string {
    if c == ' ' then "+"
    else if !IsAlnum(c) then ['%', HexUpper(Byte(c) / 16), HexUpper(Byte(c) % 16)]
    else [c]
  }

  /** `msEncodeUrl(data)`. Letters and digits are kept, a space becomes '+'
      and every other byte becomes '%' and two upper-case hex digits. */
  function EncodeUrl(s: string): (r: string)
    ensures forall i :: 0 <= i < |r| ==> IsAlnum(r[i]) || r[i] == '+' || r[i] == '%'
    ensures |r| >= |s|
  {
    if |s| == 0 then []
    else UrlEscape(s[0]) + EncodeUrl(s[1..])
  }

  // ---------------------------------------------------------------------
  // HTML entities
  // ---------------------------------------------------------------------

  /** The entity msEncodeHTMLEntities writes for `c`, if any. */
  function EntityOf(c: char): Option<string> {
    if c == '&' then Some("&amp;")
    else if c == '<' then Some("&lt;")
    else if c == '>' then Some("&gt;")
    else if c == '"' then Some("&quot;")
    else if c == '\'' then Some("&apos;")
    else None
  }

  /** `msEncodeHTMLEntities(string)`. */
  function EncodeHtmlEntities(s: string): (r: string)
    ensures forall i :: 0 <= i < |r| ==> r[i] != '<' && r[i] != '>' && r[i] != '"' && r[i] != '\''
    ensures (forall i :: 0 <= i < |s| ==> EntityOf(s[i]).None?) ==> r == s
  {
    if |s| == 0 then []
    else
      match EntityOf(s[0])
      case Some(e) => e + EncodeHtmlEntities(s[1..])
      case None => [s[0]] + EncodeHtmlEntities(s[1..])
  }

  /** The character an "&...;" token stands for, compared case-insensitively
      (every entity name is lower case, so `strcasecmp` against it is
      equality after `tolower`). */
  function EntityChar(tok: string): (r: Option<char>)
    ensures r.Some? ==> EntityOf(r.value).Some? && LowerAll(tok) == EntityOf(r.value).value
  {
    var t := LowerAll(tok);
    if t == "&amp;" then Some('&')
    else if t == "&lt;" then Some('<')
    else if t == "&gt;" then Some('>')
    else if t == "&quot;" then Some('"')
    else if t == "&apos;" then Some('\'')
    else None
  }

  /** One pass of the decoding loop at the '&' at `amp`: `None` when no ';'
      follows (the loop stops), otherwise the buffer after replacing the
      "&...;" token when it is one of the five entities. */
  function DecodeStep(s: string, amp: nat): (r: Option<string>)
    requires amp < |s|
    ensures r.Some? ==> amp < |r.value| <= |s|
  {
    match IndexOfChar(s[amp..], ';')
    case None => None
    case Some(m) =>
      var semi := amp + m;
      match EntityChar(s[amp..semi + 1])
      case Some(ch) => Some(s[..amp] + [ch] + s[semi + 1..])
      case None => Some(s)
  }

  /** The decoding loop of msDecodeHTMLEntities from position `from`: move to
      the next '&' (the `strchr`), stop if no ';' follows it, replace "&...;"
      when it is one of the five entities, and resume one character after the
      '&'. */
  function DecodeFrom(s: string, from: nat): (r: string)
    ensures |r| <= |s|
    decreases |s| - from
  {
    if from >= |s| then s
    else if s[from] != '&' then DecodeFrom(s, from + 1)
    else match DecodeStep(s, from)
      case None => s
      case Some(next) => DecodeFrom(next, from + 1)
  }

  /** With no '&' from `from` on, decoding changes nothing. */
  lemma {:induction false} DecodeWithoutAmp(s: string, from: nat)
    requires forall j :: from <= j < |s| ==> s[j] != '&'
    ensures DecodeFrom(s, from) == s
    decreases |s| - from
  {
    if from < |s| {
      DecodeWithoutAmp(s, from + 1);
    }
  }

  /** `msDecodeHTMLEntities(string)`, in place. */
  function DecodeHtmlEntities(s: string): (r: string)
    ensures |r| <= |s|
  {
    DecodeFrom(s, 0)
  }

  /** Text without '&' decodes to itself. */
  lemma DecodeWithoutEntities(s: string)
    requires '&' !in s
    ensures DecodeHtmlEntities(s) == s
  {
    DecodeWithoutAmp(s, 0);
  }

  /** Each entity the encoder writes is recognised as its character. */
  lemma EntityCharOfEntity(c: char)
    requires EntityOf(c).Some?
    ensures EntityChar(EntityOf(c).value) == Some(c)
  {
    if c == '&' {
      LowerAllOfLower("&amp;");
    } else if c == '<' {
      LowerAllOfLower("&lt;");
    } else if c == '>' {
      LowerAllOfLower("&gt;");
    } else if c == '"' {
      LowerAllOfLower("&quot;");
    } else {
      LowerAllOfLower("&apos;");
    }
  }

  /** An encoded entity is decoded back to its character. */
  lemma DecodeEntityStep(prefix: string, c: char, rest: string)
    requires EntityOf(c).Some?
    ensures DecodeStep(prefix + EntityOf(c).value + rest, |prefix|) == Some(prefix + [c] + rest)
  {
    var e := EntityOf(c).value;
    var s := prefix + e + rest;
    assert s[|prefix|..] == e + rest;
    var body := e[..|e| - 1];
    assert ';' !in body;
    assert e + rest == body + ([';'] + rest);
    IndexOfCharAfter(body, [';'] + rest, ';');
    assert s[|prefix|..|prefix| + |e|] == e;
    EntityCharOfEntity(c);
    assert s[..|prefix|] == prefix;
    assert s[|prefix| + |e|..] == rest;
  }

  /** An entity the encoder wrote is decoded, and decoding resumes after it. */
  lemma DecodeEntity(prefix: string, c: char, rest: string)
    requires EntityOf(c).Some?
    ensures DecodeFrom(prefix + EntityOf(c).value + rest, |prefix|) == DecodeFrom(prefix + [c] + rest, |prefix| + 1)
  {
    var s := prefix + EntityOf(c).value + rest;
    assert s[|prefix|] == '&';
    DecodeEntityStep(prefix, c, rest);
  }

  lemma {:induction false} DecodeEncoded(prefix: string, t: string)
    ensures DecodeFrom(prefix + EncodeHtmlEntities(t), |prefix|) == prefix + t
    decreases |t|
  {
    if |t| == 0 {
      assert prefix + EncodeHtmlEntities(t) == prefix;
    } else {
      var rest := EncodeHtmlEntities(t[1..]);
      var p1 := prefix + [t[0]];
      assert p1 + t[1..] == prefix + t;
      assert prefix + [t[0]] + rest == p1 + rest;
      if EntityOf(t[0]).None? {
        assert prefix + EncodeHtmlEntities(t) == prefix + [t[0]] + rest;
        assert (prefix + [t[0]] + rest)[|prefix|] == t[0];
      } else {
        assert prefix + EncodeHtmlEntities(t) == prefix + EntityOf(t[0]).value + rest;
        DecodeEntity(prefix, t[0], rest);
      }
      DecodeEncoded(p1, t[1..]);
    }
  }

  /** Decoding undoes encoding. */
  lemma HtmlEntitiesRoundTrip(s: string)
    ensures DecodeHtmlEntities(EncodeHtmlEntities(s)) == s
  {
    var e := EncodeHtmlEntities(s);
    assert [] + e == e;
    assert [] + s == s;
    DecodeEncoded([], s);
  }

  // ---------------------------------------------------------------------
  // strcatalloc
  // ---------------------------------------------------------------------

  /** `strcatalloc(dest, src)`; `None` stands for NULL. */
  function StrCatAlloc(dest: Option<string>, src: Option<string>): (r: Option<string>)
    ensures src.None? ==> r == dest
    ensures src.Some? ==> r == Some(dest.GetOr([]) + src.value)
  {
    if src.None? then dest
    else if dest.None? then
      assert [] + src.value == src.value;
      Some(src.value)
    else Some(dest.value + src.value)
  }

  // ---------------------------------------------------------------------
  // msHashString
  // ---------------------------------------------------------------------

  const HashSize: nat := 16

  /** Sum of the bytes of `s` at positions congruent to `k` modulo 16. */
  function ResidueSum(s: string, k: nat): nat
  {
    if |s| == 0 then 0
    else ResidueSum(s[..|s| - 1], k) + (if (|s| - 1) % HashSize == k then Byte(s[|s| - 1]) else 0)
  }

  /** The byte that hex digits `r[2k]`, `r[2k+1]` spell. */
  function HexByteAt(r: string, k: nat): nat
    requires 2 * k + 1 < |r| && IsHexDigit(r[2 * k]) && IsHexDigit(r[2 * k + 1])
  {
    16 * HexDigitValue(r[2 * k]) + HexDigitValue(r[2 * k + 1])
  }

  /** `msHashString(s)`: 32 lower-case hex digits; byte k is the sum, modulo
      256, of the input bytes at positions congruent to k modulo 16. A NULL
      input hashes like the empty string. */
  method HashString(s: string) returns (r: string)
    ensures |r| == 2 * HashSize
    ensures forall i :: 0 <= i < |r| ==> IsHexDigit(r[i]) && !IsUpper(r[i])
    ensures forall k :: 0 <= k < HashSize ==> HexByteAt(r, k) == ResidueSum(s, k) % 256
  {
    var sums := ResidueSums(s);
    r := HexPairs(sums);
  }

  /** One more byte adds to the sum of its own residue only. */
  lemma ResidueSumStep(s: string, i: nat, k: nat)
    requires i < |s|
    ensures ResidueSum(s[..i + 1], k) == ResidueSum(s[..i], k) + (if i % HashSize == k then Byte(s[i]) else 0)
  {
    assert s[..i + 1][..i] == s[..i];
  }

  /** The first loop of msHashString: the sixteen byte sums, modulo 256. */
  method ResidueSums(s: string) returns (sums: seq<nat>)
    ensures |sums| == HashSize
    ensures forall k :: 0 <= k < HashSize ==> sums[k] == ResidueSum(s, k) % 256
  {
    sums := seq(HashSize, _ => 0);
    var i := 0;
    while i < |s|
      invariant 0 <= i <= |s|
      invariant |sums| == HashSize
      invariant forall k :: 0 <= k < HashSize ==> sums[k] == ResidueSum(s[..i], k) % 256
    {
      var sums' := sums[i % HashSize := (sums[i % HashSize] + Byte(s[i])) % 256];
      forall k | 0 <= k < HashSize
        ensures sums'[k] == ResidueSum(s[..i + 1], k) % 256
      {
        ResidueSumStep(s, i, k);
      }
      sums := sums';
      i := i + 1;
    }
    assert s[..|s|] == s;
  }

  /** The second loop of msHashString: each sum as two lower-case hex digits. */
  method HexPairs(sums: seq<nat>) returns (r: string)
    requires |sums| == HashSize && forall k :: 0 <= k < HashSize ==> sums[k] < 256
    ensures |r| == 2 * HashSize
    ensures forall i :: 0 <= i < |r| ==> IsHexDigit(r[i]) && !IsUpper(r[i])
    ensures forall k :: 0 <= k < HashSize ==> HexByteAt(r, k) == sums[k]
  {
    r := [];
    var k := 0;
    while k < HashSize
      invariant 0 <= k <= HashSize
      invariant |r| == 2 * k
      invariant forall j :: 0 <= j < |r| ==> IsHexDigit(r[j]) && !IsUpper(r[j])
      invariant forall j :: 0 <= j < k ==> HexByteAt(r, j) == sums[j]
    {
      r := r + [HexLower(sums[k] / 16), HexLower(sums[k] % 16)];
      k := k + 1;
    }
  }
}
