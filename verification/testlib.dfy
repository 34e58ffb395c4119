/** The normalisation passes and directive parsing of the autotest library
    (`mstestlib.py`). Files are byte strings held as `string`; reading and
    writing them, running commands and comparing results are outside the
    model, so every pass is a function from the old contents to the new. */
module TestLib {
  import opened Wrappers
  import opened CStrings

  // ---------------------------------------------------------------------
  // Python's `str.replace`
  // ---------------------------------------------------------------------

  /** `s.replace(pat, rep)`: scanning left to right, each occurrence of
      `pat` that starts after the previous replacement is replaced. */
  function Replace(s: string, pat: string, rep: string): string
    requires |pat| > 0
    decreases |s|
  {
    if |s| == 0 then []
    else if StartsWith(s, pat) then rep + Replace(s[|pat|..], pat, rep)
    else [s[0]] + Replace(s[1..], pat, rep)
  }

  /** Text that never holds the pattern's first character is left alone. */
  lemma {:induction false} ReplaceWithoutHead(s: string, pat: string, rep: string)
    requires |pat| > 0
    requires forall j :: 0 <= j < |s| ==> s[j] != pat[0]
    ensures Replace(s, pat, rep) == s
    decreases |s|
  {
    if |s| > 0 {
      assert !StartsWith(s, pat) by {
        assert s[0] != pat[0];
      }
      ReplaceWithoutHead(s[1..], pat, rep);
      assert s == [s[0]] + s[1..];
    }
  }

  /** A prefix that never holds the pattern's first character is copied. */
  lemma {:induction false} ReplaceAfterFree(x: string, y: string, pat: string, rep: string)
    requires |pat| > 0
    requires forall j :: 0 <= j < |x| ==> x[j] != pat[0]
    ensures Replace(x + y, pat, rep) == x + Replace(y, pat, rep)
    decreases |x|
  {
    if |x| > 0 {
      assert !StartsWith(x + y, pat) by {
        assert (x + y)[0] == x[0];
      }
      assert (x + y)[1..] == x[1..] + y;
      ReplaceAfterFree(x[1..], y, pat, rep);
      assert x == [x[0]] + x[1..];
    } else {
      assert x + y == y;
    }
  }

  /** An occurrence at the front is replaced. */
  lemma ReplaceFront(pat: string, y: string, rep: string)
    requires |pat| > 0
    ensures Replace(pat + y, pat, rep) == rep + Replace(y, pat, rep)
  {
    assert StartsWith(pat + y, pat) by {
      assert (pat + y)[..|pat|] == pat;
    }
    assert (pat + y)[|pat|..] == y;
  }

  /** A prefix of `s` that `s` starts with is made of `s`'s characters. */
  lemma StartsCovers(s: string, pat: string, k: nat)
    requires k < |s|
    ensures StartsWith(s, pat) && k < |pat| ==> s[k] == pat[k]
  {
    if StartsWith(s, pat) && k < |pat| {
      assert s[..|pat|][k] == s[k];
    }
  }

  /** Whether `x + z` starts with a pattern no longer than `x` depends on `x` alone. */
  lemma StartsWithLonger(x: string, z: string, pat: string)
    requires |pat| <= |x|
    ensures StartsWith(x + z, pat) == StartsWith(x, pat)
  {
    assert (x + z)[..|pat|] == x[..|pat|];
  }

  lemma DropAppend(x: string, z: string, n: nat)
    requires n <= |x|
    ensures (x + z)[n..] == x[n..] + z
  {
  }

  /** One step of `Replace` on `x + z` that stays inside `x`. */
  lemma {:induction false} ReplaceStepLeft(x: string, z: string, pat: string, rep: string)
    requires |pat| > 0 && |x| > 0
    requires StartsWith(x + z, pat) ==> |pat| <= |x|
    ensures StartsWith(x, pat) ==>
      Replace(x + z, pat, rep) == rep + Replace(x[|pat|..] + z, pat, rep)
    ensures !StartsWith(x, pat) ==>
      Replace(x + z, pat, rep) == [x[0]] + Replace(x[1..] + z, pat, rep)
  {
    if |pat| <= |x| {
      StartsWithLonger(x, z, pat);
      DropAppend(x, z, |pat|);
    }
    DropAppend(x, z, 1);
  }

  /** A pattern without `c` is replaced independently on each side of a `c`. */
  lemma {:induction false} ReplaceAroundChar(x: string, c: char, y: string, pat: string, rep: string)
    requires |pat| > 0
    requires forall k :: 0 <= k < |pat| ==> pat[k] != c
    ensures Replace(x + ([c] + y), pat, rep) == Replace(x, pat, rep) + ([c] + Replace(y, pat, rep))
    decreases |x|
  {
    var z := [c] + y;
    if |x| == 0 {
      assert x + z == z;
      assert !StartsWith(z, pat) by {
        assert z[0] == c;
      }
      assert z[1..] == y;
    } else {
      var tail := [c] + Replace(y, pat, rep);
      assert StartsWith(x + z, pat) ==> |pat| <= |x| by {
        StartsCovers(x + z, pat, |x|);
        assert (x + z)[|x|] == c;
      }
      ReplaceStepLeft(x, z, pat, rep);
      if StartsWith(x, pat) {
        var u := x[|pat|..];
        calc {
          Replace(x + z, pat, rep);
          rep + Replace(u + z, pat, rep);
          { ReplaceAroundChar(u, c, y, pat, rep); }
          rep + (Replace(u, pat, rep) + tail);
          (rep + Replace(u, pat, rep)) + tail;
          Replace(x, pat, rep) + tail;
        }
      } else {
        var u := x[1..];
        calc {
          Replace(x + z, pat, rep);
          [x[0]] + Replace(u + z, pat, rep);
          { ReplaceAroundChar(u, c, y, pat, rep); }
          [x[0]] + (Replace(u, pat, rep) + tail);
          ([x[0]] + Replace(u, pat, rep)) + tail;
          Replace(x, pat, rep) + tail;
        }
      }
    }
  }

  /** Replacing a string by itself changes nothing. */
  lemma {:induction false} ReplaceSelf(s: string, pat: string)
    requires |pat| > 0
    ensures Replace(s, pat, pat) == s
    decreases |s|
  {
    if |s| > 0 {
      if StartsWith(s, pat) {
        ReplaceSelf(s[|pat|..], pat);
        assert s == s[..|pat|] + s[|pat|..];
      } else {
        ReplaceSelf(s[1..], pat);
        assert s == [s[0]] + s[1..];
      }
    }
  }

  // ---------------------------------------------------------------------
  // crlf(): line-end normalisation
  // ---------------------------------------------------------------------

  const CrLf: string := "\r\n"
  const Nul: char := 0 as char

  /** `crlf(filename)` on the file's contents: binary data (any NUL byte) is
      left alone, otherwise every CR LF pair becomes LF. */
  function Crlf(data: string): (r: string)
    ensures Nul in data ==> r == data
  {
    if Nul in data then data else Replace(data, CrLf, "\n")
  }

  /** A text of lines separated by CR LF becomes the same lines separated by
      LF, provided no line holds a CR of its own. */
  lemma {:induction false} CrlfJoinedLines(lines: seq<string>)
    requires forall k :: 0 <= k < |lines| ==> forall j :: 0 <= j < |lines[k]| ==> lines[k][j] != '\r'
    ensures Replace(JoinWith(lines, CrLf), CrLf, "\n") == JoinWith(lines, "\n")
    decreases |lines|
  {
    if |lines| == 1 {
      ReplaceWithoutHead(lines[0], CrLf, "\n");
    } else if |lines| > 1 {
      var a := lines[0];
      var rest := JoinWith(lines[1..], CrLf);
      assert JoinWith(lines, CrLf) == a + (CrLf + rest);
      ReplaceAfterFree(a, CrLf + rest, CrLf, "\n");
      ReplaceFront(CrLf, rest, "\n");
      CrlfJoinedLines(lines[1..]);
    }
  }

  /** The same, through `crlf` itself: a text file (no NUL) written with
      CR LF line ends reads back with LF line ends. */
  lemma CrlfNormalises(lines: seq<string>)
    requires forall k :: 0 <= k < |lines| ==> forall j :: 0 <= j < |lines[k]| ==> lines[k][j] != '\r' && lines[k][j] != Nul
    ensures Crlf(JoinWith(lines, CrLf)) == JoinWith(lines, "\n")
  {
    CrlfJoinedLines(lines);
    JoinWithoutChar(lines, CrLf, Nul);
  }

  /** A character that no element and no delimiter holds is absent from the join. */
  lemma {:induction false} JoinWithoutChar(a: seq<string>, d: string, c: char)
    requires forall k :: 0 <= k < |a| ==> forall j :: 0 <= j < |a[k]| ==> a[k][j] != c
    requires forall j :: 0 <= j < |d| ==> d[j] != c
    ensures forall j :: 0 <= j < |JoinWith(a, d)| ==> JoinWith(a, d)[j] != c
    decreases |a|
  {
    if |a| > 1 {
      JoinWithoutChar(a[1..], d, c);
      var t := JoinWith(a[1..], d);
      assert JoinWith(a, d) == a[0] + d + t;
      forall j | 0 <= j < |a[0] + d + t|
        ensures (a[0] + d + t)[j] != c
      {
        if j < |a[0]| {
        } else if j < |a[0]| + |d| {
          assert (a[0] + d + t)[j] == d[j - |a[0]|];
        } else {
          assert (a[0] + d + t)[j] == t[j - |a[0]| - |d|];
        }
      }
    }
  }

  // ---------------------------------------------------------------------
  // Command expansion in run_tests()
  // ---------------------------------------------------------------------

  const DefaultCommand: string := "[SHP2IMG] -m [MAPFILE] -o [RESULT]"
  const ResultTag: string := "[RESULT]"
  const DemimeTag: string := "[RESULT_DEMIME]"
  const DeversionTag: string := "[RESULT_DEVERSION]"

  /** The placeholders `run_tests` replaces, in the order it replaces them. */
  const Placeholders: seq<string> :=
    [ResultTag, DemimeTag, DeversionTag, "[MAPFILE]", "[SHP2IMG]", "[MAPSERV]", "[LEGEND]", "[SCALEBAR]"]

  /** Where a test's output goes, relative to the test directory. */
  function ResultPath(outFile: string): string { "result/" + outFile }

  /** Every placeholder is delimited by brackets and holds no space. */
  lemma PlaceholdersShape()
    ensures AllDelimited(Placeholders)
    ensures forall i :: 0 <= i < |Placeholders| ==> Lacks(Placeholders[i], ' ')
  {
  }

  /** What each placeholder becomes: the result file three times, the map
      file, the `shp2img` binary and three fixed utility names. */
  function Replacements(outFile: string, mapfile: string, shp2img: string): (r: seq<string>)
    ensures |r| == |Placeholders|
  {
    [ResultPath(outFile), ResultPath(outFile), ResultPath(outFile), mapfile, shp2img,
     "mapserv", "legend", "scalebar"]
  }

  /** Text that opens with `[` and closes with `]`, as every placeholder does. */
  predicate Delimited(t: string) {
    |t| >= 2 && t[0] == '[' && t[|t| - 1] == ']'
  }

  predicate AllDelimited(pats: seq<string>) {
    forall i :: 0 <= i < |pats| ==> Delimited(pats[i])
  }

  /** A placeholder: a name without brackets, in square brackets. */
  predicate Bracketed(t: string) {
    Delimited(t) && forall j :: 0 < j < |t| - 1 ==> t[j] != '[' && t[j] != ']'
  }

  /** Text without an opening bracket, which no placeholder can match. */
  predicate Plain(t: string) {
    forall j :: 0 <= j < |t| ==> t[j] != '['
  }

  predicate AllPlain(reps: seq<string>) {
    forall i :: 0 <= i < |reps| ==> Plain(reps[i])
  }

  /** The `string.replace` calls applied one after another, the `i`th
      pattern replaced by the `i`th replacement. */
  function Substitute(s: string, pats: seq<string>, reps: seq<string>): string
    requires AllDelimited(pats) && |reps| == |pats|
    decreases |pats|
  {
    if |pats| == 0 then s
    else Substitute(Replace(s, pats[0], reps[0]), pats[1..], reps[1..])
  }

  /** The command line `run_tests` hands to the shell. */
  function ExpandCommand(command: string, outFile: string, mapfile: string, shp2img: string): string {
    PlaceholdersShape();
    Substitute(command, Placeholders, Replacements(outFile, mapfile, shp2img))
  }

  /** The output is stripped of its HTTP header iff the command names it
      `[RESULT_DEMIME]`. */
  predicate DemimeWanted(command: string) { Find(command, DemimeTag).Some? }

  /** The version comment, exponents and decimals of the output are
      normalised iff the command names it `[RESULT_DEVERSION]`. */
  predicate DeversionWanted(command: string) { Find(command, DeversionTag).Some? }

  lemma FlagsMeanOccurrence(command: string)
    ensures DemimeWanted(command) <==> exists j :: OccursAt(command, DemimeTag, j)
    ensures DeversionWanted(command) <==> exists j :: OccursAt(command, DeversionTag, j)
  {
    FindIsFirst(command, DemimeTag);
    FindIsFirst(command, DeversionTag);
  }

  /** The position of the first entry equal to `t`. */
  function IndexOf(t: string, pats: seq<string>): (r: Option<nat>)
    ensures r.Some? ==> r.value < |pats| && pats[r.value] == t
    ensures r.None? ==> forall k :: 0 <= k < |pats| ==> pats[k] != t
    decreases |pats|
  {
    if |pats| == 0 then None
    else if pats[0] == t then Some(0)
    else match IndexOf(t, pats[1..])
      case None => None
      case Some(i) => Some(i + 1)
  }

  /** A placeholder that starts another is that placeholder. */
  lemma BracketPrefix(t: string, p: string)
    requires Bracketed(t) && Delimited(p)
    ensures StartsWith(t, p) ==> t == p
  {
    if StartsWith(t, p) {
      assert t[|p| - 1] == p[|p| - 1];
    }
  }

  /** Replacing a placeholder in a lone placeholder. */
  lemma ReplaceToken(t: string, p: string, rep: string)
    requires Bracketed(t) && Delimited(p)
    ensures t == p ==> Replace(t, p, rep) == rep
    ensures t != p ==> Replace(t, p, rep) == t
  {
    if t == p {
      ReplaceFront(p, [], rep);
      assert p + [] == p;
      assert rep + [] == rep;
    } else {
      BracketPrefix(t, p);
      assert forall j :: 0 <= j < |t| - 1 ==> t[1..][j] == t[j + 1];
      ReplaceWithoutHead(t[1..], p, rep);
      assert t == [t[0]] + t[1..];
    }
  }

  /** Text without brackets passes through every substitution. */
  lemma {:induction false} SubstitutePlain(s: string, pats: seq<string>, reps: seq<string>)
    requires AllDelimited(pats) && |reps| == |pats|
    requires Plain(s)
    ensures Substitute(s, pats, reps) == s
    decreases |pats|
  {
    if |pats| > 0 {
      assert Delimited(pats[0]);
      ReplaceWithoutHead(s, pats[0], reps[0]);
      assert AllDelimited(pats[1..]) by {
        assert forall i :: 0 <= i < |pats| - 1 ==> pats[1..][i] == pats[i + 1];
      }
      SubstitutePlain(s, pats[1..], reps[1..]);
    }
  }

  /** A lone placeholder becomes the replacement of its first entry, or
      stays as it is when no entry names it; replacements are never
      expanded again. */
  lemma {:induction false} SubstituteToken(t: string, pats: seq<string>, reps: seq<string>)
    requires AllDelimited(pats) && |reps| == |pats| && AllPlain(reps)
    requires Bracketed(t)
    ensures Substitute(t, pats, reps) == match IndexOf(t, pats)
                                         case Some(i) => reps[i]
                                         case None => t
    decreases |pats|
  {
    if |pats| > 0 {
      assert Delimited(pats[0]) && Plain(reps[0]);
      ReplaceToken(t, pats[0], reps[0]);
      assert AllDelimited(pats[1..]) && AllPlain(reps[1..]) by {
        assert forall i :: 0 <= i < |pats| - 1 ==> pats[1..][i] == pats[i + 1] && reps[1..][i] == reps[i + 1];
      }
      if pats[0] == t {
        SubstitutePlain(reps[0], pats[1..], reps[1..]);
      } else {
        SubstituteToken(t, pats[1..], reps[1..]);
      }
    }
  }

  /** No character of `t` is `c`. */
  predicate Lacks(t: string, c: char) {
    forall k :: 0 <= k < |t| ==> t[k] != c
  }

  /** Substitution works word by word when no placeholder holds the separator. */
  lemma {:induction false} SubstituteAroundChar(x: string, c: char, y: string, pats: seq<string>, reps: seq<string>)
    requires AllDelimited(pats) && |reps| == |pats|
    requires forall i :: 0 <= i < |pats| ==> Lacks(pats[i], c)
    ensures Substitute(x + ([c] + y), pats, reps) == Substitute(x, pats, reps) + ([c] + Substitute(y, pats, reps))
    decreases |pats|
  {
    if |pats| > 0 {
      assert Lacks(pats[0], c) && Delimited(pats[0]);
      ReplaceAroundChar(x, c, y, pats[0], reps[0]);
      assert forall i :: 0 <= i < |pats| - 1 ==> pats[1..][i] == pats[i + 1];
      SubstituteAroundChar(Replace(x, pats[0], reps[0]), c, Replace(y, pats[0], reps[0]), pats[1..], reps[1..]);
    }
  }

  /** Bracket-free arguments give bracket-free replacements. */
  lemma ReplacementsPlain(outFile: string, mapfile: string, shp2img: string)
    requires Plain(outFile) && Plain(mapfile) && Plain(shp2img)
    ensures AllPlain(Replacements(outFile, mapfile, shp2img))
  {
    assert Plain(ResultPath(outFile)) by {
      assert forall j :: 7 <= j < |ResultPath(outFile)| ==> ResultPath(outFile)[j] == outFile[j - 7];
    }
  }

  /** A lone placeholder of `run_tests` expands to its replacement. */
  lemma ExpandPlaceholder(t: string, i: nat, outFile: string, mapfile: string, shp2img: string)
    requires Bracketed(t) && IndexOf(t, Placeholders) == Some(i)
    requires Plain(outFile) && Plain(mapfile) && Plain(shp2img)
    ensures ExpandCommand(t, outFile, mapfile, shp2img) == Replacements(outFile, mapfile, shp2img)[i]
  {
    PlaceholdersShape();
    ReplacementsPlain(outFile, mapfile, shp2img);
    SubstituteToken(t, Placeholders, Replacements(outFile, mapfile, shp2img));
  }

  /** The result placeholders are well formed and each is the first entry
      of its kind. */
  lemma ResultTagFacts(i: nat)
    requires i < 3
    ensures Bracketed(Placeholders[i]) && IndexOf(Placeholders[i], Placeholders) == Some(i)
  {
    if i == 0 {
      assert Bracketed(ResultTag);
    } else if i == 1 {
      assert Bracketed(DemimeTag);
    } else {
      assert Bracketed(DeversionTag);
    }
  }

  /** The same for the map file and `shp2img` placeholders. */
  lemma ProgramTagFacts(i: nat)
    requires 3 <= i < 5
    ensures Bracketed(Placeholders[i]) && IndexOf(Placeholders[i], Placeholders) == Some(i)
  {
    if i == 3 {
      assert Bracketed("[MAPFILE]");
    } else {
      assert Bracketed("[SHP2IMG]");
    }
  }

  /** The three result placeholders all name the same file. */
  lemma ResultPlaceholders(outFile: string, mapfile: string, shp2img: string)
    requires Plain(outFile) && Plain(mapfile) && Plain(shp2img)
    ensures ExpandCommand(ResultTag, outFile, mapfile, shp2img) == ResultPath(outFile)
    ensures ExpandCommand(DemimeTag, outFile, mapfile, shp2img) == ResultPath(outFile)
    ensures ExpandCommand(DeversionTag, outFile, mapfile, shp2img) == ResultPath(outFile)
  {
    ResultTagFacts(0);
    ExpandPlaceholder(ResultTag, 0, outFile, mapfile, shp2img);
    ResultTagFacts(1);
    ExpandPlaceholder(DemimeTag, 1, outFile, mapfile, shp2img);
    ResultTagFacts(2);
    ExpandPlaceholder(DeversionTag, 2, outFile, mapfile, shp2img);
  }

  /** Placeholders are expanded word by word. */
  lemma ExpandWords(x: string, y: string, outFile: string, mapfile: string, shp2img: string)
    ensures ExpandCommand(x + (" " + y), outFile, mapfile, shp2img)
         == ExpandCommand(x, outFile, mapfile, shp2img) + (" " + ExpandCommand(y, outFile, mapfile, shp2img))
  {
    PlaceholdersShape();
    assert " " + y == [' '] + y;
    SubstituteAroundChar(x, ' ', y, Placeholders, Replacements(outFile, mapfile, shp2img));
  }

  /** Substitution applied to a space-separated list of words is
      substitution applied to each word. */
  lemma {:induction false} ExpandJoin(ws: seq<string>, outFile: string, mapfile: string, shp2img: string)
    ensures ExpandCommand(JoinWith(ws, " "), outFile, mapfile, shp2img)
         == JoinWith(seq(|ws|, i requires 0 <= i < |ws| => ExpandCommand(ws[i], outFile, mapfile, shp2img)), " ")
    decreases |ws|
  {
    var ex := seq(|ws|, i requires 0 <= i < |ws| => ExpandCommand(ws[i], outFile, mapfile, shp2img));
    if |ws| == 0 {
      PlaceholdersShape();
      SubstitutePlain([], Placeholders, Replacements(outFile, mapfile, shp2img));
    } else if |ws| > 1 {
      var rest := seq(|ws| - 1, i requires 0 <= i < |ws| - 1 => ExpandCommand(ws[1..][i], outFile, mapfile, shp2img));
      ExpandJoin(ws[1..], outFile, mapfile, shp2img);
      ExpandWords(ws[0], JoinWith(ws[1..], " "), outFile, mapfile, shp2img);
      assert JoinWith(ws, " ") == ws[0] + (" " + JoinWith(ws[1..], " "));
      assert ex[1..] == rest;
      assert JoinWith(ex, " ") == ex[0] + (" " + JoinWith(ex[1..], " "));
    }
  }

  /** Words without placeholders are left as they are. */
  lemma ExpandPlainWord(w: string, outFile: string, mapfile: string, shp2img: string)
    requires Plain(w)
    ensures ExpandCommand(w, outFile, mapfile, shp2img) == w
  {
    PlaceholdersShape();
    SubstitutePlain(w, Placeholders, Replacements(outFile, mapfile, shp2img));
  }

  /** `[MAPFILE]` and `[SHP2IMG]` become the map file and the binary. */
  lemma ProgramPlaceholders(outFile: string, mapfile: string, shp2img: string)
    requires Plain(outFile) && Plain(mapfile) && Plain(shp2img)
    ensures ExpandCommand("[MAPFILE]", outFile, mapfile, shp2img) == mapfile
    ensures ExpandCommand("[SHP2IMG]", outFile, mapfile, shp2img) == shp2img
  {
    ProgramTagFacts(3);
    ExpandPlaceholder("[MAPFILE]", 3, outFile, mapfile, shp2img);
    ProgramTagFacts(4);
    ExpandPlaceholder("[SHP2IMG]", 4, outFile, mapfile, shp2img);
  }

  // ---------------------------------------------------------------------
  // get_mapfile_list() and has_requires()
  // ---------------------------------------------------------------------

  /** `name[-4:] == '.map'`. */
  predicate IsMapfileName(name: string) {
    |name| >= 4 && name[|name| - 4..] == ".map"
  }

  /** The map files among `names`, in their order. */
  function MapfilesIn(names: seq<string>): (r: seq<string>)
    ensures |r| <= |names|
    ensures forall i :: 0 <= i < |r| ==> IsMapfileName(r[i])
  {
    if |names| == 0 then []
    else if IsMapfileName(names[0]) then [names[0]] + MapfilesIn(names[1..])
    else MapfilesIn(names[1..])
  }

  /** `MapfilesIn` keeps exactly the map file names. */
  lemma {:induction false} MapfilesInMembers(names: seq<string>, name: string)
    ensures name in MapfilesIn(names) <==> name in names && IsMapfileName(name)
    decreases |names|
  {
    if |names| > 0 {
      MapfilesInMembers(names[1..], name);
      assert names == [names[0]] + names[1..];
    }
  }

  /** `get_mapfile_list(argv)`: the map files named on the command line, or
      failing that those of the directory listing (`os.listdir('.')`). */
  function GetMapfileList(argv: seq<string>, listing: seq<string>): (r: seq<string>)
    ensures forall i :: 0 <= i < |r| ==> IsMapfileName(r[i])
  {
    var named := MapfilesIn(argv);
    if |named| > 0 then named else MapfilesIn(listing)
  }

  /** Naming a map file on the command line overrides the directory. */
  lemma GetMapfileListPrefersArguments(argv: seq<string>, listing: seq<string>, name: string)
    ensures (exists i :: 0 <= i < |argv| && IsMapfileName(argv[i])) ==>
      (name in GetMapfileList(argv, listing) <==> name in argv && IsMapfileName(name))
    ensures (forall i :: 0 <= i < |argv| ==> !IsMapfileName(argv[i])) ==>
      (name in GetMapfileList(argv, listing) <==> name in listing && IsMapfileName(name))
  {
    MapfilesInMembers(argv, name);
    MapfilesInMembers(listing, name);
    if exists i :: 0 <= i < |argv| && IsMapfileName(argv[i]) {
      var i :| 0 <= i < |argv| && IsMapfileName(argv[i]);
      MapfilesInMembers(argv, argv[i]);
    } else {
      if |MapfilesIn(argv)| > 0 {
        MapfilesInMembers(argv, MapfilesIn(argv)[0]);
      }
    }
  }

  /** `has_requires(version_info, requires_list)`: every requirement is a
      substring of the version banner (`shp2img -v`). */
  function HasRequires(versionInfo: string, needed: seq<string>): bool
    decreases |needed|
  {
    |needed| == 0
    || (Find(versionInfo, needed[0]).Some? && HasRequires(versionInfo, needed[1..]))
  }

  /** `p` is a substring of `s`. */
  ghost predicate Contains(s: string, p: string) {
    exists j :: OccursAt(s, p, j)
  }

  lemma FindMeansContains(s: string, p: string)
    ensures Find(s, p).Some? <==> Contains(s, p)
  {
    FindIsFirst(s, p);
    if Find(s, p).Some? {
      assert OccursAt(s, p, Find(s, p).value);
    }
  }

  lemma {:induction false} HasRequiresMeansSubstrings(versionInfo: string, needed: seq<string>)
    ensures HasRequires(versionInfo, needed) <==> forall k :: 0 <= k < |needed| ==> Contains(versionInfo, needed[k])
    decreases |needed|
  {
    if |needed| > 0 {
      FindMeansContains(versionInfo, needed[0]);
      HasRequiresMeansSubstrings(versionInfo, needed[1..]);
      assert forall k :: 1 <= k < |needed| ==> needed[k] == needed[1..][k - 1];
    }
  }

  // ---------------------------------------------------------------------
  // Python's whitespace splitting
  // ---------------------------------------------------------------------

  /** The length of the whitespace run that starts `s`. */
  function SpaceRun(s: string): (r: nat)
    ensures r <= |s|
    ensures forall j :: 0 <= j < r ==> IsSpace(s[j])
    ensures r < |s| ==> !IsSpace(s[r])
  {
    if |s| > 0 && IsSpace(s[0]) then 1 + SpaceRun(s[1..]) else 0
  }

  /** The length of the non-whitespace run that starts `s`. */
  function WordRun(s: string): (r: nat)
    ensures r <= |s|
    ensures forall j :: 0 <= j < r ==> !IsSpace(s[j])
    ensures r < |s| ==> IsSpace(s[r])
  {
    if |s| > 0 && !IsSpace(s[0]) then 1 + WordRun(s[1..]) else 0
  }

  /** A word as `split` returns it: non-empty, no whitespace. */
  predicate IsWord(w: string) {
    |w| > 0 && forall j :: 0 <= j < |w| ==> !IsSpace(w[j])
  }

  /** `s.split()`: the maximal whitespace-free runs, in order. */
  function Words(s: string): (r: seq<string>)
    ensures forall i :: 0 <= i < |r| ==> IsWord(r[i])
    decreases |s|
  {
    var t := s[SpaceRun(s)..];
    if |t| == 0 then []
    else [t[..WordRun(t)]] + Words(t[WordRun(t)..])
  }

  /** `s.split(None, 1)`: the first word and, if anything but whitespace
      follows it, the rest of the text after the whitespace that follows
      the first word (trailing whitespace kept). */
  function SplitOnce(s: string): (r: seq<string>)
    ensures |r| <= 2
  {
    var t := s[SpaceRun(s)..];
    if |t| == 0 then []
    else
      var rest := t[WordRun(t)..];
      var u := rest[SpaceRun(rest)..];
      if |u| == 0 then [t[..WordRun(t)]] else [t[..WordRun(t)], u]
  }

  /** Leading whitespace does not change the words. */
  lemma WordsAfterSpace(s: string)
    ensures Words(s) == Words(s[SpaceRun(s)..])
  {
    var u := s[SpaceRun(s)..];
    assert SpaceRun(u) == 0;
    assert u[0..] == u;
  }

  /** `split(None, 1)` agrees with `split()`: the same first word, and the
      remainder splits into the other words. */
  lemma SplitOnceMatchesWords(s: string)
    ensures |SplitOnce(s)| == if |Words(s)| < 2 then |Words(s)| else 2
    ensures |SplitOnce(s)| > 0 ==> SplitOnce(s)[0] == Words(s)[0]
    ensures |SplitOnce(s)| == 2 ==> Words(SplitOnce(s)[1]) == Words(s)[1..]
  {
    var t := s[SpaceRun(s)..];
    if |t| > 0 {
      var rest := t[WordRun(t)..];
      WordsAfterSpace(rest);
    }
  }

  /** Words joined by single spaces split back into the same words. */
  lemma {:induction false} WordsOfJoin(ws: seq<string>)
    requires forall i :: 0 <= i < |ws| ==> IsWord(ws[i])
    ensures Words(JoinWith(ws, " ")) == ws
    decreases |ws|
  {
    if |ws| == 1 {
      var w := ws[0];
      assert SpaceRun(w) == 0;
      WordRunOf(w, []);
      assert w + [] == w;
      assert w[|w|..] == [];
    } else if |ws| > 1 {
      var w := ws[0];
      var rest := JoinWith(ws[1..], " ");
      var s := JoinWith(ws, " ");
      assert s == w + (" " + rest);
      assert SpaceRun(s) == 0;
      WordRunOf(w, " " + rest);
      assert s[|w|..] == " " + rest;
      assert s[..|w|] == w;
      assert SpaceRun(" " + rest) >= 1;
      assert (" " + rest)[1..] == rest;
      assert Words(" " + rest) == Words(rest) by {
        WordsAfterSpace(" " + rest);
        WordsAfterSpace(rest);
        assert SpaceRun(" " + rest) == 1 + SpaceRun(rest);
      }
      WordsOfJoin(ws[1..]);
    }
  }

  /** A word followed by nothing or by whitespace is one run. */
  lemma WordRunOf(w: string, x: string)
    requires IsWord(w)
    requires |x| > 0 ==> IsSpace(x[0])
    ensures WordRun(w + x) == |w|
  {
    var r := WordRun(w + x);
    assert forall j :: 0 <= j < |w| ==> (w + x)[j] == w[j];
    if |w| < |w + x| {
      assert (w + x)[|w|] == x[0];
    }
  }

  // ---------------------------------------------------------------------
  // read_test_directives()
  // ---------------------------------------------------------------------

  const RequiresTag: string := "REQUIRES:"
  const RunParmsTag: string := "RUN_PARMS:"

  /** One test of a map file: where its output goes and how it is made. */
  datatype RunParms = RunParms(outFile: string, command: string)

  /** What the comment lines of a map file ask for. */
  datatype Directives = Directives(runs: seq<RunParms>, needed: seq<string>)

  /** The requirements a line names after `REQUIRES:`. */
  function LineRequires(line: string): seq<string> {
    match Find(line, RequiresTag)
    case None => []
    case Some(o) => Words(line[o + |RequiresTag|..])
  }

  /** The test a line defines after `RUN_PARMS:`: an output file and a
      command, the default command when only the file is given. */
  function LineRunParms(line: string): (r: seq<RunParms>)
    ensures |r| <= 1
  {
    match Find(line, RunParmsTag)
    case None => []
    case Some(o) =>
      var items := SplitOnce(line[o + |RunParmsTag|..]);
      if |items| == 2 then [RunParms(items[0], items[1])]
      else if |items| == 1 then [RunParms(items[0], DefaultCommand)]
      else []
  }

  /** The directives of the lines, in order. */
  function ScanDirectives(lines: seq<string>): (r: Directives)
    ensures |r.runs| <= |lines|
    decreases |lines|
  {
    if |lines| == 0 then Directives([], [])
    else
      var d := ScanDirectives(lines[1..]);
      Directives(LineRunParms(lines[0]) + d.runs, LineRequires(lines[0]) + d.needed)
  }

  /** `mapfile_name[:-4]`. */
  function DropExtension(name: string): string {
    if |name| >= 4 then name[..|name| - 4] else []
  }

  /** `read_test_directives(mapfile_name)` on the file's lines: a map file
      without tests gets one, rendering `<name>.png` with the default command. */
  function ReadTestDirectives(mapfileName: string, lines: seq<string>): (r: Directives)
    ensures |r.runs| >= 1
    ensures r.needed == ScanDirectives(lines).needed
  {
    var d := ScanDirectives(lines);
    if |d.runs| == 0 then d.(runs := [RunParms(DropExtension(mapfileName) + ".png", DefaultCommand)])
    else d
  }

  /** The default test is added exactly when no line defines a test. */
  lemma {:induction false} ScanRunsEmpty(lines: seq<string>)
    ensures |ScanDirectives(lines).runs| == 0 <==> forall k :: 0 <= k < |lines| ==> |LineRunParms(lines[k])| == 0
    decreases |lines|
  {
    if |lines| > 0 {
      ScanRunsEmpty(lines[1..]);
      assert forall k :: 1 <= k < |lines| ==> lines[k] == lines[1..][k - 1];
    }
  }

  /** A run of whitespace followed by nothing or by a non-space. */
  lemma SpaceRunOf(sp: string, x: string)
    requires forall j :: 0 <= j < |sp| ==> IsSpace(sp[j])
    requires |x| > 0 ==> !IsSpace(x[0])
    ensures SpaceRun(sp + x) == |sp|
  {
    var r := SpaceRun(sp + x);
    assert forall j :: 0 <= j < |sp| ==> (sp + x)[j] == sp[j];
    if |sp| < |sp + x| {
      assert (sp + x)[|sp|] == x[0];
    }
  }

  /** The words that follow a `RUN_PARMS:` tag: an output file, whitespace,
      then a command. */
  lemma SplitOutputAndCommand(lead: string, out: string, gap: string, command: string)
    requires forall j :: 0 <= j < |lead| ==> IsSpace(lead[j])
    requires IsWord(out)
    requires |gap| > 0 && forall j :: 0 <= j < |gap| ==> IsSpace(gap[j])
    requires |command| > 0 && !IsSpace(command[0])
    ensures SplitOnce(lead + (out + (gap + command))) == [out, command]
  {
    var s := lead + (out + (gap + command));
    SpaceRunOf(lead, out + (gap + command));
    assert s[|lead|..] == out + (gap + command);
    WordRunOf(out, gap + command);
    var t := out + (gap + command);
    assert t[..|out|] == out;
    assert t[|out|..] == gap + command;
    SpaceRunOf(gap, command);
    assert (gap + command)[|gap|..] == command;
  }

  /** A `RUN_PARMS:` line defines the test it spells out, whatever comes
      before the tag. */
  lemma RunParmsLine(pre: string, lead: string, out: string, gap: string, command: string)
    requires forall j :: 0 <= j < |pre| ==> !OccursAt(pre + RunParmsTag, RunParmsTag, j)
    requires forall j :: 0 <= j < |lead| ==> IsSpace(lead[j])
    requires IsWord(out)
    requires |gap| > 0 && forall j :: 0 <= j < |gap| ==> IsSpace(gap[j])
    requires |command| > 0 && !IsSpace(command[0])
    ensures LineRunParms(pre + RunParmsTag + (lead + (out + (gap + command)))) == [RunParms(out, command)]
  {
    var rest := lead + (out + (gap + command));
    var line := pre + RunParmsTag + rest;
    assert OccursAt(pre + RunParmsTag, RunParmsTag, |pre|) by {
      assert (pre + RunParmsTag)[|pre|..|pre| + |RunParmsTag|] == RunParmsTag;
    }
    FindAt(pre + RunParmsTag, RunParmsTag, |pre|);
    FindPrefixed(pre, RunParmsTag, rest);
    assert line[|pre| + |RunParmsTag|..] == rest;
    SplitOutputAndCommand(lead, out, gap, command);
  }

  /** The words that follow a `RUN_PARMS:` tag: an output file alone. */
  lemma SplitOutputOnly(lead: string, out: string, trail: string)
    requires forall j :: 0 <= j < |lead| ==> IsSpace(lead[j])
    requires IsWord(out)
    requires forall j :: 0 <= j < |trail| ==> IsSpace(trail[j])
    ensures SplitOnce(lead + (out + trail)) == [out]
  {
    var rest := lead + (out + trail);
    SpaceRunOf(lead, out + trail);
    assert rest[|lead|..] == out + trail;
    WordRunOf(out, trail);
    assert (out + trail)[..|out|] == out;
    assert (out + trail)[|out|..] == trail;
    SpaceRunOf(trail, []);
    assert trail + [] == trail;
  }

  /** A `RUN_PARMS:` line naming only an output file runs the default command. */
  lemma RunParmsDefaultLine(pre: string, lead: string, out: string, trail: string)
    requires forall j :: 0 <= j < |pre| ==> !OccursAt(pre + RunParmsTag, RunParmsTag, j)
    requires forall j :: 0 <= j < |lead| ==> IsSpace(lead[j])
    requires IsWord(out)
    requires forall j :: 0 <= j < |trail| ==> IsSpace(trail[j])
    ensures LineRunParms(pre + RunParmsTag + (lead + (out + trail))) == [RunParms(out, DefaultCommand)]
  {
    var rest := lead + (out + trail);
    var line := pre + RunParmsTag + rest;
    assert OccursAt(pre + RunParmsTag, RunParmsTag, |pre|) by {
      assert (pre + RunParmsTag)[|pre|..|pre| + |RunParmsTag|] == RunParmsTag;
    }
    FindAt(pre + RunParmsTag, RunParmsTag, |pre|);
    FindPrefixed(pre, RunParmsTag, rest);
    assert line[|pre| + |RunParmsTag|..] == rest;
    SplitOutputOnly(lead, out, trail);
  }

  // ---------------------------------------------------------------------
  // demime_file()
  // ---------------------------------------------------------------------

  const BlankLine: string := "\n\n"

  /** `demime_file`: everything up to and including the first empty line
      goes; data without one is left alone. */
  function Demime(data: string): (r: string)
    ensures |r| <= |data| && r == data[|data| - |r|..]
  {
    match Find(data, BlankLine)
    case None => data
    case Some(i) => data[i + |BlankLine|..]
  }

  /** An HTTP header (no empty line inside, not ending in a line break)
      followed by an empty line is stripped, leaving the body. */
  lemma DemimeStripsHeader(header: string, body: string)
    requires forall j :: 0 <= j < |header| && header[j] == '\n' ==> j + 1 < |header| && header[j + 1] != '\n'
    ensures Demime(header + BlankLine + body) == body
  {
    var data := header + BlankLine + body;
    forall j | 0 <= j < |header|
      ensures !OccursAt(data, BlankLine, j)
    {
      assert data[j] == header[j];
      if j + 1 < |header| {
        assert data[j + 1] == header[j + 1];
      } else {
        assert data[j + 1] == '\n';
      }
      assert data[j..j + 2][0] == data[j] && data[j..j + 2][1] == data[j + 1];
    }
    assert data[|header|..|header| + 2] == BlankLine;
    FindAt(data, BlankLine, |header|);
    assert data[|header| + 2..] == body;
  }

  /** Data without an empty line is not touched. */
  lemma DemimeWithoutBlankLine(data: string)
    requires forall j :: !OccursAt(data, BlankLine, j)
    ensures Demime(data) == data
  {
    FindIsFirst(data, BlankLine);
  }

  // ---------------------------------------------------------------------
  // deversion_file()
  // ---------------------------------------------------------------------

  const MarkerSpaced: string := "<!-- MapServer version"
  const MarkerTight: string := "<!--MapServer version"
  const CommentEnd: string := "-->"

  /** Where the version comment starts: the first spaced marker, or failing
      that the first unspaced one. */
  function FindMarker(data: string): (r: Option<nat>)
    ensures r.Some? ==> r.value + |MarkerTight| <= |data|
  {
    var spaced := Find(data, MarkerSpaced);
    if spaced.Some? then spaced else Find(data, MarkerTight)
  }

  /** `data[:k]` for a possibly negative `k`, counted from the end then. */
  function PyPrefix(data: string, k: int): (r: string)
    ensures |r| <= |data| && r == data[..|r|]
  {
    if k < 0 then data[..if |data| + k < 0 then 0 else |data| + k]
    else data[..if k < |data| then k else |data|]
  }

  /** `data[k:]` for `k >= 0`. */
  function PySuffix(data: string, k: nat): (r: string)
    ensures |r| <= |data| && r == data[|data| - |r|..]
  {
    data[if k < |data| then k else |data|..]
  }

  /** The scan of `deversion_file` for the comment's end: it advances while
      `end < len(data) - 5` and no `-->` starts at `end`. */
  function CloseScan(data: string, end: nat): (r: nat)
    ensures end <= r
    ensures r > end ==> r + 4 < |data|
    decreases |data| - end
  {
    if end + 5 < |data| && !OccursAt(data, CommentEnd, end) then CloseScan(data, end + 1) else end
  }

  /** The scan passes no `-->`, and stops on one unless it ran out of room. */
  lemma {:induction false} CloseScanSkips(data: string, end: nat)
    ensures forall j :: end <= j < CloseScan(data, end) ==> !OccursAt(data, CommentEnd, j)
    ensures CloseScan(data, end) + 5 < |data| ==> OccursAt(data, CommentEnd, CloseScan(data, end))
    decreases |data| - end
  {
    if end + 5 < |data| && !OccursAt(data, CommentEnd, end) {
      CloseScanSkips(data, end + 1);
    }
  }

  /** With the first `-->` from `from` at `end`, the scan stops there when
      `end <= len(data) - 5`. */
  lemma {:induction false} CloseScanStops(data: string, from: nat, end: nat)
    requires from <= end && end + 5 <= |data|
    requires forall j :: from <= j < end ==> !OccursAt(data, CommentEnd, j)
    requires OccursAt(data, CommentEnd, end)
    ensures CloseScan(data, from) == end
    decreases end - from
  {
    if from < end {
      assert !OccursAt(data, CommentEnd, from);
      CloseScanStops(data, from + 1, end);
    }
  }

  /** `deversion_file` as written: the character before the marker through
      the character after `-->` are cut out with `data[:start-1] + data[end+4:]`. */
  function DeversionAsWritten(data: string): string {
    var marker := FindMarker(data);
    if marker.None? then data
    else
      var start := marker.value;
      var end := CloseScan(data, start + 10);
      if !OccursAt(data, CommentEnd, end) then data
      else PyPrefix(data, start - 1) + PySuffix(data, end + 4)
  }

  /** The pass as evidently intended: the first `-->` after the marker ends
      the comment wherever it lies, and a marker at the very start has no
      character before it to remove. */
  function Deversion(data: string): (r: string)
    ensures |r| <= |data|
  {
    var marker := FindMarker(data);
    if marker.None? then data
    else
      var start := marker.value;
      var close := FindFrom(data, CommentEnd, start + 10);
      if close.None? then data
      else data[..if start == 0 then 0 else start - 1] + PySuffix(data, close.value + 4)
  }

  /** No `-->` starts where the third character is not `>`. */
  lemma NoCommentEndBefore(data: string, from: nat, end: nat)
    requires forall k :: from + 2 <= k < end + 2 && k < |data| ==> data[k] != '>'
    ensures forall j :: from <= j < end ==> !OccursAt(data, CommentEnd, j)
  {
    forall j | from <= j < end
      ensures !OccursAt(data, CommentEnd, j)
    {
      if j + 3 <= |data| {
        assert data[j..j + 3][2] == data[j + 2];
      }
    }
  }

  /** Both scans for the comment's end, given the first `-->` at `end`. */
  lemma CommentEndFound(data: string, from: nat, end: nat)
    requires from < end && OccursAt(data, CommentEnd, end)
    requires forall j :: from <= j < end ==> !OccursAt(data, CommentEnd, j)
    ensures FindFrom(data, CommentEnd, from).Some? && FindFrom(data, CommentEnd, from).value == end
    ensures end + 5 <= |data| ==> CloseScan(data, from) == end
    ensures end + 5 > |data| ==> !OccursAt(data, CommentEnd, CloseScan(data, from))
  {
    FindFromSkip(data, CommentEnd, from, end);
    assert FindFrom(data, CommentEnd, end) == Some(end);
    if end + 5 <= |data| {
      CloseScanStops(data, from, end);
    } else {
      var r := CloseScan(data, from);
      assert r < end;
      CloseScanSkips(data, from);
    }
  }

  /** The intended pass, given a marker at `start` and the first `-->`
      after it at `end`. */
  lemma DeversionAt(data: string, start: nat, end: nat)
    requires FindMarker(data).Some? && FindMarker(data).value == start
    requires start + 10 < end
    requires FindFrom(data, CommentEnd, start + 10).Some? && FindFrom(data, CommentEnd, start + 10).value == end
    ensures Deversion(data) == data[..if start == 0 then 0 else start - 1] + PySuffix(data, end + 4)
  {
  }

  /** The pass as written, given a marker at `start` where its scan for
      `-->` stops at `end`. */
  lemma DeversionAsWrittenAt(data: string, start: nat, end: nat)
    requires FindMarker(data).Some? && FindMarker(data).value == start
    requires CloseScan(data, start + 10) == end
    ensures OccursAt(data, CommentEnd, end) ==> DeversionAsWritten(data) == PyPrefix(data, start - 1) + PySuffix(data, end + 4)
    ensures !OccursAt(data, CommentEnd, end) ==> DeversionAsWritten(data) == data
  {
  }

  /** Both scans for the end of a comment from `start` to the first `-->`
      at `end`, with no `>` in between. */
  lemma CommentScans(data: string, start: nat, end: nat)
    requires start + 10 < end && OccursAt(data, CommentEnd, end)
    requires forall k :: start + 12 <= k < end + 2 ==> data[k] != '>'
    ensures FindFrom(data, CommentEnd, start + 10).Some? && FindFrom(data, CommentEnd, start + 10).value == end
    ensures end + 5 <= |data| ==> CloseScan(data, start + 10) == end
    ensures end + 5 > |data| ==> !OccursAt(data, CommentEnd, CloseScan(data, start + 10))
  {
    NoCommentEndBefore(data, start + 10, end);
    CommentEndFound(data, start + 10, end);
  }

  lemma MarkerShape()
    ensures forall k :: 0 <= k < |MarkerSpaced| ==> MarkerSpaced[k] != '>'
    ensures |MarkerSpaced| == 22
  {
  }

  /** The layout of a file holding a version comment after `pre`. */
  lemma CommentLayout(pre: string, mid: string, post: string)
    requires forall j :: 0 <= j < |mid| ==> mid[j] != '>'
    ensures var data := pre + MarkerSpaced + mid + CommentEnd + post;
      var end := |pre| + |MarkerSpaced| + |mid|;
      && OccursAt(data, CommentEnd, end)
      && (forall k :: |pre| + 12 <= k < end + 2 ==> data[k] != '>')
      && data[..|pre|] == pre
      && data[end + 3..] == post
  {
    var data := pre + MarkerSpaced + mid + CommentEnd + post;
    var end := |pre| + |MarkerSpaced| + |mid|;
    MarkerShape();
    forall k | |pre| + 12 <= k < end + 2
      ensures data[k] != '>'
    {
      if k < |pre| + |MarkerSpaced| {
        assert data[k] == MarkerSpaced[k - |pre|];
      } else if k < end {
        assert data[k] == mid[k - |pre| - |MarkerSpaced|];
      } else {
        assert data[k] == CommentEnd[k - end];
      }
    }
    assert data[end..end + 3] == CommentEnd;
  }

  /** The marker found first is the one after `pre`. */
  lemma MarkerAfter(pre: string, rest: string)
    requires forall j :: 0 <= j < |pre| ==> !OccursAt(pre + MarkerSpaced, MarkerSpaced, j)
    ensures FindMarker(pre + MarkerSpaced + rest).Some?
    ensures FindMarker(pre + MarkerSpaced + rest).value == |pre|
  {
    assert OccursAt(pre + MarkerSpaced, MarkerSpaced, |pre|) by {
      assert (pre + MarkerSpaced)[|pre|..|pre| + |MarkerSpaced|] == MarkerSpaced;
    }
    FindAt(pre + MarkerSpaced, MarkerSpaced, |pre|);
    FindPrefixed(pre, MarkerSpaced, rest);
  }

  /** All but the last character, and all but the first. */
  function DropLast(s: string): string { if |s| == 0 then s else s[..|s| - 1] }
  function DropFirst(s: string): string { if |s| == 0 then s else s[1..] }

  /** The intended pass on a comment laid out as `CommentLayout` says. */
  lemma DeversionSplice(data: string, pre: string, end: nat, post: string)
    requires FindMarker(data).Some? && FindMarker(data).value == |pre|
    requires |pre| + 10 < end && OccursAt(data, CommentEnd, end)
    requires forall k :: |pre| + 12 <= k < end + 2 ==> data[k] != '>'
    requires data[..|pre|] == pre && data[end + 3..] == post
    ensures Deversion(data) == DropLast(pre) + DropFirst(post)
  {
    assert Deversion(data) == data[..if |pre| == 0 then 0 else |pre| - 1] + PySuffix(data, end + 4) by {
      CommentScans(data, |pre|, end);
      DeversionAt(data, |pre|, end);
    }
    assert data[..if |pre| == 0 then 0 else |pre| - 1] == DropLast(pre);
    assert PySuffix(data, end + 4) == DropFirst(post);
  }

  /** The pass as written on the same layout. */
  lemma DeversionAsWrittenSplice(data: string, pre: string, end: nat, post: string)
    requires FindMarker(data).Some? && FindMarker(data).value == |pre|
    requires |pre| + 10 < end && OccursAt(data, CommentEnd, end)
    requires forall k :: |pre| + 12 <= k < end + 2 ==> data[k] != '>'
    requires data[end + 3..] == post
    ensures |post| >= 2 ==> DeversionAsWritten(data) == PyPrefix(data, |pre| - 1) + DropFirst(post)
    ensures |post| <= 1 ==> DeversionAsWritten(data) == data
  {
    var r := CloseScan(data, |pre| + 10);
    CommentScans(data, |pre|, end);
    if |post| >= 2 {
      assert r == end;
      assert DeversionAsWritten(data) == PyPrefix(data, |pre| - 1) + PySuffix(data, r + 4) by {
        DeversionAsWrittenAt(data, |pre|, r);
      }
      assert PySuffix(data, r + 4) == DropFirst(post);
    } else {
      assert !OccursAt(data, CommentEnd, r);
      DeversionAsWrittenAt(data, |pre|, r);
    }
  }

  /** The marker of a file holding a version comment after `pre`. */
  lemma VersionMarker(pre: string, mid: string, post: string)
    requires forall j :: 0 <= j < |pre| ==> !OccursAt(pre + MarkerSpaced, MarkerSpaced, j)
    ensures var data := pre + MarkerSpaced + mid + CommentEnd + post;
      FindMarker(data).Some? && FindMarker(data).value == |pre|
  {
    var rest := mid + CommentEnd + post;
    assert pre + MarkerSpaced + mid + CommentEnd + post == pre + MarkerSpaced + rest;
    MarkerAfter(pre, rest);
  }

  /** Where the pieces of a file holding a version comment after `pre` lie. */
  lemma VersionLayout(pre: string, mid: string, post: string)
    requires forall j :: 0 <= j < |pre| ==> !OccursAt(pre + MarkerSpaced, MarkerSpaced, j)
    requires forall j :: 0 <= j < |mid| ==> mid[j] != '>'
    ensures var data := pre + MarkerSpaced + mid + CommentEnd + post;
      var end := |pre| + 22 + |mid|;
      && FindMarker(data).Some? && FindMarker(data).value == |pre|
      && OccursAt(data, CommentEnd, end)
      && (forall k :: |pre| + 12 <= k < end + 2 ==> data[k] != '>')
      && data[..|pre|] == pre
      && data[end + 3..] == post
  {
    MarkerShape();
    CommentLayout(pre, mid, post);
    VersionMarker(pre, mid, post);
  }

  /** The version comment goes, with the character before it and the one
      after it (normally the line breaks around it), and nothing else. */
  lemma DeversionRemovesComment(pre: string, mid: string, post: string)
    requires forall j :: 0 <= j < |pre| ==> !OccursAt(pre + MarkerSpaced, MarkerSpaced, j)
    requires forall j :: 0 <= j < |mid| ==> mid[j] != '>'
    ensures Deversion(pre + MarkerSpaced + mid + CommentEnd + post) == DropLast(pre) + DropFirst(post)
  {
    VersionLayout(pre, mid, post);
    DeversionSplice(pre + MarkerSpaced + mid + CommentEnd + post, pre, |pre| + 22 + |mid|, post);
  }

  /** As written, a comment at the very start of the data survives: with
      `start == 0`, `data[:start-1]` is `data[:-1]`, nearly all of the data. */
  lemma DeversionAsWrittenAtStart(mid: string, post: string)
    requires forall j :: 0 <= j < |mid| ==> mid[j] != '>'
    requires |post| >= 2
    ensures var data := MarkerSpaced + mid + CommentEnd + post;
      && DeversionAsWritten(data) == data[..|data| - 1] + post[1..]
      && Deversion(data) == post[1..]
  {
    var data := MarkerSpaced + mid + CommentEnd + post;
    assert [] + MarkerSpaced == MarkerSpaced;
    VersionLayout([], mid, post);
    DeversionAtStartSplice(data, 22 + |mid|, post);
  }

  /** Both versions of the pass on a comment that starts the data. */
  lemma DeversionAtStartSplice(data: string, end: nat, post: string)
    requires FindMarker(data).Some? && FindMarker(data).value == 0
    requires 10 < end && OccursAt(data, CommentEnd, end)
    requires forall k :: 12 <= k < end + 2 ==> data[k] != '>'
    requires data[end + 3..] == post && |post| >= 2
    ensures DeversionAsWritten(data) == data[..|data| - 1] + post[1..]
    ensures Deversion(data) == post[1..]
  {
    assert Deversion(data) == post[1..] by {
      DeversionSplice(data, [], end, post);
    }
    assert DeversionAsWritten(data) == data[..|data| - 1] + post[1..] by {
      DeversionAsWrittenSplice(data, [], end, post);
      assert PyPrefix(data, -1) == data[..|data| - 1];
    }
  }

  /** As written, a comment whose `-->` lies in the last four characters
      survives: the scan for it stops at `len(data) - 5`. */
  lemma DeversionAsWrittenAtEnd(pre: string, mid: string, post: string)
    requires forall j :: 0 <= j < |pre| ==> !OccursAt(pre + MarkerSpaced, MarkerSpaced, j)
    requires forall j :: 0 <= j < |mid| ==> mid[j] != '>'
    requires |post| <= 1
    ensures var data := pre + MarkerSpaced + mid + CommentEnd + post;
      && DeversionAsWritten(data) == data
      && Deversion(data) == DropLast(pre)
  {
    var data := pre + MarkerSpaced + mid + CommentEnd + post;
    VersionLayout(pre, mid, post);
    assert Deversion(data) == DropLast(pre) by {
      DeversionSplice(data, pre, |pre| + 22 + |mid|, post);
      assert DropFirst(post) == [];
    }
    assert DeversionAsWritten(data) == data by {
      DeversionAsWrittenSplice(data, pre, |pre| + 22 + |mid|, post);
    }
  }

  // ---------------------------------------------------------------------
  // fixexponent_file()
  // ---------------------------------------------------------------------

  const ExpMark: string := "e+0"

  /** `p` in front of a successful result; a failure stays a failure. */
  function Prefixed(p: string, o: Option<string>): (r: Option<string>)
    ensures r.Some? <==> o.Some?
    ensures r.Some? ==> |r.value| == |p| + |o.value| && r.value[..|p|] == p && r.value[|p|..] == o.value
  {
    if o.Some? then Some(p + o.value) else None
  }

  lemma PrefixedTwice(p: string, q: string, o: Option<string>)
    ensures Prefixed(p, Prefixed(q, o)) == Prefixed(p + q, o)
  {
    if o.Some? {
      assert p + (q + o.value) == p + q + o.value;
    }
  }

  /** The loop of `fixexponent_file` from index `from`: the next `e+0` is
      looked for and handled by `FixAt`. */
  function FixFrom(data: string, from: nat): (r: Option<string>)
    requires from <= |data|
    ensures r.Some? ==> |r.value| <= |data|
    decreases |data| - from, 1
  {
    FixAt(data, FindFrom(data, ExpMark, from))
  }

  /** One turn of the loop on the `e+0` at `hit`: it is checked for two
      digits and a quote after it, and the `0` is deleted when they are
      there; the search resumes three characters on. Looking past the end
      of the data raises `IndexError`, here `None`. */
  function FixAt(data: string, hit: Option<nat>): (r: Option<string>)
    requires hit.Some? ==> hit.value + 3 <= |data|
    ensures r.Some? ==> |r.value| <= |data|
    decreases if hit.Some? then |data| - hit.value else 0, 0
  {
    if hit.None? then Some(data)
    else
      var start := hit.value;
      if |data| <= start + 3 then None
      else if !IsDigit(data[start + 3]) then FixFrom(data, start + 3)
      else if |data| <= start + 4 then None
      else if !IsDigit(data[start + 4]) then FixFrom(data, start + 3)
      else if |data| <= start + 5 then None
      else if data[start + 5] != '"' then FixFrom(data, start + 3)
      else FixFrom(data[..start + 2] + data[start + 3..], start + 3)
  }

  function FixExponent(data: string): (r: Option<string>)
    ensures r.Some? ==> |r.value| <= |data|
  {
    FixFrom(data, 0)
  }

  /** A reference reading of the pass, one character or one `e+0` at a time
      from the front. */
  function Fix(s: string): (r: Option<string>)
    ensures r.Some? ==> |r.value| <= |s|
    decreases |s|
  {
    if |s| == 0 then Some(s)
    else if StartsWith(s, ExpMark) then
      if |s| == 3 then None
      else if !IsDigit(s[3]) then Prefixed(ExpMark, Fix(s[3..]))
      else if |s| == 4 then None
      else if !IsDigit(s[4]) then Prefixed(ExpMark, Fix(s[3..]))
      else if |s| == 5 then None
      else if s[5] != '"' then Prefixed(ExpMark, Fix(s[3..]))
      else Prefixed("e+" + [s[3]], Fix(s[4..]))
    else Prefixed([s[0]], Fix(s[1..]))
  }

  /** The scan from `i` leaves `data[..i]` alone and treats the rest as the
      reference reading does. */
  ghost predicate FixAgreesFrom(data: string, i: nat)
    requires i <= |data|
  {
    FixFrom(data, i) == Prefixed(data[..i], Fix(data[i..]))
  }

  lemma FixMarkFound(data: string, i: nat)
    requires i < |data| && StartsWith(data[i..], ExpMark)
    ensures FindFrom(data, ExpMark, i).Some? && FindFrom(data, ExpMark, i).value == i
  {
    assert data[i..i + 3] == data[i..][..3];
  }

  /** An `e+0` that is not rewritten is kept and skipped. */
  lemma FixCaseKeep(data: string, i: nat)
    requires i + 5 < |data| || (i + 4 < |data| && !IsDigit(data[i + 4])) || (i + 3 < |data| && !IsDigit(data[i + 3]))
    requires i < |data| && StartsWith(data[i..], ExpMark)
    requires !IsDigit(data[i + 3]) || !IsDigit(data[i + 4]) || data[i + 5] != '"'
    requires FixAgreesFrom(data, i + 3)
    ensures FixAgreesFrom(data, i)
  {
    var s := data[i..];
    FixMarkFound(data, i);
    assert FixFrom(data, i) == FixFrom(data, i + 3);
    assert Fix(s) == Prefixed(ExpMark, Fix(s[3..]));
    assert data[..i + 3] == data[..i] + ExpMark;
    assert data[i + 3..] == s[3..];
    PrefixedTwice(data[..i], ExpMark, Fix(s[3..]));
  }

  /** An `e+0DD"` loses its `0` and the scan goes on after the first digit. */
  lemma FixCaseRewrite(data: string, i: nat)
    requires i + 5 < |data| && StartsWith(data[i..], ExpMark)
    requires IsDigit(data[i + 3]) && IsDigit(data[i + 4]) && data[i + 5] == '"'
    requires FixAgreesFrom(data[..i + 2] + data[i + 3..], i + 3)
    ensures FixAgreesFrom(data, i)
  {
    var s := data[i..];
    var next := data[..i + 2] + data[i + 3..];
    FixMarkFound(data, i);
    assert FixFrom(data, i) == FixFrom(next, i + 3);
    assert Fix(s) == Prefixed("e+" + [s[3]], Fix(s[4..]));
    assert data[i] == 'e' && data[i + 1] == '+' by {
      assert s[..3] == ExpMark;
      assert s[..3][0] == s[0] && s[..3][1] == s[1];
    }
    assert next[..i + 3] == data[..i] + ("e+" + [s[3]]);
    assert next[i + 3..] == s[4..];
    PrefixedTwice(data[..i], "e+" + [s[3]], Fix(s[4..]));
  }

  /** An `e+0` too near the end to check raises on both readings. */
  lemma FixCaseShort(data: string, i: nat)
    requires i < |data| && StartsWith(data[i..], ExpMark)
    requires |data| == i + 3 || (|data| == i + 4 && IsDigit(data[i + 3]))
      || (|data| == i + 5 && IsDigit(data[i + 3]) && IsDigit(data[i + 4]))
    ensures FixAgreesFrom(data, i)
  {
    FixMarkFound(data, i);
    assert FixFrom(data, i).None?;
  }

  /** Any other character is kept. */
  lemma FixCaseOther(data: string, i: nat)
    requires i < |data| && !StartsWith(data[i..], ExpMark)
    requires FixAgreesFrom(data, i + 1)
    ensures FixAgreesFrom(data, i)
  {
    var s := data[i..];
    assert i + 3 <= |data| ==> data[i..i + 3] == s[..3];
    assert FindFrom(data, ExpMark, i) == FindFrom(data, ExpMark, i + 1);
    assert data[..i + 1] == data[..i] + [s[0]];
    assert data[i + 1..] == s[1..];
    PrefixedTwice(data[..i], [s[0]], Fix(s[1..]));
  }

  lemma {:induction false} FixFromMatchesFix(data: string, i: nat)
    requires i <= |data|
    ensures FixAgreesFrom(data, i)
    decreases |data| - i
  {
    if i == |data| {
      assert data[..i] + [] == data;
    } else if !StartsWith(data[i..], ExpMark) {
      FixFromMatchesFix(data, i + 1);
      FixCaseOther(data, i);
    } else if |data| == i + 3 || (|data| == i + 4 && IsDigit(data[i + 3]))
      || (|data| == i + 5 && IsDigit(data[i + 3]) && IsDigit(data[i + 4])) {
      FixCaseShort(data, i);
    } else if !IsDigit(data[i + 3]) || !IsDigit(data[i + 4]) || data[i + 5] != '"' {
      FixFromMatchesFix(data, i + 3);
      FixCaseKeep(data, i);
    } else {
      FixFromMatchesFix(data[..i + 2] + data[i + 3..], i + 3);
      FixCaseRewrite(data, i);
    }
  }

  /** The pass agrees with the reference reading on every input. */
  lemma FixExponentMatchesFix(data: string)
    ensures FixExponent(data) == Fix(data)
  {
    FixFromMatchesFix(data, 0);
    assert FixAgreesFrom(data, 0);
    assert data[..0] == [] && data[0..] == data;
    if Fix(data).Some? {
      assert [] + Fix(data).value == Fix(data).value;
    }
  }

  /** Text holding no `e` passes through unchanged. */
  lemma {:induction false} FixPlain(x: string, y: string)
    requires forall k :: 0 <= k < |x| ==> x[k] != 'e'
    ensures Fix(x + y) == Prefixed(x, Fix(y))
    decreases |x|
  {
    if |x| == 0 {
      assert x + y == y;
      if Fix(y).Some? {
        assert [] + Fix(y).value == Fix(y).value;
      }
    } else {
      var s := x + y;
      assert s[0] == x[0] && !StartsWith(s, ExpMark);
      assert s[1..] == x[1..] + y;
      FixPlain(x[1..], y);
      PrefixedTwice([x[0]], x[1..], Fix(y));
      assert [x[0]] + x[1..] == x;
    }
  }

  /** Each `e+0DD"` loses its `0`, whatever follows. */
  lemma FixRewrites(a: char, b: char, rest: string)
    requires IsDigit(a) && IsDigit(b)
    ensures Fix(ExpMark + [a, b, '"'] + rest) == Prefixed(['e', '+', a, b, '"'], Fix(rest))
  {
    var s := ExpMark + [a, b, '"'] + rest;
    assert StartsWith(s, ExpMark) by {
      assert s[..3] == ExpMark;
    }
    assert s[3] == a && s[4] == b && s[5] == '"';
    assert s[4..] == [b, '"'] + rest;
    FixPlain([b, '"'], rest);
    PrefixedTwice("e+" + [a], [b, '"'], Fix(rest));
    assert "e+" + [a] + [b, '"'] == ['e', '+', a, b, '"'];
  }

  // ---------------------------------------------------------------------
  // truncate_one_decimal()
  // ---------------------------------------------------------------------

  /** The bounds of `{6,24}` in the pattern `[0-9]+\.[0-9]{6,24}`. */
  const MinFraction: nat := 6
  const MaxFraction: nat := 24

  /** Where the run of digits starting at `i` ends. */
  function DigitsEnd(s: string, i: nat): (r: nat)
    requires i <= |s|
    ensures i <= r <= |s|
    decreases |s| - i
  {
    if i < |s| && IsDigit(s[i]) then DigitsEnd(s, i + 1) else i
  }

  /** The run holds digits only and stops at a non-digit or the end. */
  lemma {:induction false} DigitsEndRun(s: string, i: nat)
    requires i <= |s|
    ensures DigitsIn(s, i, DigitsEnd(s, i))
    ensures DigitsEnd(s, i) < |s| ==> !IsDigit(s[DigitsEnd(s, i)])
    decreases |s| - i
  {
    if i < |s| && IsDigit(s[i]) {
      DigitsEndRun(s, i + 1);
    }
  }

  predicate DigitsIn(s: string, a: nat, b: nat) {
    b <= |s| && forall k :: a <= k < b ==> IsDigit(s[k])
  }

  /** `s[p..e]` is in the pattern's language, with its `.` at `q`. */
  predicate NumberAt(s: string, p: nat, q: nat, e: nat) {
    && p < q < e <= |s|
    && DigitsIn(s, p, q) && s[q] == '.' && DigitsIn(s, q + 1, e)
    && MinFraction <= e - q - 1 <= MaxFraction
  }

  /** The fraction ending at `e` cannot be extended. */
  predicate Longest(s: string, q: nat, e: nat)
    requires e <= |s|
  {
    e - q - 1 == MaxFraction || e == |s| || !IsDigit(s[e])
  }

  /** The end of the match of the pattern starting at `p`, if any: the
      digits before the point are all taken (a shorter run is followed by
      a digit, not a point), and the fraction greedily, up to 24 digits. */
  function MatchAt(s: string, p: nat): (r: Option<nat>)
    requires p <= |s|
    ensures r.Some? ==> p + 1 + MinFraction < r.value <= |s|
  {
    var q := DigitsEnd(s, p);
    if q == p || q == |s| || s[q] != '.' then None
    else
      var e := DigitsEnd(s, q + 1);
      if e - (q + 1) < MinFraction then None
      else Some(if e - (q + 1) > MaxFraction then q + 1 + MaxFraction else e)
  }

  /** A run of digits ends where the first non-digit is. */
  lemma {:induction false} DigitsEndAt(s: string, i: nat, e: nat)
    requires i <= e && DigitsIn(s, i, e)
    ensures e <= DigitsEnd(s, i)
    ensures e < |s| && !IsDigit(s[e]) ==> DigitsEnd(s, i) == e
    decreases e - i
  {
    if i < e {
      DigitsEndAt(s, i + 1, e);
    }
  }

  /** What `MatchAt` finds is a longest match of the pattern at `p`. */
  lemma MatchAtSound(s: string, p: nat)
    requires p <= |s| && MatchAt(s, p).Some?
    ensures NumberAt(s, p, DigitsEnd(s, p), MatchAt(s, p).value)
    ensures Longest(s, DigitsEnd(s, p), MatchAt(s, p).value)
  {
    DigitsEndRun(s, p);
    DigitsEndRun(s, DigitsEnd(s, p) + 1);
  }

  /** Every match of the pattern at `p` is seen by `MatchAt`, which takes
      the longest. */
  lemma MatchAtComplete(s: string, p: nat, q: nat, e: nat)
    requires NumberAt(s, p, q, e)
    ensures MatchAt(s, p).Some? && DigitsEnd(s, p) == q
    ensures e <= MatchAt(s, p).value
    ensures Longest(s, q, e) ==> MatchAt(s, p).value == e
  {
    DigitsEndAt(s, p, q);
    DigitsEndAt(s, q + 1, e);
  }

  datatype Span = Span(start: nat, end: nat)

  /** `finditer`'s next match at or after `from`. */
  function NextMatch(s: string, from: nat): (r: Option<Span>)
    requires from <= |s|
    ensures r.Some? ==> from <= r.value.start < r.value.end <= |s|
    decreases |s| - from
  {
    var m := MatchAt(s, from);
    if m.Some? then Some(Span(from, m.value))
    else if from == |s| then None
    else NextMatch(s, from + 1)
  }

  /** The match found is the leftmost one. */
  lemma {:induction false} NextMatchLeftmost(s: string, from: nat)
    requires from <= |s|
    ensures NextMatch(s, from).Some? ==>
      var m := NextMatch(s, from).value;
      && MatchAt(s, m.start).Some? && MatchAt(s, m.start).value == m.end
      && forall p :: from <= p < m.start ==> MatchAt(s, p).None?
    ensures NextMatch(s, from).None? ==> forall p :: from <= p <= |s| ==> MatchAt(s, p).None?
    decreases |s| - from
  {
    if MatchAt(s, from).None? && from < |s| {
      NextMatchLeftmost(s, from + 1);
    }
  }

  /** The loop of `truncate_one_decimal` from `from` on: the text up to
      each match's last character, and the end of the last match. */
  function Pieces(s: string, from: nat): (r: (string, nat))
    requires from <= |s|
    ensures from <= r.1 <= |s|
    decreases |s| - from
  {
    var m := NextMatch(s, from);
    if m.None? then ("", from)
    else
      var rest := Pieces(s, m.value.end);
      (s[from..m.value.end - 1] + rest.0, rest.1)
  }

  /** `truncate_one_decimal`: the pieces and the tail after the last match,
      or the data itself when nothing was collected. */
  function TruncateOneDecimal(s: string): string {
    var (built, start) := Pieces(s, 0);
    if built == "" then s else built + s[start..]
  }

  /** The reference reading: from `from` on, each match loses its last
      character and all else is kept. */
  function TruncFrom(s: string, from: nat): (r: string)
    requires from <= |s|
    ensures |r| <= |s| - from
    decreases |s| - from
  {
    var m := NextMatch(s, from);
    if m.None? then s[from..]
    else s[from..m.value.end - 1] + TruncFrom(s, m.value.end)
  }

  /** The pieces and the tail make up the reference reading. */
  lemma {:induction false} PiecesMakeTruncFrom(s: string, from: nat)
    requires from <= |s|
    ensures Pieces(s, from).0 + s[Pieces(s, from).1..] == TruncFrom(s, from)
    decreases |s| - from
  {
    var m := NextMatch(s, from);
    if m.Some? {
      var e := m.value.end;
      var rest := Pieces(s, e);
      var head := s[from..e - 1];
      calc {
        Pieces(s, from).0 + s[Pieces(s, from).1..];
        == { assert Pieces(s, from) == (head + rest.0, rest.1); }
        (head + rest.0) + s[rest.1..];
        == { assert (head + rest.0) + s[rest.1..] == head + (rest.0 + s[rest.1..]); }
        head + (rest.0 + s[rest.1..]);
        == { PiecesMakeTruncFrom(s, e); }
        head + TruncFrom(s, e);
        == { assert TruncFrom(s, from) == head + TruncFrom(s, e); }
        TruncFrom(s, from);
      }
    } else {
      assert "" + s[from..] == s[from..];
    }
  }

  /** A match costs a character, and leaves a piece before it. */
  lemma TruncFromShortens(s: string, from: nat)
    requires from <= |s| && NextMatch(s, from).Some?
    ensures |TruncFrom(s, from)| < |s| - from
    ensures Pieces(s, from).0 != ""
  {
    var m := NextMatch(s, from).value;
    assert |s[from..m.end - 1]| > 0;
  }

  /** The pass removes the last character of each match and keeps the
      rest; the guard on an empty result changes nothing. */
  lemma TruncateMatchesTruncFrom(s: string)
    ensures TruncateOneDecimal(s) == TruncFrom(s, 0)
  {
    PiecesMakeTruncFrom(s, 0);
    if NextMatch(s, 0).Some? {
      TruncFromShortens(s, 0);
    }
    assert s[0..] == s;
  }

  /** The data is left as it is exactly when the pattern never matches. */
  lemma TruncateUnchangedIff(s: string)
    ensures TruncateOneDecimal(s) == s <==> NextMatch(s, 0).None?
  {
    TruncateMatchesTruncFrom(s);
    if NextMatch(s, 0).Some? {
      TruncFromShortens(s, 0);
    } else {
      assert s[0..] == s;
    }
  }

  // ---------------------------------------------------------------------
  // The passes run_tests applies to a result file
  // ---------------------------------------------------------------------

  /** Demime when asked, then the version, exponent and decimal passes when
      asked, then CR LF. Only the exponent pass can raise. The version pass
      is the corrected one. */
  function PostProcess(data: string, demime: bool, deversion: bool): (r: Option<string>)
    ensures r.None? ==> deversion
    ensures !deversion && Nul in data && !demime ==> r == Some(data)
  {
    var a := if demime then Demime(data) else data;
    if !deversion then Some(Crlf(a))
    else
      var b := FixExponent(Deversion(a));
      if b.None? then None else Some(Crlf(TruncateOneDecimal(b.value)))
  }

  /** A plain text result only has its line ends normalised. */
  lemma PostProcessLines(lines: seq<string>)
    requires forall k :: 0 <= k < |lines| ==> forall j :: 0 <= j < |lines[k]| ==> lines[k][j] != '\r' && lines[k][j] != Nul
    ensures PostProcess(JoinWith(lines, CrLf), false, false) == Some(JoinWith(lines, "\n"))
  {
    CrlfNormalises(lines);
  }
}
