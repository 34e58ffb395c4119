/**
 * Projection helpers of mapproject.c: comparing two projections by their
 * PROJ arguments, writing the arguments back as one definition string, and
 * the file finder that resolves PROJ support files against PROJ_LIB.
 */
module MapProject {
  import opened Wrappers
  import opened CStrings
  import MapString
  import MapFile

  /** The parts of a projectionObj these helpers read: its PROJ arguments
      and whether a geotransform is needed. */
  datatype Projection = Projection(args: seq<string>, needGeotransform: bool)

  // ---------------------------------------------------------------------
  // msProjectionsDiffer
  // ---------------------------------------------------------------------

  /** The argument comparison loop from index `i` on: true at the first
      index where the two lists hold different text. */
  function ArgsDifferFrom(a: seq<string>, b: seq<string>, i: nat): (r: bool)
    requires |a| == |b| && i <= |a|
    ensures r <==> exists k :: i <= k < |a| && a[k] != b[k]
    decreases |a| - i
  {
    if i == |a| then false
    else if a[i] != b[i] then true
    else ArgsDifferFrom(a, b, i + 1)
  }

  /** `msProjectionsDiffer`: never for a projection without arguments;
      always when the argument counts differ or a geotransform is needed;
      otherwise exactly when the argument lists differ. */
  function ProjectionsDiffer(p1: Projection, p2: Projection): (r: bool)
    ensures |p1.args| == 0 || |p2.args| == 0 ==> !r
    ensures |p1.args| > 0 && |p2.args| > 0 ==>
              (r <==> p1.args != p2.args || p1.needGeotransform || p2.needGeotransform)
  {
    if |p1.args| == 0 || |p2.args| == 0 then false
    else if |p1.args| != |p2.args| then true
    else if p1.needGeotransform || p2.needGeotransform then true
    else
      var r := ArgsDifferFrom(p1.args, p2.args, 0);
      assert !r ==> p1.args == p2.args;
      r
  }

  /** A projection never differs from itself unless it needs a geotransform. */
  lemma ProjectionsDifferIrreflexive(p: Projection)
    requires !p.needGeotransform
    ensures !ProjectionsDiffer(p, p)
  {
  }

  /** With a geotransform and at least one argument, a projection differs
      from itself. */
  lemma ProjectionsDifferGeotransform(p: Projection)
    requires p.needGeotransform && |p.args| > 0
    ensures ProjectionsDiffer(p, p)
  {
  }

  /** The comparison does not depend on the order of its arguments. */
  lemma ProjectionsDifferSymmetric(p1: Projection, p2: Projection)
    ensures ProjectionsDiffer(p1, p2) == ProjectionsDiffer(p2, p1)
  {
  }

  // ---------------------------------------------------------------------
  // msGetProjectionString
  // ---------------------------------------------------------------------

  /** An argument as it appears in the definition: with a leading '+'. */
  function PlusArg(a: string): (r: string)
    requires |a| > 0
    ensures |r| > 0 && r[0] == '+'
    ensures r == a || r == "+" + a
  {
    if a[0] == '+' then a else "+" + a
  }

  /** The non-empty arguments, each with its leading '+'. */
  function Prefixed(args: seq<string>): (r: seq<string>)
    ensures |r| <= |args|
    ensures forall k :: 0 <= k < |r| ==> |r[k]| > 0 && r[k][0] == '+'
  {
    if |args| == 0 then []
    else if |args[0]| == 0 then Prefixed(args[1..])
    else [PlusArg(args[0])] + Prefixed(args[1..])
  }

  /** What the loop of msGetProjectionString puts before a non-empty
      argument: "+" when it is the first and lacks one, nothing when it is
      the first and has one, " +" or " " after earlier text. */
  function Separator(acc: string, a: string): string
    requires |a| > 0
  {
    if |acc| == 0 then (if a[0] != '+' then "+" else "")
    else (if a[0] != '+' then " +" else " ")
  }

  /** The loop of msGetProjectionString: each non-empty argument is
      appended to `acc` after its separator. */
  function Plug(acc: string, args: seq<string>): string
    decreases |args|
  {
    if |args| == 0 then acc
    else if |args[0]| == 0 then Plug(acc, args[1..])
    else Plug(acc + Separator(acc, args[0]) + args[0], args[1..])
  }

  /** `msGetProjectionString`: NULL for a NULL projection, otherwise the
      arguments plugged into an empty string. */
  function GetProjectionString(proj: Option<Projection>): (r: Option<string>)
    ensures r.Some? <==> proj.Some?
  {
    match proj
    case None => None
    case Some(p) => Some(Plug("", p.args))
  }

  /** A separator and its argument together: the argument with its '+',
      after a space unless nothing precedes it. */
  lemma SeparatorPlus(acc: string, a: string)
    requires |a| > 0
    ensures acc + Separator(acc, a) + a ==
              (if |acc| == 0 then PlusArg(a) else acc + " " + PlusArg(a))
  {
    if |acc| > 0 && a[0] != '+' {
      assert acc + " +" + a == acc + " " + ("+" + a);
    }
  }

  /** The text after `acc` when the joined rest follows `p`. */
  function Continue(acc: string, rest: seq<string>): string {
    if |rest| == 0 then acc
    else if |acc| == 0 then JoinWith(rest, " ")
    else acc + " " + JoinWith(rest, " ")
  }

  /** Appending `p` and then the joined rest is appending the join of both. */
  lemma ContinueCons(acc: string, p: string, rest: seq<string>)
    requires |p| > 0
    ensures Continue(if |acc| == 0 then p else acc + " " + p, rest) == Continue(acc, [p] + rest)
  {
    if |rest| > 0 {
      JoinCons(p, rest, " ");
      if |acc| > 0 {
        assert acc + " " + p + " " + JoinWith(rest, " ") == acc + " " + (p + " " + JoinWith(rest, " "));
      }
    } else {
      assert JoinWith([p], " ") == p;
    }
  }

  /** The loop joins the prefixed arguments with single spaces after
      whatever text it started with. */
  lemma {:induction false} PlugJoins(acc: string, args: seq<string>)
    ensures Plug(acc, args) == Continue(acc, Prefixed(args))
    decreases |args|
  {
    if |args| > 0 {
      var a := args[0];
      if |a| == 0 {
        PlugJoins(acc, args[1..]);
      } else {
        var next := acc + Separator(acc, a) + a;
        SeparatorPlus(acc, a);
        PlugJoins(next, args[1..]);
        ContinueCons(acc, PlusArg(a), Prefixed(args[1..]));
      }
    }
  }

  /** The string is the non-empty arguments, each with a leading '+',
      separated by single spaces; NULL only for a NULL projection. */
  lemma GetProjectionStringJoins(p: Projection)
    ensures GetProjectionString(Some(p)) == Some(JoinWith(Prefixed(p.args), " "))
  {
    PlugJoins("", p.args);
    if |Prefixed(p.args)| == 0 {
      assert JoinWith(Prefixed(p.args), " ") == "";
    }
  }

  /** Arguments that are non-empty and lack a '+' all get one prefixed. */
  lemma {:induction false} PrefixedPlain(args: seq<string>)
    requires forall k :: 0 <= k < |args| ==> |args[k]| > 0 && '+' !in args[k]
    ensures |Prefixed(args)| == |args|
    ensures forall k :: 0 <= k < |args| ==> Prefixed(args)[k] == "+" + args[k]
    decreases |args|
  {
    if |args| > 0 {
      PrefixedPlain(args[1..]);
      assert args[0][0] in args[0];
    }
  }

  /** Joining "+a", "+b", … with spaces is "+" followed by a, b, …
      joined with " +". */
  lemma {:induction false} JoinPrefixed(args: seq<string>)
    requires |args| >= 1
    requires forall k :: 0 <= k < |args| ==> |args[k]| > 0 && '+' !in args[k]
    ensures JoinWith(Prefixed(args), " ") == "+" + JoinWith(args, " +")
    decreases |args|
  {
    PrefixedPlain(args);
    if |args| > 1 {
      var rest := args[1..];
      JoinPrefixed(rest);
      PrefixedPlain(rest);
      assert Prefixed(args) == ["+" + args[0]] + Prefixed(rest);
      JoinCons("+" + args[0], Prefixed(rest), " ");
      JoinCons(args[0], rest, " +");
      assert args == [args[0]] + rest;
    }
  }

  /** Removing the white space from a join with " +" gives the join with "+". */
  lemma {:induction false} DropSpacesJoinPlus(args: seq<string>)
    requires forall k :: 0 <= k < |args| ==> MapFile.NoSpace(args[k])
    ensures MapFile.DropSpaces(JoinWith(args, " +")) == JoinWith(args, "+")
    decreases |args|
  {
    if |args| == 1 {
      MapFile.DropSpacesNone(args[0]);
    } else if |args| > 1 {
      var rest := args[1..];
      DropSpacesJoinPlus(rest);
      MapFile.DropSpacesNone(args[0]);
      MapFile.DropSpacesConcat(args[0] + " +", JoinWith(rest, " +"));
      MapFile.DropSpacesConcat(args[0], " +");
      assert MapFile.DropSpaces(" +") == "+" by {
        assert " +"[1..] == "+";
        assert "+"[1..] == "";
      }
    }
  }

  /** Loading the string msGetProjectionString writes gives back the
      arguments, when they are non-empty and free of '+' and white space. */
  lemma GetProjectionStringRoundTrip(p: Projection)
    requires |p.args| >= 1
    requires forall k :: 0 <= k < |p.args| ==>
               |p.args[k]| > 0 && '+' !in p.args[k] && MapFile.NoSpace(p.args[k])
    ensures MapFile.ProjectionArgs(GetProjectionString(Some(p)).value) == p.args
  {
    var args := p.args;
    GetProjectionStringJoins(p);
    JoinPrefixed(args);
    var value := "+" + JoinWith(args, " +");
    assert GetProjectionString(Some(p)).value == value;
    assert value[1..] == JoinWith(args, " +");
    DropSpacesJoinPlus(args);
    MapString.SplitJoin(args, '+');
  }

  // ---------------------------------------------------------------------
  // msProjFinder
  // ---------------------------------------------------------------------

  /** `msProjFinder`: NULL for a NULL file name; the name itself when no
      PROJ_LIB is set; otherwise PROJ_LIB, '/', and the name. */
  function ProjFinder(filename: Option<string>, projLib: Option<string>): (r: Option<string>)
    ensures r.Some? <==> filename.Some?
    ensures r.Some? ==> |r.value| >= |filename.value| &&
                        r.value[|r.value| - |filename.value|..] == filename.value
    ensures r.Some? && projLib.None? ==> r == filename
    ensures r.Some? && projLib.Some? ==>
              |r.value| == |projLib.value| + 1 + |filename.value| &&
              r.value[..|projLib.value|] == projLib.value && r.value[|projLib.value|] == '/'
  {
    match filename
    case None => None
    case Some(f) =>
      match projLib
      case None => Some(f)
      case Some(lib) => Some(lib + "/" + f)
  }

  /** After PROJ_LIB is set through msSetConfigOption, in any case, a
      support file is looked up under that directory. */
  lemma ProjFinderAfterSetConfig(c: MapFile.Config, key: string, dir: string, f: string)
    requires EqualFold(key, "PROJ_LIB")
    ensures ProjFinder(Some(f), MapFile.SetConfigOption(c, key, dir).projLib) == Some(dir + "/" + f)
  {
  }
}
