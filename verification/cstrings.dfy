/** The C library string primitives that the engine's code leans on, stated
    once: ASCII case mapping (`toupper`/`tolower` in the C locale),
    `strcasecmp`/`strncasecmp`, `strstr`/`strchr`/`strrchr`, character
    classes (`isdigit`, `isalnum`, `isspace`, `isxdigit`), delimiter joining
    and `%d` rendering. Strings are `seq<char>`; a C string never holds NUL. */
module CStrings {
  import opened Wrappers

  // ---------------------------------------------------------------------
  // Character classes of the C locale
  // ---------------------------------------------------------------------

  predicate IsDigit(c: char) { '0' <= c <= '9' }
  predicate IsUpper(c: char) { 'A' <= c <= 'Z' }
  predicate IsLowerCase(c: char) { 'a' <= c <= 'z' }
  predicate IsAlpha(c: char) { IsUpper(c) || IsLowerCase(c) }
  predicate IsAlnum(c: char) { IsAlpha(c) || IsDigit(c) }
  predicate IsSpace(c: char) { c == ' ' || c == '\t' || c == '\n' || c == '\r' || c == 11 as char || c == 12 as char }
  predicate IsHexDigit(c: char) { IsDigit(c) || 'a' <= c <= 'f' || 'A' <= c <= 'F' }

  /** Value of a hexadecimal digit, either case. */
  function HexDigitValue(c: char): (v: nat)
    requires IsHexDigit(c)
    ensures v < 16
  {
    if IsDigit(c) then c as int - '0' as int
    else if 'a' <= c <= 'f' then c as int - 'a' as int + 10
    else c as int - 'A' as int + 10
  }

  /** `toupper` and `tolower` of the C locale. */
  function Upper(c: char): char { if IsLowerCase(c) then (c as int - 32) as char else c }
  function Lower(c: char): char { if IsUpper(c) then (c as int + 32) as char else c }

  /** A string that a C `char *` can hold: every character is one byte. */
  predicate IsByteString(s: string) { forall i :: 0 <= i < |s| ==> s[i] as int < 256 }

  // ---------------------------------------------------------------------
  // Comparison
  // ---------------------------------------------------------------------

  /** Every character through `tolower`. */
  function LowerAll(s: string): (r: string)
    ensures |r| == |s|
  {
    if |s| == 0 then [] else [Lower(s[0])] + LowerAll(s[1..])
  }

  /** `tolower` of each character in place. */
  lemma {:induction false} LowerAllAt(s: string)
    ensures forall i :: 0 <= i < |s| ==> LowerAll(s)[i] == Lower(s[i])
    decreases |s|
  {
    if |s| > 0 {
      LowerAllAt(s[1..]);
      assert forall i :: 1 <= i < |s| ==> LowerAll(s)[i] == LowerAll(s[1..])[i - 1];
    }
  }

  /** `tolower` leaves a string without upper-case letters unchanged. */
  lemma {:induction false} LowerAllOfLower(s: string)
    requires forall i :: 0 <= i < |s| ==> !IsUpper(s[i])
    ensures LowerAll(s) == s
    decreases |s|
  {
    if |s| > 0 {
      LowerAllOfLower(s[1..]);
      assert s == [s[0]] + s[1..];
    }
  }

  /** `strcasecmp(a, b) == 0`. */
  predicate EqualFold(a: string, b: string) {
    LowerAll(a) == LowerAll(b)
  }

  /** `strcasecmp` compares character by character after `tolower`. */
  lemma {:induction false} EqualFoldAt(a: string, b: string)
    ensures EqualFold(a, b) <==> |a| == |b| && forall i :: 0 <= i < |a| ==> Lower(a[i]) == Lower(b[i])
    decreases |a|
  {
    if |a| > 0 && |b| > 0 {
      EqualFoldAt(a[1..], b[1..]);
      if |a| == |b| && forall i :: 0 <= i < |a| ==> Lower(a[i]) == Lower(b[i]) {
        forall i | 0 <= i < |a| - 1
          ensures Lower(a[1..][i]) == Lower(b[1..][i])
        {
          assert a[1..][i] == a[i + 1];
        }
      }
      if EqualFold(a, b) {
        assert LowerAll(a)[0] == Lower(a[0]);
        assert LowerAll(a)[1..] == LowerAll(a[1..]);
        assert LowerAll(b)[1..] == LowerAll(b[1..]);
        forall i | 0 <= i < |a|
          ensures Lower(a[i]) == Lower(b[i])
        {
          if i > 0 {
            assert a[i] == a[1..][i - 1];
            assert b[i] == b[1..][i - 1];
          }
        }
      }
    }
  }

  /** `strncmp(s, p, strlen(p)) == 0`. */
  predicate StartsWith(s: string, p: string) { |p| <= |s| && s[..|p|] == p }

  /** `strncasecmp(s, p, strlen(p)) == 0`. */
  predicate StartsWithFold(s: string, p: string) { |p| <= |s| && EqualFold(s[..|p|], p) }

  // ---------------------------------------------------------------------
  // Searching
  // ---------------------------------------------------------------------

  predicate OccursAt(s: string, p: string, i: int) {
    0 <= i && i + |p| <= |s| && s[i..i + |p|] == p
  }

  /** An occurrence cuts `s` into the text before it, `p`, and the text after. */
  lemma OccurrenceSplits(s: string, p: string, i: nat)
    requires OccursAt(s, p, i)
    ensures s == s[..i] + p + s[i + |p|..]
  {
    assert s == s[..i] + s[i..i + |p|] + s[i + |p|..];
  }

  /** `strstr(s + from, p)`: the first occurrence of `p` at or after `from`
      (that it is the first is `FindFromIsFirst`). */
  function FindFrom(s: string, p: string, from: nat): (r: Option<nat>)
    ensures r.Some? ==> from <= r.value && OccursAt(s, p, r.value)
    decreases |s| - from
  {
    if from + |p| > |s| then None
    else if s[from..from + |p|] == p then Some(from)
    else FindFrom(s, p, from + 1)
  }

  lemma {:induction false} FindFromIsFirst(s: string, p: string, from: nat)
    ensures FindFrom(s, p, from).Some? ==> forall j :: from <= j < FindFrom(s, p, from).value ==> !OccursAt(s, p, j)
    ensures FindFrom(s, p, from).None? ==> forall j :: from <= j ==> !OccursAt(s, p, j)
    decreases |s| - from
  {
    if from + |p| <= |s| && s[from..from + |p|] != p {
      FindFromIsFirst(s, p, from + 1);
    }
  }

  /** `strstr(s, p)`. */
  function Find(s: string, p: string): (r: Option<nat>)
    ensures r.Some? ==> OccursAt(s, p, r.value)
  {
    FindFrom(s, p, 0)
  }

  /** `strstr` returns the first occurrence, and NULL only when there is none. */
  lemma FindIsFirst(s: string, p: string)
    ensures Find(s, p).Some? ==> forall j :: 0 <= j < Find(s, p).value ==> !OccursAt(s, p, j)
    ensures Find(s, p).None? <==> forall j :: 0 <= j ==> !OccursAt(s, p, j)
  {
    FindFromIsFirst(s, p, 0);
  }

  /** An occurrence with none before it is what `strstr` finds. */
  lemma FindAt(s: string, p: string, i: nat)
    requires OccursAt(s, p, i)
    requires forall j :: 0 <= j < i ==> !OccursAt(s, p, j)
    ensures Find(s, p) == Some(i)
  {
    FindIsFirst(s, p);
  }

  /** Concatenation is associative; stated once so that proofs about
      recursive string functions need not rediscover it. */
  lemma {:induction false} Assoc(u: string, v: string, w: string)
    ensures u + (v + w) == (u + v) + w
  {
  }

  /** A position found in a suffix, moved to the whole string. */
  function Shift(o: Option<nat>, n: nat): (r: Option<nat>)
    ensures r.Some? <==> o.Some?
    ensures r.Some? ==> r.value == o.value + n
  {
    match o
    case Some(i) => Some(n + i)
    case None => None
  }

  /** Searching `x + y` from inside `y` is searching `y`. */
  lemma {:induction false} FindFromShift(x: string, y: string, p: string, j: nat)
    ensures FindFrom(x + y, p, |x| + j) == Shift(FindFrom(y, p, j), |x|)
    decreases |y| - j
  {
    if j + |p| <= |y| {
      assert (x + y)[|x| + j..|x| + j + |p|] == y[j..j + |p|];
      if y[j..j + |p|] != p {
        FindFromShift(x, y, p, j + 1);
      }
    }
  }

  /** A stretch without occurrences can be skipped. */
  lemma {:induction false} FindFromSkip(s: string, p: string, a: nat, b: nat)
    requires a <= b
    requires forall j :: a <= j < b ==> !OccursAt(s, p, j)
    ensures FindFrom(s, p, a) == FindFrom(s, p, b)
    decreases b - a
  {
    if a < b && a + |p| <= |s| {
      assert !OccursAt(s, p, a);
      FindFromSkip(s, p, a + 1, b);
    }
  }

  /** What follows the first occurrence does not change where it is found. */
  lemma FindPrefixed(x: string, p: string, y: string)
    requires Find(x + p, p) == Some(|x|)
    ensures Find(x + p + y, p) == Some(|x|)
  {
    var s := x + p + y;
    FindIsFirst(x + p, p);
    assert s[|x|..|x| + |p|] == p;
    forall j | 0 <= j < |x|
      ensures !OccursAt(s, p, j)
    {
      if OccursAt(s, p, j) {
        assert s[j..j + |p|] == (x + p)[j..j + |p|];
        assert OccursAt(x + p, p, j);
      }
    }
    FindAt(s, p, |x|);
  }

  /** `strstr` on `x + y` when no occurrence starts inside `x`. */
  lemma FindConcat(x: string, y: string, p: string)
    requires forall j :: 0 <= j < |x| ==> !OccursAt(x + y, p, j)
    ensures Find(x + y, p).Some? <==> Find(y, p).Some?
    ensures Find(y, p).Some? ==> Find(x + y, p).value == |x| + Find(y, p).value
  {
    FindFromSkip(x + y, p, 0, |x|);
    FindFromShift(x, y, p, 0);
  }

  /** `strchr(s, c)`. */
  function IndexOfChar(s: string, c: char): (r: Option<nat>)
    ensures r.Some? ==> r.value < |s| && s[r.value] == c
    ensures r.Some? ==> forall j :: 0 <= j < r.value ==> s[j] != c
    ensures r.None? ==> forall j :: 0 <= j < |s| ==> s[j] != c
  {
    if |s| == 0 then None
    else if s[0] == c then Some(0)
    else match IndexOfChar(s[1..], c)
      case None => None
      case Some(i) => Some(i + 1)
  }

  /** `strrchr(s, c)`. */
  function LastIndexOfChar(s: string, c: char): (r: Option<nat>)
    ensures r.Some? ==> r.value < |s| && s[r.value] == c
    ensures r.Some? ==> forall j :: r.value < j < |s| ==> s[j] != c
    ensures r.None? ==> forall j :: 0 <= j < |s| ==> s[j] != c
  {
    if |s| == 0 then None
    else if s[|s| - 1] == c then Some(|s| - 1)
    else
      assert s == s[..|s| - 1] + [s[|s| - 1]];
      LastIndexOfChar(s[..|s| - 1], c)
  }

  /** `strchr` on a concatenation whose left part lacks the character. */
  lemma {:induction false} IndexOfCharAfter(x: string, y: string, c: char)
    requires forall j :: 0 <= j < |x| ==> x[j] != c
    ensures IndexOfChar(x + y, c) == match IndexOfChar(y, c)
                                      case Some(i) => Some(|x| + i)
                                      case None => None
    decreases |x|
  {
    if |x| > 0 {
      assert (x + y)[1..] == x[1..] + y;
      IndexOfCharAfter(x[1..], y, c);
    } else {
      assert x + y == y;
    }
  }

  /** `strrchr` on a concatenation. */
  lemma {:induction false} LastIndexOfCharAppend(x: string, y: string, c: char)
    ensures LastIndexOfChar(x + y, c) == match LastIndexOfChar(y, c)
                                          case Some(i) => Some(|x| + i)
                                          case None => LastIndexOfChar(x, c)
    decreases |y|
  {
    if |y| > 0 {
      var s := x + y;
      assert s[|s| - 1] == y[|y| - 1];
      if y[|y| - 1] != c {
        assert s[..|s| - 1] == x + y[..|y| - 1];
        LastIndexOfCharAppend(x, y[..|y| - 1], c);
      }
    } else {
      assert x + y == x;
    }
  }

  // ---------------------------------------------------------------------
  // Joining with a delimiter
  // ---------------------------------------------------------------------

  /** The elements of `a` with `d` between neighbours and nowhere else. */
  function JoinWith(a: seq<string>, d: string): string {
    if |a| == 0 then []
    else if |a| == 1 then a[0]
    else a[0] + d + JoinWith(a[1..], d)
  }

  lemma JoinCons(a: string, p: seq<string>, d: string)
    requires |p| >= 1
    ensures JoinWith([a] + p, d) == a + d + JoinWith(p, d)
  {
    assert ([a] + p)[1..] == p;
  }

  // ---------------------------------------------------------------------
  // Decimal rendering (`sprintf("%d")`) and reading back
  // ---------------------------------------------------------------------

  function NatToDecimal(n: nat): (r: string)
    ensures |r| >= 1
    ensures forall i :: 0 <= i < |r| ==> IsDigit(r[i])
    decreases n
  {
    if n < 10 then [('0' as int + n) as char]
    else NatToDecimal(n / 10) + [('0' as int + n % 10) as char]
  }

  /** `sprintf("%d", i)`. */
  function IntToDecimal(i: int): (r: string)
    ensures |r| >= 1
    ensures i >= 0 ==> forall k :: 0 <= k < |r| ==> IsDigit(r[k])
    ensures i < 0 ==> r[0] == '-' && forall k :: 1 <= k < |r| ==> IsDigit(r[k])
  {
    if i >= 0 then NatToDecimal(i) else "-" + NatToDecimal(-i)
  }

  /** The value of a string of decimal digits, most significant first. */
  function DecimalValue(s: string): nat
    requires forall i :: 0 <= i < |s| ==> IsDigit(s[i])
  {
    if |s| == 0 then 0
    else DecimalValue(s[..|s| - 1]) * 10 + HexDigitValue(s[|s| - 1])
  }

  lemma {:induction false} DecimalRoundTrip(n: nat)
    ensures DecimalValue(NatToDecimal(n)) == n
    decreases n
  {
    if n >= 10 {
      DecimalRoundTrip(n / 10);
      var r := NatToDecimal(n);
      assert r[..|r| - 1] == NatToDecimal(n / 10);
    }
  }

  /** A rendered number never starts with a superfluous zero. */
  lemma {:induction false} DecimalNoLeadingZero(n: nat)
    ensures NatToDecimal(n)[0] == '0' ==> n == 0
    decreases n
  {
    if n >= 10 {
      DecimalNoLeadingZero(n / 10);
    }
  }

  // ---------------------------------------------------------------------
  // `atoi`: leading white space, an optional sign, then decimal digits
  // ---------------------------------------------------------------------

  /** First position at or after `i` that is not white space. */
  function SkipSpace(s: string, i: nat): (r: nat)
    requires i <= |s|
    ensures i <= r <= |s|
    ensures r < |s| ==> !IsSpace(s[r])
    decreases |s| - i
  {
    if i < |s| && IsSpace(s[i]) then SkipSpace(s, i + 1) else i
  }

  /** End of the run of decimal digits that starts at `i`. */
  function DigitRunEnd(s: string, i: nat): (r: nat)
    requires i <= |s|
    ensures i <= r <= |s|
    ensures forall k :: i <= k < r ==> IsDigit(s[k])
    ensures r < |s| ==> !IsDigit(s[r])
    decreases |s| - i
  {
    if i < |s| && IsDigit(s[i]) then DigitRunEnd(s, i + 1) else i
  }

  /** `atoi(s)`: the value of the longest prefix of the form
      spaces, optional sign, digits; 0 when there are no digits. */
  function Atoi(s: string): int {
    var i := SkipSpace(s, 0);
    var j := if i < |s| && (s[i] == '-' || s[i] == '+') then i + 1 else i;
    var e := DigitRunEnd(s, j);
    var v: int := DecimalValue(s[j..e]);
    if i < |s| && s[i] == '-' then -v else v
  }

  lemma {:induction false} DigitRunEndAll(s: string, i: nat)
    requires i <= |s|
    requires forall k :: i <= k < |s| ==> IsDigit(s[k])
    ensures DigitRunEnd(s, i) == |s|
    decreases |s| - i
  {
    if i < |s| {
      DigitRunEndAll(s, i + 1);
    }
  }

  /** `atoi` reads back what `%d` writes. */
  lemma AtoiOfDecimal(n: int)
    ensures Atoi(IntToDecimal(n)) == n
  {
    var s := IntToDecimal(n);
    assert !IsSpace(s[0]);
    assert SkipSpace(s, 0) == 0;
    if n >= 0 {
      DigitRunEndAll(s, 0);
      assert s[0..|s|] == s;
      DecimalRoundTrip(n);
    } else {
      DigitRunEndAll(s, 1);
      assert s[1..|s|] == NatToDecimal(-n);
      DecimalRoundTrip(-n);
    }
  }

  /** `tolower` works character by character, so it commutes with taking a prefix. */
  lemma {:induction false} LowerAllTake(s: string, n: nat)
    requires n <= |s|
    ensures LowerAll(s[..n]) == LowerAll(s)[..n]
    decreases n
  {
    if n > 0 {
      LowerAllTake(s[1..], n - 1);
      assert s[..n][1..] == s[1..][..n - 1];
    }
  }

  // ---------------------------------------------------------------------
  // Sequences
  // ---------------------------------------------------------------------

  /** The elements of `s` from the last to the first. */
  function Reverse<T>(s: seq<T>): (r: seq<T>)
    ensures |r| == |s|
    ensures forall j :: 0 <= j < |s| ==> r[j] == s[|s| - 1 - j]
  {
    if |s| == 0 then [] else Reverse(s[1..]) + [s[0]]
  }

  lemma ReverseSnoc<T>(s: seq<T>, x: T)
    ensures Reverse(s + [x]) == [x] + Reverse(s)
  {
  }
}
