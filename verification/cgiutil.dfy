/** The CGI helpers of cgiutil.c: cutting a word off a parameter line, the
    two-hex-digit decoder, `%XX` unescaping, '+' to space, character search
    and shell-metacharacter escaping. The C functions rewrite their argument
    in place; here each returns the new contents. */
module CgiUtil {
  import opened Wrappers
  import opened CStrings
  import MapString

  // ---------------------------------------------------------------------
  // getword, makeword, makeword_skip
  // ---------------------------------------------------------------------

  /** What a word cut leaves: the word, and the line that is shifted down in
      place of the original (everything after the stop character). */
  datatype WordCut = WordCut(word: string, rest: string)

  /** `makeword(line, stop)`, and equally `getword(word, line, stop)`, which
      writes the same word into a caller buffer: the word is the longest
      prefix of `line` free of `stop`; the stop character, when present, is
      consumed and the rest of the line moves to the front. */
  function MakeWord(line: string, stop: char): (r: WordCut)
    ensures |r.word| <= |line| && r.word == line[..|r.word|]
    ensures forall i :: 0 <= i < |r.word| ==> r.word[i] != stop
    ensures |r.word| < |line| ==> line[|r.word|] == stop && r.rest == line[|r.word| + 1..]
    ensures |r.word| == |line| ==> r.rest == []
  {
    match IndexOfChar(line, stop)
    case None => WordCut(line, [])
    case Some(i) => WordCut(line[..i], line[i + 1..])
  }

  /** The word, the consumed stop and the rest give back the line. */
  lemma MakeWordRebuilds(line: string, stop: char)
    ensures var r := MakeWord(line, stop);
            line == r.word + (if |r.word| < |line| then [stop] else []) + r.rest
  {
    var r := MakeWord(line, stop);
    if |r.word| < |line| {
      assert line == line[..|r.word|] + [line[|r.word|]] + line[|r.word| + 1..];
    }
  }

  /** `makeword_skip(line, stop, skip)`: leading `skip` characters are dropped
      first, then the word is cut as by makeword. */
  function MakeWordSkip(line: string, stop: char, skip: char): (r: WordCut)
    ensures |r.word| + |r.rest| <= |line|
    decreases |line|
  {
    if |line| > 0 && line[0] == skip then MakeWordSkip(line[1..], stop, skip)
    else MakeWord(line, stop)
  }

  /** The length of the leading run of `skip` in `line`. */
  function SkipRun(line: string, skip: char): (k: nat)
    ensures k <= |line|
    ensures forall i :: 0 <= i < k ==> line[i] == skip
    ensures k < |line| ==> line[k] != skip
  {
    if |line| > 0 && line[0] == skip then 1 + SkipRun(line[1..], skip) else 0
  }

  /** makeword_skip is makeword after the maximal leading run of `skip`. */
  lemma {:induction false} MakeWordSkipIsMakeWord(line: string, stop: char, skip: char)
    ensures MakeWordSkip(line, stop, skip) == MakeWord(line[SkipRun(line, skip)..], stop)
    decreases |line|
  {
    if |line| > 0 && line[0] == skip {
      MakeWordSkipIsMakeWord(line[1..], stop, skip);
      assert line[1..][SkipRun(line[1..], skip)..] == line[SkipRun(line, skip)..];
    } else {
      assert line[0..] == line;
    }
  }

  // ---------------------------------------------------------------------
  // x2c
  // ---------------------------------------------------------------------

  /** A `char` read as the signed value C gives it (8-bit, two's complement). */
  function SignedChar(c: char): int {
    var b := MapString.Byte(c);
    if b >= 128 then b - 256 else b
  }

  /** `v & 0xdf` for a byte value: clears bit 5 (0x20). */
  function ClearBit5(v: nat): (r: nat)
    requires v < 256
    ensures r <= v && (r == v || r == v - 32)
  {
    if (v / 32) % 2 == 1 then v - 32 else v
  }

  /** The value one digit contributes in x2c: letters at or above 'A' are
      folded with `& 0xdf` and counted from 10, anything else from '0'. */
  function X2cDigit(c: char): int {
    var v := SignedChar(c);
    if v >= 'A' as int then ClearBit5(v) - 'A' as int + 10 else v - '0' as int
  }

  /** `x2c(what)`: the byte spelled by two hex digits. The arithmetic runs in
      a `char`, so the value is taken modulo 256. */
  function X2c(hi: char, lo: char): (r: char)
    ensures r as int < 256
  {
    ((16 * X2cDigit(hi) + X2cDigit(lo)) % 256) as char
  }

  lemma X2cDigitHex(c: char)
    requires IsHexDigit(c)
    ensures X2cDigit(c) == HexDigitValue(c)
  {
  }

  /** On two hex digits of either case, x2c is `16 * hi + lo`. */
  lemma X2cHex(hi: char, lo: char)
    requires IsHexDigit(hi) && IsHexDigit(lo)
    ensures X2c(hi, lo) as int == 16 * HexDigitValue(hi) + HexDigitValue(lo)
  {
    X2cDigitHex(hi);
    X2cDigitHex(lo);
  }

  // ---------------------------------------------------------------------
  // unescape_url, plustospace
  // ---------------------------------------------------------------------

  /** The loop of `unescape_url`: each '%' and the two characters after it
      become one x2c byte, everything else is copied. A '%' with fewer than
      two characters after it makes the C loop read past the terminator:
      `None`. */
  function UnescapeBuffer(s: string): (r: Option<string>)
    ensures r.Some? ==> |r.value| <= |s|
  {
    if |s| == 0 then Some([])
    else if s[0] == '%' then
      if |s| < 3 then None
      else match UnescapeBuffer(s[3..])
        case None => None
        case Some(t) => Some([X2c(s[1], s[2])] + t)
    else match UnescapeBuffer(s[1..])
      case None => None
      case Some(t) => Some([s[0]] + t)
  }

  /** The C string a buffer holds: everything before the first NUL. */
  function UpToNul(s: string): (r: string)
    ensures |r| <= |s| && r == s[..|r|]
    ensures forall i :: 0 <= i < |r| ==> r[i] != 0 as char
    ensures |r| < |s| ==> s[|r|] == 0 as char
  {
    match IndexOfChar(s, 0 as char)
    case None => s
    case Some(i) => s[..i]
  }

  /** `unescape_url(url)`; a decoded "%00" ends the string. */
  function UnescapeUrl(s: string): (r: Option<string>)
    ensures r.Some? ==> |r.value| <= |s|
  {
    match UnescapeBuffer(s)
    case None => None
    case Some(b) => Some(UpToNul(b))
  }

  /** Text without '%' is left as it is. */
  lemma {:induction false} UnescapeWithoutPercent(s: string)
    requires forall i :: 0 <= i < |s| ==> s[i] != '%'
    ensures UnescapeBuffer(s) == Some(s)
    decreases |s|
  {
    if |s| > 0 {
      UnescapeWithoutPercent(s[1..]);
      assert [s[0]] + s[1..] == s;
    }
  }

  /** Every '%' is followed by two hex digits. */
  predicate WellEscaped(s: string) {
    forall i :: 0 <= i < |s| && s[i] == '%' ==> i + 2 < |s| && IsHexDigit(s[i + 1]) && IsHexDigit(s[i + 2])
  }

  /** The number of occurrences of `c` in `s`. */
  function Count(s: string, c: char): nat {
    if |s| == 0 then 0 else (if s[0] == c then 1 else 0) + Count(s[1..], c)
  }

  /** On well-formed input each escape becomes one byte: the text shortens by
      two per '%', and unescaping never fails. */
  lemma {:induction false} UnescapeLength(s: string)
    requires WellEscaped(s)
    ensures UnescapeBuffer(s).Some?
    ensures |UnescapeBuffer(s).value| == |s| - 2 * Count(s, '%')
    decreases |s|
  {
    if |s| > 0 {
      if s[0] == '%' {
        var t := s[3..];
        assert WellEscaped(t) by {
          forall i | 0 <= i < |t| && t[i] == '%'
            ensures i + 2 < |t| && IsHexDigit(t[i + 1]) && IsHexDigit(t[i + 2])
          {
            assert t[i] == s[i + 3];
          }
        }
        UnescapeLength(t);
        assert s[1] != '%' && s[2] != '%';
        assert Count(s, '%') == 1 + Count(s[1..], '%');
        assert Count(s[1..], '%') == Count(s[2..], '%') by {
          assert s[1..][1..] == s[2..];
        }
        assert Count(s[2..], '%') == Count(t, '%') by {
          assert s[2..][1..] == t;
        }
      } else {
        var t := s[1..];
        assert WellEscaped(t) by {
          forall i | 0 <= i < |t| && t[i] == '%'
            ensures i + 2 < |t| && IsHexDigit(t[i + 1]) && IsHexDigit(t[i + 2])
          {
            assert t[i] == s[i + 1];
          }
        }
        UnescapeLength(t);
      }
    }
  }

  /** `plustospace(str)`: every '+' becomes a space, nothing else changes. */
  function PlusToSpace(s: string): (r: string)
    ensures |r| == |s|
    ensures forall i :: 0 <= i < |s| ==> r[i] == (if s[i] == '+' then ' ' else s[i])
  {
    if |s| == 0 then [] else [if s[0] == '+' then ' ' else s[0]] + PlusToSpace(s[1..])
  }

  lemma PlusToSpaceIdempotent(s: string)
    ensures PlusToSpace(PlusToSpace(s)) == PlusToSpace(s)
  {
  }

  lemma PlusToSpaceAppend(x: string, y: string)
    ensures PlusToSpace(x + y) == PlusToSpace(x) + PlusToSpace(y)
  {
  }

  // ---------------------------------------------------------------------
  // The URL round trip
  // ---------------------------------------------------------------------

  /** A string a C `char *` can hold: bytes, and no NUL. */
  predicate IsCString(s: string) {
    forall i :: 0 <= i < |s| ==> 0 < s[i] as int < 256
  }

  lemma DivMod16(b: nat)
    ensures 16 * (b / 16) + b % 16 == b
  {
  }

  /** x2c reads back the two digits msEncodeUrl writes for a byte. */
  lemma X2cOfEncoded(c: char)
    requires c as int < 256
    ensures X2c(MapString.HexUpper(MapString.Byte(c) / 16), MapString.HexUpper(MapString.Byte(c) % 16)) == c
  {
    var b := MapString.Byte(c);
    var hi, lo := b / 16, b % 16;
    assert 16 * hi + lo == b by {
      DivMod16(b);
    }
    X2cHex(MapString.HexUpper(hi), MapString.HexUpper(lo));
  }

  /** An escaped character decodes back to itself. */
  lemma DecodeEscaped(c: char, rest: string)
    requires 0 < c as int < 256 && c != ' ' && !IsAlnum(c)
    ensures UnescapeBuffer(PlusToSpace(MapString.UrlEscape(c)) + rest)
            == (match UnescapeBuffer(rest) case None => None case Some(t) => Some([c] + t))
  {
    var e := MapString.UrlEscape(c);
    assert PlusToSpace(e) == e;
    var s := e + rest;
    assert s[0] == '%' && s[3..] == rest;
    X2cOfEncoded(c);
    assert X2c(s[1], s[2]) == c;
  }

  /** One encoded character decodes back to itself. */
  lemma DecodeOneEscape(c: char, rest: string)
    requires 0 < c as int < 256
    ensures UnescapeBuffer(PlusToSpace(MapString.UrlEscape(c)) + rest)
            == (match UnescapeBuffer(rest) case None => None case Some(t) => Some([c] + t))
  {
    if c != ' ' && !IsAlnum(c) {
      DecodeEscaped(c, rest);
    } else {
      var e := MapString.UrlEscape(c);
      assert PlusToSpace(e) == [c];
      assert ([c] + rest)[1..] == rest;
    }
  }

  /** unescape_url(plustospace(msEncodeUrl(s))) == s for every C string. */
  lemma {:induction false} UrlRoundTrip(s: string)
    requires IsCString(s)
    ensures UnescapeUrl(PlusToSpace(MapString.EncodeUrl(s))) == Some(s)
    decreases |s|
  {
    UrlRoundTripBuffer(s);
    assert UpToNul(s) == s by {
      assert IndexOfChar(s, 0 as char).None?;
    }
  }

  lemma {:induction false} UrlRoundTripBuffer(s: string)
    requires IsCString(s)
    ensures UnescapeBuffer(PlusToSpace(MapString.EncodeUrl(s))) == Some(s)
    decreases |s|
  {
    if |s| > 0 {
      var rest := PlusToSpace(MapString.EncodeUrl(s[1..]));
      PlusToSpaceAppend(MapString.UrlEscape(s[0]), MapString.EncodeUrl(s[1..]));
      UrlRoundTripBuffer(s[1..]);
      DecodeOneEscape(s[0], rest);
      assert [s[0]] + s[1..] == s;
    }
  }

  // ---------------------------------------------------------------------
  // ind, rind
  // ---------------------------------------------------------------------

  /** `ind(s, c)`: index of the first `c`, or -1. */
  function Ind(s: string, c: char): (r: int)
    ensures -1 <= r < |s|
    ensures r >= 0 ==> s[r] == c && forall j :: 0 <= j < r ==> s[j] != c
    ensures r == -1 ==> forall j :: 0 <= j < |s| ==> s[j] != c
  {
    if |s| == 0 then -1
    else if s[0] == c then 0
    else
      var k := Ind(s[1..], c);
      if k == -1 then -1 else k + 1
  }

  /** `rind(s, c)`: index of the last `c`, or -1. */
  function Rind(s: string, c: char): (r: int)
    ensures -1 <= r < |s|
    ensures r >= 0 ==> s[r] == c && forall j :: r < j < |s| ==> s[j] != c
    ensures r == -1 ==> forall j :: 0 <= j < |s| ==> s[j] != c
  {
    if |s| == 0 then -1
    else if s[|s| - 1] == c then |s| - 1
    else Rind(s[..|s| - 1], c)
  }

  /** ind and rind agree on absence and are ordered; they meet exactly when
      `c` occurs once. */
  lemma IndRind(s: string, c: char)
    ensures Ind(s, c) == -1 <==> Rind(s, c) == -1
    ensures Ind(s, c) <= Rind(s, c)
    ensures Ind(s, c) >= 0 ==> (Ind(s, c) == Rind(s, c) <==> multiset(s)[c] == 1)
  {
    var i, r := Ind(s, c), Rind(s, c);
    if i >= 0 {
      assert s == s[..i] + [s[i]] + s[i + 1..];
      assert c !in s[..i];
      if r == i {
        assert c !in s[i + 1..];
      } else {
        assert s[i + 1..][r - i - 1] == c;
      }
    }
  }

  // ---------------------------------------------------------------------
  // escape_shell_cmd
  // ---------------------------------------------------------------------

  /** The characters escape_shell_cmd protects with a backslash. */
  const ShellSpecials: string := "&;`'\"|*?~<>^()[]{}$\\\n"

  /** `ind(ShellSpecials, c) != -1`. */
  predicate IsShellSpecial(c: char) { c in ShellSpecials }

  /** `escape_shell_cmd(cmd)`: a backslash in front of every special character. */
  function EscapeShellCmd(s: string): (r: string)
    ensures |r| >= |s|
  {
    if |s| == 0 then []
    else (if IsShellSpecial(s[0]) then ['\\', s[0]] else [s[0]]) + EscapeShellCmd(s[1..])
  }

  /** The number of special characters in `s`. */
  function SpecialCount(s: string): nat {
    if |s| == 0 then 0 else (if IsShellSpecial(s[0]) then 1 else 0) + SpecialCount(s[1..])
  }

  /** Removing the escaping backslashes: a backslash takes the next character
      literally. */
  function UnescapeShell(s: string): string
    decreases |s|
  {
    if |s| == 0 then []
    else if s[0] == '\\' && |s| >= 2 then [s[1]] + UnescapeShell(s[2..])
    else [s[0]] + UnescapeShell(s[1..])
  }

  /** The output grows by one backslash per special character. */
  lemma {:induction false} EscapeShellLength(s: string)
    ensures |EscapeShellCmd(s)| == |s| + SpecialCount(s)
    decreases |s|
  {
    if |s| > 0 {
      EscapeShellLength(s[1..]);
    }
  }

  /** Dropping the inserted backslashes recovers the command. */
  lemma {:induction false} EscapeShellRoundTrip(s: string)
    ensures UnescapeShell(EscapeShellCmd(s)) == s
    decreases |s|
  {
    if |s| > 0 {
      var rest := EscapeShellCmd(s[1..]);
      EscapeShellRoundTrip(s[1..]);
      if IsShellSpecial(s[0]) {
        var r := ['\\', s[0]] + rest;
        assert r[2..] == rest;
      } else {
        var r := [s[0]] + rest;
        assert r[1..] == rest;
        assert s[0] != '\\' by {
          assert ShellSpecials[19] == '\\';
        }
      }
      assert [s[0]] + s[1..] == s;
    }
  }
}
