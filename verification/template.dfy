/**
 * The tag engine of MapServer's HTML templates (maptemplate.c): finding a
 * tag, reading its arguments, cutting out the text between a tag and its
 * end tag, resolving [if] blocks and [metadata] tags, and the two ways of
 * ordering layers for a legend.
 *
 * Positions are offsets into the template text; a search "from `p`" is the
 * C call on the pointer `text + p`.
 */
module Template {
  import opened Wrappers
  import opened CStrings
  import opened MapString
  import opened HashTable

  // ---------------------------------------------------------------------
  // findTag
  // ---------------------------------------------------------------------

  /** "[tag " : a tag with arguments. */
  function OpenTag(tag: string): string { "[" + tag + " " }

  /** "[tag]" : a tag without arguments. */
  function BareTag(tag: string): string { "[" + tag + "]" }

  /** "[/tag" : the start of an end tag, as getInlineTag looks for it. */
  function EndTag(tag: string): string { "[/" + tag }

  /** `findTag(text + from, tag)`: the first "[tag " at or after `from`, and only when there is none the first "[tag]". */
  function FindTagFrom(s: string, tag: string, from: nat): (r: Option<nat>)
    ensures r.Some? ==> from <= r.value && (OccursAt(s, OpenTag(tag), r.value) || OccursAt(s, BareTag(tag), r.value))
  {
    match FindFrom(s, OpenTag(tag), from)
    case Some(i) => Some(i)
    case None => FindFrom(s, BareTag(tag), from)
  }

  /** Some "[tag " occurs at or after `from`. */
  predicate HasOpenTag(s: string, tag: string, from: nat) {
    exists j :: from <= j <= |s| && OccursAt(s, OpenTag(tag), j)
  }

  /**
   * findTag prefers the first tag with arguments; it returns the first bare
   * tag only when no tag with arguments follows, and nothing when neither
   * occurs.
   */
  lemma FindTagFirst(s: string, tag: string, from: nat)
    ensures HasOpenTag(s, tag, from) ==>
              FindTagFrom(s, tag, from).Some? && OccursAt(s, OpenTag(tag), FindTagFrom(s, tag, from).value) &&
              forall j :: from <= j < FindTagFrom(s, tag, from).value ==> !OccursAt(s, OpenTag(tag), j)
    ensures !HasOpenTag(s, tag, from) ==> FindTagFrom(s, tag, from) == FindFrom(s, BareTag(tag), from)
    ensures FindTagFrom(s, tag, from).None? <==>
              forall j :: from <= j ==> !OccursAt(s, OpenTag(tag), j) && !OccursAt(s, BareTag(tag), j)
  {
    FindFromIsFirst(s, OpenTag(tag), from);
    FindFromIsFirst(s, BareTag(tag), from);
  }

  // ---------------------------------------------------------------------
  // getTagArgs
  // ---------------------------------------------------------------------

  /** `strchr(text + from, c)` as a position in the text. */
  function CharFrom(s: string, c: char, from: nat): (r: Option<nat>)
    ensures r.Some? ==> from <= r.value < |s| && s[r.value] == c
    ensures r.Some? ==> forall j :: from <= j < r.value ==> s[j] != c
    ensures r.None? ==> forall j :: from <= j < |s| ==> s[j] != c
    decreases |s| - from
  {
    if from >= |s| then None
    else if s[from] == c then Some(from)
    else CharFrom(s, c, from + 1)
  }

  /** Inside a quoted value every space is turned into '"', so that splitting on spaces keeps the value whole. */
  function SpacesToQuotes(s: string): (r: string)
    ensures |r| == |s|
    ensures forall i :: 0 <= i < |s| ==> r[i] == (if s[i] == ' ' then '"' else s[i])
  {
    seq(|s|, i requires 0 <= i < |s| => if s[i] == ' ' then '"' else s[i])
  }

  /** After the split every '"' of an argument is a space again. */
  function QuotesToSpaces(s: string): (r: string)
    ensures |r| == |s|
    ensures forall i :: 0 <= i < |s| ==> r[i] == (if s[i] == '"' then ' ' else s[i])
  {
    seq(|s|, i requires 0 <= i < |s| => if s[i] == '"' then ' ' else s[i])
  }

  /** A quoted value without '"' of its own comes back unchanged. */
  lemma QuotesRoundTrip(v: string)
    requires '"' !in v
    ensures QuotesToSpaces(SpacesToQuotes(v)) == v
  {
    var r := QuotesToSpaces(SpacesToQuotes(v));
    forall i | 0 <= i < |v|
      ensures r[i] == v[i]
    {
      assert v[i] != '"' by {
        assert v[i] in v;
      }
    }
  }

  /** One quoted value removed: its quotes dropped and its spaces turned into '"'. */
  function Unquoted(a: string, qs: nat, qe: nat): (r: string)
    requires qs < qe < |a|
    ensures |r| == |a| - 2
  {
    a[..qs] + SpacesToQuotes(a[qs + 1..qe]) + a[qe + 1..]
  }

  /**
   * The quote loop of getTagArgs as written, with the next opening quote
   * searched from `from`. After a quoted value the search resumes at the
   * old position of the closing quote, one character past the end of the
   * shortened value. `None`: a quote without a partner makes the loop call
   * `strchr(NULL, '"')`.
   */
  function UnquoteFromAsWritten(a: string, from: nat): (r: Option<string>)
    decreases |a|
  {
    match CharFrom(a, '"', from)
    case None => Some(a)
    case Some(qs) =>
      match CharFrom(a, '"', qs + 1)
      case None => None
      case Some(qe) => UnquoteFromAsWritten(Unquoted(a, qs, qe), qe)
  }

  /** The intended quote loop: an opening quote without a partner is left as it is. */
  function UnquoteFrom(a: string, from: nat): (r: string)
    decreases |a|
  {
    match CharFrom(a, '"', from)
    case None => a
    case Some(qs) =>
      match CharFrom(a, '"', qs + 1)
      case None => a
      case Some(qe) => UnquoteFrom(Unquoted(a, qs, qe), qe)
  }

  /** Whenever every quote has a partner, the loop as written gives the intended text. */
  lemma {:induction false} UnquoteAsWrittenAgrees(a: string, from: nat)
    requires UnquoteFromAsWritten(a, from).Some?
    ensures UnquoteFromAsWritten(a, from) == Some(UnquoteFrom(a, from))
    decreases |a|
  {
    match CharFrom(a, '"', from)
    case None =>
    case Some(qs) =>
      match CharFrom(a, '"', qs + 1)
      case None =>
      case Some(qe) => UnquoteAsWrittenAgrees(Unquoted(a, qs, qe), qe);
  }

  /** One argument word: "k=v" gives k and v (the text up to the second '=' if there is one); a bare word gives itself and "1". */
  function ArgEntry(word: string): (r: (string, string)) {
    var w := QuotesToSpaces(word);
    if '=' in w then
      var kv := Split(w, '=');
      assert |kv| >= 2 by {
        SplitHasTwo(w, '=');
      }
      (kv[0], kv[1])
    else (w, "1")
  }

  lemma SplitHasTwo(s: string, c: char)
    requires c in s
    ensures |Split(s, c)| >= 2
  {
    var i :| 0 <= i < |s| && s[i] == c;
    assert IndexOfChar(s, c).Some?;
  }

  /** Every argument word is put into the table, left to right. */
  function InsertWords(t: Table, words: seq<string>): (r: Table)
    decreases |words|
  {
    if |words| == 0 then t
    else InsertWords(Insert(t, ArgEntry(words[0]).0, ArgEntry(words[0]).1), words[1..])
  }

  /**
   * The argument text of the first `tag` in `s`: from just after the tag
   * name to the first ']' after the tag's start. Empty when the tag, or a
   * ']' after it, is missing, or when the tag is bare.
   */
  function ArgText(tag: string, s: string): (r: string) {
    match FindTagFrom(s, tag, 0)
    case None => ""
    case Some(st) =>
      match CharFrom(s, ']', st)
      case None => ""
      case Some(e) =>
        if e > st + |tag| + 1 then s[st + |tag| + 1..e] else ""
  }

  /** getTagArgs as written; `None` is the unmatched-quote crash. */
  function GetTagArgsAsWritten(tag: string, s: string): (r: Option<Table>) {
    var a := ArgText(tag, s);
    if |a| == 0 then Some([])
    else match UnquoteFromAsWritten(a, 0)
      case None => None
      case Some(u) => Some(InsertWords([], Split(u, ' ')))
  }

  /** getTagArgs with an unmatched quote left in place. */
  function GetTagArgs(tag: string, s: string): (r: Table) {
    var a := ArgText(tag, s);
    if |a| == 0 then [] else InsertWords([], Split(UnquoteFrom(a, 0), ' '))
  }

  lemma GetTagArgsAsWrittenAgrees(tag: string, s: string)
    requires GetTagArgsAsWritten(tag, s).Some?
    ensures GetTagArgsAsWritten(tag, s) == Some(GetTagArgs(tag, s))
  {
    var a := ArgText(tag, s);
    if |a| > 0 {
      UnquoteAsWrittenAgrees(a, 0);
    }
  }

  /** The argument text of a tag with arguments at the start of the text. */
  lemma ArgTextAtStart(tag: string, body: string, rest: string)
    requires ']' !in tag && ']' !in body
    ensures ArgText(tag, OpenTag(tag) + body + "]" + rest) == " " + body
  {
    var s := OpenTag(tag) + body + "]" + rest;
    var e := |tag| + 2 + |body|;
    assert OccursAt(s, OpenTag(tag), 0) by {
      assert s[..|OpenTag(tag)|] == OpenTag(tag);
    }
    assert FindTagFrom(s, tag, 0) == Some(0);
    forall j | 0 <= j < e
      ensures s[j] != ']'
    {
      if 1 <= j <= |tag| {
        assert s[j] == tag[j - 1];
        assert tag[j - 1] in tag;
      } else if j > |tag| + 1 {
        assert s[j] == body[j - |tag| - 2];
        assert body[j - |tag| - 2] in body;
      }
    }
    assert s[e] == ']';
    assert CharFrom(s, ']', 0) == Some(e);
    assert s[|tag| + 1..e] == " " + body;
  }

  /** A word "k=v" with neither part holding '=' or '"' is read as the entry (k, v). */
  lemma ArgEntryOfPair(k: string, v: string)
    requires '=' !in k && '=' !in v && '"' !in k && '"' !in v
    ensures ArgEntry(k + "=" + v) == (k, v)
  {
    var w := k + "=" + v;
    assert QuotesToSpaces(w) == w by {
      forall i | 0 <= i < |w|
        ensures w[i] != '"'
      {
        if i < |k| {
          assert w[i] == k[i];
          assert k[i] in k;
        } else if i > |k| {
          assert w[i] == v[i - |k| - 1];
          assert v[i - |k| - 1] in v;
        }
      }
    }
    assert '=' in w by {
      assert w[|k|] == '=';
    }
    assert JoinWith([k, v], "=") == w by {
      assert JoinWith([v], "=") == v;
      JoinCons(k, [v], "=");
    }
    SplitJoin([k, v], '=');
  }

  /** The entries of words whose keys no other word repeats are found in the table they build. */
  lemma {:induction false} InsertWordsMiss(t: Table, words: seq<string>, k: string)
    requires forall j :: 0 <= j < |words| ==> ArgEntry(words[j]).0 != k
    ensures Lookup(InsertWords(t, words), k) == Lookup(t, k)
    decreases |words|
  {
    if |words| > 0 {
      InsertOther(t, ArgEntry(words[0]).0, ArgEntry(words[0]).1, k);
      InsertWordsMiss(Insert(t, ArgEntry(words[0]).0, ArgEntry(words[0]).1), words[1..], k);
    }
  }

  lemma {:induction false} InsertWordsFind(t: Table, words: seq<string>, i: nat)
    requires i < |words|
    requires forall j :: 0 <= j < |words| && j != i ==> ArgEntry(words[j]).0 != ArgEntry(words[i]).0
    ensures Lookup(InsertWords(t, words), ArgEntry(words[i]).0) == Some(ArgEntry(words[i]).1)
    decreases |words|
  {
    var t1 := Insert(t, ArgEntry(words[0]).0, ArgEntry(words[0]).1);
    if i == 0 {
      InsertFound(t, ArgEntry(words[0]).0, ArgEntry(words[0]).1);
      InsertWordsMiss(t1, words[1..], ArgEntry(words[0]).0);
    } else {
      InsertWordsFind(t1, words[1..], i - 1);
    }
  }

  /** `k=v` words of keys and values free of ' ', '=', '"' and ']'. */
  predicate PlainWord(w: string) {
    ' ' !in w && '=' !in w && '"' !in w && ']' !in w
  }

  function Pairs(keys: seq<string>, values: seq<string>): (r: seq<string>)
    requires |keys| == |values|
    ensures |r| == |keys|
  {
    seq(|keys|, i requires 0 <= i < |keys| => keys[i] + "=" + values[i])
  }

  /** The conditions under which `[tag k1=v1 k2=v2 ...]` reads back as written. */
  predicate ArgWords(keys: seq<string>, values: seq<string>) {
    && |keys| == |values| >= 1
    && (forall i :: 0 <= i < |keys| ==> |keys[i]| > 0 && PlainWord(keys[i]) && PlainWord(values[i]))
    && (forall i, j :: 0 <= i < j < |keys| ==> keys[i] != keys[j])
  }

  /** The value written for key `x` in `k1=v1 k2=v2 ...`: the first one. */
  function KeyValue(keys: seq<string>, values: seq<string>, x: string): (r: Option<string>)
    requires |keys| == |values|
    decreases |keys|
  {
    if |keys| == 0 then None
    else if keys[0] == x then Some(values[0])
    else KeyValue(keys[1..], values[1..], x)
  }

  /** With distinct keys, the value of `x` is the one paired with it, and none when it is not a key. */
  lemma {:induction false} KeyValueAt(keys: seq<string>, values: seq<string>, x: string)
    requires |keys| == |values|
    requires forall i, j :: 0 <= i < j < |keys| ==> keys[i] != keys[j]
    ensures forall i :: 0 <= i < |keys| && keys[i] == x ==> KeyValue(keys, values, x) == Some(values[i])
    ensures (forall i :: 0 <= i < |keys| ==> keys[i] != x) ==> KeyValue(keys, values, x).None?
    decreases |keys|
  {
    if |keys| > 0 {
      KeyValueAt(keys[1..], values[1..], x);
      forall i | 0 < i < |keys| && keys[i] == x
        ensures KeyValue(keys, values, x) == Some(values[i])
      {
        assert keys[1..][i - 1] == keys[i];
      }
      if forall i :: 0 <= i < |keys| ==> keys[i] != x {
        assert forall i :: 0 <= i < |keys| - 1 ==> keys[1..][i] == keys[i + 1];
      }
    }
  }

  /** `[tag k1=v1 k2=v2 ...]` is split into the words "", k1=v1, k2=v2, ... */
  lemma TagArgsWords(tag: string, keys: seq<string>, values: seq<string>, rest: string)
    requires ']' !in tag && ArgWords(keys, values)
    ensures GetTagArgsAsWritten(tag, OpenTag(tag) + JoinWith(Pairs(keys, values), " ") + "]" + rest) ==
              Some(InsertWords([], [""] + Pairs(keys, values)))
    ensures GetTagArgs(tag, OpenTag(tag) + JoinWith(Pairs(keys, values), " ") + "]" + rest) ==
              InsertWords([], [""] + Pairs(keys, values))
  {
    var words := Pairs(keys, values);
    var body := JoinWith(words, " ");
    var a := " " + body;
    forall i | 0 <= i < |words|
      ensures ' ' !in words[i] && '"' !in words[i] && ']' !in words[i]
    {
      NoSpaceInPair(keys[i], values[i]);
    }
    assert ']' !in body by {
      NoCharInJoin(words, " ", ']');
    }
    ArgTextAtStart(tag, body, rest);
    assert UnquoteFromAsWritten(a, 0) == Some(a) && UnquoteFrom(a, 0) == a by {
      NoCharInJoin(words, " ", '"');
      assert CharFrom(a, '"', 0).None?;
    }
    var all := [""] + words;
    assert JoinWith(all, " ") == a by {
      JoinCons("", words, " ");
    }
    assert Split(a, ' ') == all by {
      assert forall k :: 0 < k < |all| ==> all[k] == words[k - 1];
      SplitJoin(all, ' ');
    }
  }

  /** The entries those words give. */
  lemma PairEntries(keys: seq<string>, values: seq<string>)
    requires ArgWords(keys, values)
    ensures forall j :: 0 <= j < |keys| + 1 ==>
              ArgEntry(([""] + Pairs(keys, values))[j]) == if j == 0 then ("", "1") else (keys[j - 1], values[j - 1])
  {
    var all := [""] + Pairs(keys, values);
    forall j | 0 <= j < |all|
      ensures ArgEntry(all[j]) == if j == 0 then ("", "1") else (keys[j - 1], values[j - 1])
    {
      if j > 0 {
        ArgEntryOfPair(keys[j - 1], values[j - 1]);
      } else {
        assert QuotesToSpaces("") == "";
      }
    }
  }

  /**
   * getTagArgs reads back `[tag k1=v1 k2=v2 ...]`: every key maps to its
   * value (the leading space also yields an empty key, mapped to "1").
   */
  lemma TagArgsRoundTrip(tag: string, keys: seq<string>, values: seq<string>, rest: string)
    requires ']' !in tag && ArgWords(keys, values)
    ensures GetTagArgsAsWritten(tag, OpenTag(tag) + JoinWith(Pairs(keys, values), " ") + "]" + rest).Some?
    ensures forall i :: 0 <= i < |keys| ==>
              Lookup(GetTagArgs(tag, OpenTag(tag) + JoinWith(Pairs(keys, values), " ") + "]" + rest), keys[i]) == Some(values[i])
  {
    var all := [""] + Pairs(keys, values);
    TagArgsWords(tag, keys, values, rest);
    PairEntries(keys, values);
    forall i | 0 <= i < |keys|
      ensures Lookup(InsertWords([], all), keys[i]) == Some(values[i])
    {
      InsertWordsFind([], all, i + 1);
    }
  }

  /** A non-empty name that is none of the keys is not in the table. */
  lemma TagArgsAbsent(tag: string, keys: seq<string>, values: seq<string>, rest: string, x: string)
    requires ']' !in tag && ArgWords(keys, values)
    requires x != "" && forall i :: 0 <= i < |keys| ==> keys[i] != x
    ensures Lookup(GetTagArgs(tag, OpenTag(tag) + JoinWith(Pairs(keys, values), " ") + "]" + rest), x).None?
  {
    var all := [""] + Pairs(keys, values);
    TagArgsWords(tag, keys, values, rest);
    PairEntries(keys, values);
    InsertWordsMiss([], all, x);
  }

  lemma NoSpaceInPair(k: string, v: string)
    requires PlainWord(k) && PlainWord(v)
    ensures ' ' !in k + "=" + v && '"' !in k + "=" + v && ']' !in k + "=" + v
  {
  }

  lemma {:induction false} NoCharInJoin(words: seq<string>, d: string, c: char)
    requires c !in d
    requires forall i :: 0 <= i < |words| ==> c !in words[i]
    ensures c !in JoinWith(words, d)
    decreases |words|
  {
    if |words| > 1 {
      NoCharInJoin(words[1..], d, c);
    }
  }

  /** The argument word `k="v"`. */
  function QuotedPair(k: string, v: string): (r: string)
    ensures |r| == |k| + |v| + 3
  {
    k + "=\"" + v + "\""
  }

  /** The quote loop on ` k="v"`: the quotes go and the spaces of v become '"'. */
  lemma UnquoteOnePair(k: string, v: string)
    requires '"' !in k && '"' !in v
    ensures UnquoteFromAsWritten(" " + QuotedPair(k, v), 0) == Some(" " + (k + "=" + SpacesToQuotes(v)))
    ensures UnquoteFrom(" " + QuotedPair(k, v), 0) == " " + (k + "=" + SpacesToQuotes(v))
  {
    var a := " " + QuotedPair(k, v);
    var qs := |k| + 2;
    var qe := |k| + 3 + |v|;
    assert a[qs] == '"' && a[qe] == '"';
    forall j | 0 <= j < qs
      ensures a[j] != '"'
    {
      if 1 <= j <= |k| {
        assert a[j] == k[j - 1] && k[j - 1] in k;
      }
    }
    assert CharFrom(a, '"', 0) == Some(qs);
    forall j | qs + 1 <= j < qe
      ensures a[j] != '"'
    {
      assert a[j] == v[j - qs - 1] && v[j - qs - 1] in v;
    }
    assert CharFrom(a, '"', qs + 1) == Some(qe);
    var u := Unquoted(a, qs, qe);
    assert u == " " + (k + "=" + SpacesToQuotes(v)) by {
      assert a[..qs] == " " + k + "=";
      assert a[qs + 1..qe] == v;
      assert a[qe + 1..] == "";
    }
    assert CharFrom(u, '"', qe).None?;
  }

  /** The word `k=v'`, v' being v with its spaces as '"', is read as the entry (k, v). */
  lemma QuotedWordEntry(k: string, v: string)
    requires PlainWord(k) && '=' !in v && '"' !in v
    ensures ' ' !in k + "=" + SpacesToQuotes(v)
    ensures ArgEntry(k + "=" + SpacesToQuotes(v)) == (k, v)
  {
    var vq := SpacesToQuotes(v);
    var w := k + "=" + vq;
    forall j | 0 <= j < |w|
      ensures w[j] != ' '
    {
      if j < |k| {
        assert w[j] == k[j] && k[j] in k;
      }
    }
    assert QuotesToSpaces(w) == k + "=" + v by {
      var r := QuotesToSpaces(w);
      forall j | 0 <= j < |w|
        ensures r[j] == (k + "=" + v)[j]
      {
        if j < |k| {
          assert w[j] == k[j] && k[j] in k;
        } else if j > |k| {
          assert w[j] == vq[j - |k| - 1];
          assert v[j - |k| - 1] in v;
        }
      }
    }
    ArgEntryOfPair(k, v);
    assert QuotesToSpaces(k + "=" + v) == k + "=" + v by {
      forall j | 0 <= j < |k + "=" + v|
        ensures (k + "=" + v)[j] != '"'
      {
        if j < |k| {
          assert k[j] in k;
        } else if j > |k| {
          assert v[j - |k| - 1] in v;
        }
      }
    }
  }

  /** The table of a tag whose argument text unquotes to the one word `w`. */
  lemma OneWordTable(tag: string, s: string, w: string)
    requires ' ' !in w && |ArgEntry(w).0| > 0
    requires UnquoteFrom(ArgText(tag, s), 0) == " " + w
    ensures Lookup(GetTagArgs(tag, s), ArgEntry(w).0) == Some(ArgEntry(w).1)
  {
    assert |ArgText(tag, s)| > 0;
    assert Split(" " + w, ' ') == ["", w] by {
      JoinCons("", [w], " ");
      SplitJoin(["", w], ' ');
    }
    assert ArgEntry("") == ("", "1") by {
      assert QuotesToSpaces("") == "";
    }
    InsertWordsFind([], ["", w], 1);
  }

  /** The table of a tag whose argument text is ` k="v"`. */
  lemma QuotedArgs(tag: string, s: string, k: string, v: string)
    requires |k| > 0 && PlainWord(k)
    requires '=' !in v && '"' !in v
    requires ArgText(tag, s) == " " + QuotedPair(k, v)
    ensures GetTagArgsAsWritten(tag, s).Some?
    ensures Lookup(GetTagArgs(tag, s), k) == Some(v)
  {
    var w := k + "=" + SpacesToQuotes(v);
    UnquoteOnePair(k, v);
    QuotedWordEntry(k, v);
    OneWordTable(tag, s, w);
  }

  lemma QuotedPairPlain(k: string, v: string)
    requires PlainWord(k) && ']' !in v
    ensures ']' !in QuotedPair(k, v)
  {
    var body := QuotedPair(k, v);
    forall j | 0 <= j < |body|
      ensures body[j] != ']'
    {
      if j < |k| {
        assert body[j] == k[j] && k[j] in k;
      } else if |k| + 1 < j < |k| + 2 + |v| {
        assert body[j] == v[j - |k| - 2] && v[j - |k| - 2] in v;
      }
    }
  }

  /** A double-quoted value keeps its spaces: `[tag k="v w"]` maps k to "v w". */
  lemma QuotedValueKeepsSpaces(tag: string, k: string, v: string, rest: string)
    requires ']' !in tag
    requires |k| > 0 && PlainWord(k)
    requires '=' !in v && '"' !in v && ']' !in v
    ensures GetTagArgsAsWritten(tag, OpenTag(tag) + QuotedPair(k, v) + "]" + rest).Some?
    ensures Lookup(GetTagArgs(tag, OpenTag(tag) + QuotedPair(k, v) + "]" + rest), k) == Some(v)
  {
    var body := QuotedPair(k, v);
    var s := OpenTag(tag) + body + "]" + rest;
    assert ArgText(tag, s) == " " + body by {
      QuotedPairPlain(k, v);
      ArgTextAtStart(tag, body, rest);
    }
    QuotedArgs(tag, s, k, v);
  }

  /** The argument word `k="v` whose quote is never closed. */
  function OpenQuote(k: string, v: string): (r: string)
    ensures |r| == |k| + |v| + 2
  {
    k + "=\"" + v
  }

  lemma OpenQuotePlain(k: string, v: string)
    requires PlainWord(k) && PlainWord(v)
    ensures ']' !in OpenQuote(k, v) && ' ' !in OpenQuote(k, v)
    ensures forall j :: 0 <= j < |OpenQuote(k, v)| && j != |k| + 1 ==> OpenQuote(k, v)[j] != '"'
  {
    var w := OpenQuote(k, v);
    forall j | 0 <= j < |w|
      ensures w[j] != ']' && w[j] != ' ' && (j != |k| + 1 ==> w[j] != '"')
    {
      if j < |k| {
        assert w[j] == k[j] && k[j] in k;
      } else if j > |k| + 1 {
        assert w[j] == v[j - |k| - 2] && v[j - |k| - 2] in v;
      }
    }
  }

  /** The quote loop finds the opening quote of ` k="v` and no partner for it. */
  lemma OpenQuoteUnmatched(k: string, v: string)
    requires PlainWord(k) && PlainWord(v)
    ensures UnquoteFromAsWritten(" " + OpenQuote(k, v), 0).None?
    ensures UnquoteFrom(" " + OpenQuote(k, v), 0) == " " + OpenQuote(k, v)
  {
    var w := OpenQuote(k, v);
    var a := " " + w;
    OpenQuotePlain(k, v);
    assert a[|k| + 2] == '"';
    forall j | 0 <= j < |a| && j != |k| + 2
      ensures a[j] != '"'
    {
      if j > 0 {
        assert a[j] == w[j - 1];
      }
    }
    assert CharFrom(a, '"', 0) == Some(|k| + 2);
    assert CharFrom(a, '"', |k| + 3).None?;
  }

  /** ` k="v` read back: the quote becomes a space, so k maps to " v". */
  lemma OpenQuoteEntry(k: string, v: string)
    requires PlainWord(k) && PlainWord(v)
    ensures ArgEntry(OpenQuote(k, v)) == (k, " " + v)
  {
    var w := OpenQuote(k, v);
    OpenQuotePlain(k, v);
    var r := QuotesToSpaces(w);
    assert r == k + "=" + (" " + v) by {
      forall j | 0 <= j < |w|
        ensures r[j] == (k + "=" + (" " + v))[j]
      {
        if j < |k| {
          assert w[j] == k[j];
        } else if j > |k| + 1 {
          assert w[j] == v[j - |k| - 2];
        }
      }
    }
    ArgEntryOfText(w, k, " " + v);
  }

  /** A word that reads as `k=v` once its quotes are spaces gives the entry (k, v). */
  lemma ArgEntryOfText(word: string, k: string, v: string)
    requires '=' !in k && '=' !in v
    requires QuotesToSpaces(word) == k + "=" + v
    ensures ArgEntry(word) == (k, v)
  {
    var w := k + "=" + v;
    assert '=' in w by {
      assert w[|k|] == '=';
    }
    assert JoinWith([k, v], "=") == w by {
      assert JoinWith([v], "=") == v;
      JoinCons(k, [v], "=");
    }
    SplitJoin([k, v], '=');
  }

  /** The table of a tag whose argument text is ` k="v`. */
  lemma OpenQuoteArgs(tag: string, s: string, k: string, v: string)
    requires |k| > 0 && PlainWord(k) && PlainWord(v)
    requires ArgText(tag, s) == " " + OpenQuote(k, v)
    ensures GetTagArgsAsWritten(tag, s).None?
    ensures Lookup(GetTagArgs(tag, s), k) == Some(" " + v)
  {
    var w := OpenQuote(k, v);
    assert GetTagArgsAsWritten(tag, s).None? by {
      OpenQuoteUnmatched(k, v);
    }
    OpenQuoteUnmatched(k, v);
    OpenQuotePlain(k, v);
    OpenQuoteEntry(k, v);
    OneWordTable(tag, s, w);
  }

  /**
   * An opening quote without a partner: getTagArgs as written calls
   * `strchr(NULL, '"')`, while the intended reading keeps the quote, so
   * that k maps to v with a leading space.
   */
  lemma UnmatchedQuoteAsWritten(tag: string, k: string, v: string, rest: string)
    requires ']' !in tag
    requires |k| > 0 && PlainWord(k) && PlainWord(v)
    ensures GetTagArgsAsWritten(tag, OpenTag(tag) + OpenQuote(k, v) + "]" + rest).None?
    ensures Lookup(GetTagArgs(tag, OpenTag(tag) + OpenQuote(k, v) + "]" + rest), k) == Some(" " + v)
  {
    var w := OpenQuote(k, v);
    var s := OpenTag(tag) + w + "]" + rest;
    assert ArgText(tag, s) == " " + w by {
      OpenQuotePlain(k, v);
      ArgTextAtStart(tag, w, rest);
    }
    OpenQuoteArgs(tag, s, k, v);
  }

  // ---------------------------------------------------------------------
  // getInlineTag: matching a tag with its end tag
  // ---------------------------------------------------------------------

  /** The end of the nesting loop: the last end tag it met, or a loop that never ends. */
  datatype Nest = Closed(end: Option<nat>) | Stuck

  /**
   * The nesting loop shared by getInlineTag and processIf. `tmp` is the
   * position reached (-1 before the first step) and `depth` the count of
   * open tags; each step looks for the next tag and the next end tag after
   * `tmp`. A tag before the next end tag opens one more level, an end tag
   * before the next tag closes one; the loop stops once the depth is no
   * longer positive. With levels still open and no end tag left, neither
   * step applies and the loop repeats the same searches forever.
   */
  function NestFrom(s: string, tag: string, endPat: string, tmp: int, depth: int, end: Option<nat>): (r: Nest)
    requires |endPat| > 0 && tmp >= -1
    requires end.Some? ==> OccursAt(s, endPat, end.value)
    ensures r.Closed? && r.end.Some? ==> OccursAt(s, endPat, r.end.value)
    decreases |s| - tmp
  {
    var patIn := FindTagFrom(s, tag, tmp + 1);
    match FindFrom(s, endPat, tmp + 1)
    case None => if depth <= 0 then Closed(end) else Stuck
    case Some(out) =>
      if patIn.Some? && patIn.value < out then
        if depth + 1 <= 0 then Closed(end)
        else NestFrom(s, tag, endPat, patIn.value, depth + 1, end)
      else if patIn.None? || out < patIn.value then
        if depth - 1 <= 0 then Closed(Some(out))
        else NestFrom(s, tag, endPat, out, depth - 1, Some(out))
      else if depth <= 0 then Closed(end)
      else Stuck
  }

  /** The loop run from the start of `s`, with `endPat` as the end tag. */
  function Nesting(s: string, tag: string, endPat: string): (r: Nest)
    requires |endPat| > 0
    ensures r.Closed? && r.end.Some? ==> OccursAt(s, endPat, r.end.value)
  {
    NestFrom(s, tag, endPat, -1, 0, None)
  }

  lemma FindTagLess(s: string, tag: string, from: nat)
    ensures FindTagFrom(s, tag, from).Some? ==> FindTagFrom(s, tag, from).value < |s|
  {
  }

  /** The result of getInlineTag: no result text, the text, a failure, or no return at all. */
  datatype Inline = Hangs | Malformed | Inner(text: Option<string>)

  /** The text between the ']' that ends the tag at `st` and the end tag at `end`. */
  function InnerText(s: string, st: nat, end: nat): (r: Inline)
    ensures r.Inner? && r.text.Some? ==> |r.text.value| > 0
  {
    match CharFrom(s, ']', st)
    case None => Malformed
    case Some(b) => if end > b + 1 && end <= |s| then Inner(Some(s[b + 1..end])) else Inner(None)
  }

  /** getInlineTag as written: unbalanced tags make it loop forever. */
  function InlineTagAsWritten(tag: string, s: string): (r: Inline) {
    match FindTagFrom(s, tag, 0)
    case None => Inner(None)
    case Some(st) =>
      match Nesting(s, tag, EndTag(tag))
      case Stuck => Hangs
      case Closed(None) => Inner(None)
      case Closed(Some(e)) => InnerText(s, st, e)
  }

  /** getInlineTag with a tag that is never closed read as having no text. */
  function InlineTag(tag: string, s: string): (r: Inline)
    ensures !r.Hangs?
  {
    match FindTagFrom(s, tag, 0)
    case None => Inner(None)
    case Some(st) =>
      match Nesting(s, tag, EndTag(tag))
      case Stuck => Inner(None)
      case Closed(None) => Inner(None)
      case Closed(Some(e)) => InnerText(s, st, e)
  }

  lemma InlineTagAsWrittenAgrees(tag: string, s: string)
    ensures !InlineTagAsWritten(tag, s).Hangs? ==> InlineTagAsWritten(tag, s) == InlineTag(tag, s)
    ensures InlineTagAsWritten(tag, s).Hangs? ==> InlineTag(tag, s) == Inner(None)
  {
  }

  lemma FindFromHit(s: string, p: string, from: nat, i: nat)
    requires from <= i && OccursAt(s, p, i)
    requires forall j :: from <= j < i ==> !OccursAt(s, p, j)
    ensures FindFrom(s, p, from) == Some(i)
  {
    FindFromIsFirst(s, p, from);
  }

  lemma FindFromMiss(s: string, p: string, from: nat)
    requires forall j :: from <= j ==> !OccursAt(s, p, j)
    ensures FindFrom(s, p, from).None?
  {
    FindFromIsFirst(s, p, from);
  }

  /** A character that differs from the pattern's rules out an occurrence. */
  lemma NotAt(s: string, p: string, j: nat, k: nat)
    requires k < |p| && (j + k < |s| ==> s[j + k] != p[k])
    ensures !OccursAt(s, p, j)
  {
    if j + |p| <= |s| {
      assert s[j..j + |p|][k] == s[j + k];
    }
  }

  /** "[x][x]a[/x]" holds no "[x ". */
  lemma HangNoOpen(from: nat)
    ensures FindFrom("[x][x]a[/x]", "[x ", from).None?
  {
    var s := "[x][x]a[/x]";
    forall j | from <= j
      ensures !OccursAt(s, "[x ", j)
    {
      if j + 3 <= |s| {
        assert s[j + 2] != ' ' by {
          assert forall i :: 0 <= i < |s| ==> s[i] != ' ';
        }
      }
      NotAt(s, "[x ", j, 2);
    }
    FindFromMiss(s, "[x ", from);
  }

  /** The "[x]" searches in "[x][x]a[/x]". */
  lemma HangBare()
    ensures FindFrom("[x][x]a[/x]", "[x]", 0) == Some(0)
    ensures FindFrom("[x][x]a[/x]", "[x]", 1) == Some(3)
    ensures FindFrom("[x][x]a[/x]", "[x]", 4).None?
    ensures FindFrom("[x][x]a[/x]", "[x]", 8).None?
  {
    var s := "[x][x]a[/x]";
    assert OccursAt(s, "[x]", 0) && OccursAt(s, "[x]", 3);
    FindFromHit(s, "[x]", 0, 0);
    NotAt(s, "[x]", 1, 0);
    NotAt(s, "[x]", 2, 0);
    FindFromHit(s, "[x]", 1, 3);
    forall j | 4 <= j
      ensures !OccursAt(s, "[x]", j)
    {
      if j == 7 {
        NotAt(s, "[x]", j, 1);
      } else if j < 9 {
        NotAt(s, "[x]", j, 0);
      } else {
        NotAt(s, "[x]", j, 2);
      }
    }
    FindFromMiss(s, "[x]", 4);
    FindFromMiss(s, "[x]", 8);
  }

  /** The "[/x" searches in "[x][x]a[/x]". */
  lemma HangEnd()
    ensures FindFrom("[x][x]a[/x]", "[/x", 0) == Some(7)
    ensures FindFrom("[x][x]a[/x]", "[/x", 1) == Some(7)
    ensures FindFrom("[x][x]a[/x]", "[/x", 4) == Some(7)
    ensures FindFrom("[x][x]a[/x]", "[/x", 8).None?
  {
    var s := "[x][x]a[/x]";
    assert OccursAt(s, "[/x", 7);
    forall j | 0 <= j < 7
      ensures !OccursAt(s, "[/x", j)
    {
      if j == 0 || j == 3 {
        NotAt(s, "[/x", j, 1);
      } else {
        NotAt(s, "[/x", j, 0);
      }
    }
    FindFromHit(s, "[/x", 0, 7);
    FindFromHit(s, "[/x", 1, 7);
    FindFromHit(s, "[/x", 4, 7);
    forall j | 8 <= j
      ensures !OccursAt(s, "[/x", j)
    {
      if j < 9 {
        NotAt(s, "[/x", j, 0);
      } else {
        NotAt(s, "[/x", j, 2);
      }
    }
    FindFromMiss(s, "[/x", 8);
  }

  /** The searches the nesting loop makes in "[x][x]a[/x]". */
  lemma HangSearches()
    ensures EndTag("x") == "[/x"
    ensures FindTagFrom("[x][x]a[/x]", "x", 0) == Some(0)
    ensures FindTagFrom("[x][x]a[/x]", "x", 1) == Some(3)
    ensures FindTagFrom("[x][x]a[/x]", "x", 4).None?
    ensures FindTagFrom("[x][x]a[/x]", "x", 8).None?
    ensures FindFrom("[x][x]a[/x]", "[/x", 0) == Some(7)
    ensures FindFrom("[x][x]a[/x]", "[/x", 1) == Some(7)
    ensures FindFrom("[x][x]a[/x]", "[/x", 4) == Some(7)
    ensures FindFrom("[x][x]a[/x]", "[/x", 8).None?
  {
    assert OpenTag("x") == "[x " && BareTag("x") == "[x]" && EndTag("x") == "[/x";
    HangNoOpen(0);
    HangNoOpen(1);
    HangNoOpen(4);
    HangNoOpen(8);
    HangBare();
    HangEnd();
  }

  /** A tag before the next end tag: the loop opens one more level and
      goes on from that tag. */
  lemma NestOpens(s: string, tag: string, e: string, tmp: int, depth: int, end: Option<nat>, pin: nat, pout: nat)
    requires |e| > 0 && tmp >= -1 && depth >= 0
    requires end.Some? ==> OccursAt(s, e, end.value)
    requires FindTagFrom(s, tag, tmp + 1) == Some(pin) && FindFrom(s, e, tmp + 1) == Some(pout) && pin < pout
    ensures NestFrom(s, tag, e, tmp, depth, end) == NestFrom(s, tag, e, pin, depth + 1, end)
  {
  }

  /** An end tag before any further tag closes a level; with levels still
      open the loop goes on from that end tag. */
  lemma NestCloses(s: string, tag: string, e: string, tmp: int, depth: int, end: Option<nat>, pout: nat)
    requires |e| > 0 && tmp >= -1 && depth >= 2
    requires end.Some? ==> OccursAt(s, e, end.value)
    requires FindFrom(s, e, tmp + 1) == Some(pout)
    requires FindTagFrom(s, tag, tmp + 1).None? || pout < FindTagFrom(s, tag, tmp + 1).value
    ensures NestFrom(s, tag, e, tmp, depth, end) == NestFrom(s, tag, e, pout, depth - 1, Some(pout))
  {
  }

  /** With levels open and no end tag ahead, the loop is stuck. */
  lemma NestStuck(s: string, tag: string, e: string, tmp: int, depth: int, end: Option<nat>)
    requires |e| > 0 && tmp >= -1 && depth >= 1
    requires end.Some? ==> OccursAt(s, e, end.value)
    requires FindFrom(s, e, tmp + 1).None?
    ensures NestFrom(s, tag, e, tmp, depth, end) == Stuck
  {
  }

  /** Two tags, then one end tag, then nothing: the loop never ends. */
  lemma HangLoop(s: string, tag: string, e: string)
    requires |e| > 0
    requires FindTagFrom(s, tag, 0) == Some(0) && FindTagFrom(s, tag, 1) == Some(3)
    requires FindFrom(s, e, 0) == Some(7) && FindFrom(s, e, 1) == Some(7)
    requires FindFrom(s, e, 4) == Some(7) && FindFrom(s, e, 8).None?
    requires FindTagFrom(s, tag, 4).None?
    ensures Nesting(s, tag, e) == Stuck
  {
    NestOpens(s, tag, e, -1, 0, None, 0, 7);
    NestOpens(s, tag, e, 0, 1, None, 3, 7);
    NestCloses(s, tag, e, 3, 2, None, 7);
    NestStuck(s, tag, e, 7, 1, Some(7));
  }

  /** Two "[x]" and one "[/x]": getInlineTag as written never returns. */
  lemma InlineTagAsWrittenHangs()
    ensures InlineTagAsWritten("x", "[x][x]a[/x]") == Hangs
    ensures InlineTag("x", "[x][x]a[/x]") == Inner(None)
  {
    HangSearches();
    HangLoop("[x][x]a[/x]", "x", "[/x");
  }

  /** `[tag args]a[/tag` followed by anything. */
  function Enclosed(tag: string, args: string, a: string, rest: string): (r: string)
    ensures |r| == |tag| + |args| + |a| + |tag| + |rest| + 5
  {
    OpenTag(tag) + args + "]" + a + EndTag(tag) + rest
  }

  /** Where the brackets of `Enclosed` are. */
  lemma EnclosedLayout(tag: string, args: string, a: string, rest: string)
    requires '[' !in tag && ']' !in tag && '[' !in args && ']' !in args && '[' !in a
    ensures var t := Enclosed(tag, args, a, rest);
            var b := |tag| + 2 + |args|;
            var p := b + 1 + |a|;
            && OccursAt(t, OpenTag(tag), 0)
            && OccursAt(t, EndTag(tag), p) && t[p + 1] == '/'
            && (forall j :: 1 <= j < p ==> t[j] != '[')
            && t[b] == ']' && (forall j :: 0 <= j < b ==> t[j] != ']')
            && t[b + 1..p] == a
  {
    var t := Enclosed(tag, args, a, rest);
    var b := |tag| + 2 + |args|;
    var p := b + 1 + |a|;
    assert t[..|tag| + 2] == OpenTag(tag);
    assert t[p..p + |tag| + 2] == EndTag(tag);
    forall j | 1 <= j < p
      ensures t[j] != '['
    {
      if j <= |tag| {
        assert t[j] == tag[j - 1] && tag[j - 1] in tag;
      } else if |tag| + 1 < j < b {
        assert t[j] == args[j - |tag| - 2] && args[j - |tag| - 2] in args;
      } else if j > b {
        assert t[j] == a[j - b - 1] && a[j - b - 1] in a;
      }
    }
    forall j | 0 <= j < b
      ensures t[j] != ']'
    {
      if 1 <= j <= |tag| {
        assert t[j] == tag[j - 1] && tag[j - 1] in tag;
      } else if |tag| + 1 < j {
        assert t[j] == args[j - |tag| - 2] && args[j - |tag| - 2] in args;
      }
    }
    assert t[b + 1..p] == a;
  }

  /** The searches getInlineTag makes in `Enclosed`. */
  lemma EnclosedSearches(tag: string, args: string, a: string, rest: string)
    requires '[' !in tag && ']' !in tag && '/' !in tag && '[' !in args && ']' !in args && '[' !in a
    ensures var t := Enclosed(tag, args, a, rest);
            var b := |tag| + 2 + |args|;
            var p := b + 1 + |a|;
            && FindTagFrom(t, tag, 0) == Some(0)
            && FindFrom(t, EndTag(tag), 0) == Some(p) && FindFrom(t, EndTag(tag), 1) == Some(p)
            && (FindTagFrom(t, tag, 1).None? || FindTagFrom(t, tag, 1).value > p)
            && CharFrom(t, ']', 0) == Some(b) && t[b + 1..p] == a
  {
    var t := Enclosed(tag, args, a, rest);
    var b := |tag| + 2 + |args|;
    var p := b + 1 + |a|;
    EnclosedLayout(tag, args, a, rest);
    FindFromHit(t, OpenTag(tag), 0, 0);
    forall j | 0 <= j < p
      ensures !OccursAt(t, EndTag(tag), j)
    {
      if j == 0 {
        NotAt(t, EndTag(tag), j, 1);
      } else {
        NotAt(t, EndTag(tag), j, 0);
      }
    }
    FindFromHit(t, EndTag(tag), 0, p);
    FindFromHit(t, EndTag(tag), 1, p);
    NoTagBefore(t, tag, p);
  }

  /** One tag, then its end tag before any other tag: the loop closes there. */
  lemma NestingClosesAt(t: string, tag: string, e: string, p: nat)
    requires |e| > 0
    requires FindTagFrom(t, tag, 0) == Some(0)
    requires FindFrom(t, e, 0) == Some(p) && FindFrom(t, e, 1) == Some(p)
    requires FindTagFrom(t, tag, 1).None? || FindTagFrom(t, tag, 1).value > p
    requires 0 < p
    ensures Nesting(t, tag, e) == Closed(Some(p))
  {
    NestOpens(t, tag, e, -1, 0, None, 0, p);
    NestCloseStep(t, tag, e, p);
  }

  /** An end tag before any further tag closes the one open level. */
  lemma NestCloseStep(t: string, tag: string, e: string, p: nat)
    requires |e| > 0
    requires FindFrom(t, e, 1) == Some(p)
    requires FindTagFrom(t, tag, 1).None? || FindTagFrom(t, tag, 1).value > p
    ensures NestFrom(t, tag, e, 0, 1, None) == Closed(Some(p))
  {
  }

  /** From those searches: the text runs from after `b` to `p`. */
  lemma InlineTagFromSearches(tag: string, t: string, b: nat, p: nat)
    requires b + 1 < p
    requires FindTagFrom(t, tag, 0) == Some(0)
    requires Nesting(t, tag, EndTag(tag)) == Closed(Some(p))
    requires CharFrom(t, ']', 0) == Some(b)
    ensures InlineTagAsWritten(tag, t) == Inner(Some(t[b + 1..p]))
    ensures InlineTag(tag, t) == Inner(Some(t[b + 1..p]))
  {
  }

  /**
   * getInlineTag returns the text between `[tag args]` and the first
   * `[/tag` when no other '[' comes between them.
   */
  lemma InlineTagEnclosed(tag: string, args: string, a: string, rest: string)
    requires '[' !in tag && ']' !in tag && '/' !in tag && '[' !in args && ']' !in args && '[' !in a
    requires |a| > 0
    ensures InlineTagAsWritten(tag, Enclosed(tag, args, a, rest)) == Inner(Some(a))
    ensures InlineTag(tag, Enclosed(tag, args, a, rest)) == Inner(Some(a))
  {
    var t := Enclosed(tag, args, a, rest);
    var b := |tag| + 2 + |args|;
    var p := b + 1 + |a|;
    EnclosedSearches(tag, args, a, rest);
    NestingClosesAt(t, tag, EndTag(tag), p);
    InlineTagFromSearches(tag, t, b, p);
  }

  /** Before `p`, where "[/" stands, no tag starts after position 0. */
  lemma NoTagBefore(t: string, tag: string, p: nat)
    requires '/' !in tag
    requires p + 1 < |t| && t[p + 1] == '/'
    requires forall j :: 1 <= j < p ==> t[j] != '['
    ensures FindTagFrom(t, tag, 1).None? || FindTagFrom(t, tag, 1).value > p
  {
    forall j | 1 <= j <= p
      ensures !OccursAt(t, OpenTag(tag), j) && !OccursAt(t, BareTag(tag), j)
    {
      if j < p {
        NotAt(t, OpenTag(tag), j, 0);
        NotAt(t, BareTag(tag), j, 0);
      } else if |tag| > 0 {
        assert tag[0] in tag;
        NotAt(t, OpenTag(tag), j, 1);
        NotAt(t, BareTag(tag), j, 1);
      } else {
        NotAt(t, OpenTag(tag), j, 1);
        NotAt(t, BareTag(tag), j, 1);
      }
    }
    FindFromIsFirst(t, OpenTag(tag), 1);
    FindFromIsFirst(t, BareTag(tag), 1);
  }

  // ---------------------------------------------------------------------
  // processIf
  // ---------------------------------------------------------------------

  /** What an [if] block turns into: its inner text, nothing, itself, or an error. */
  datatype Decision = Then | Empty | Keep | Unsupported

  /**
   * The test of one [if] block: `oper` (compared case-sensitively) applied
   * to the block's `value` and the variable's value `htValue`. An unset
   * variable leaves the block for a later pass, except that the last pass
   * settles "isnull" and "isset".
   */
  function Decide(oper: string, value: Option<string>, htValue: Option<string>, lastPass: bool): (r: Decision)
    ensures r == Keep ==> htValue.None? && (oper == "eq" || oper == "neq" || !lastPass)
    ensures r == Unsupported <==> oper !in {"eq", "neq", "isnull", "isset"}
  {
    if oper == "neq" then
      if value.Some? && htValue.Some? && !EqualFold(value.value, htValue.value) then Then
      else if htValue.Some? then Empty
      else Keep
    else if oper == "eq" then
      if value.Some? && htValue.Some? && EqualFold(value.value, htValue.value) then Then
      else if htValue.Some? then Empty
      else Keep
    else if oper == "isnull" then
      if htValue.Some? then Empty else if lastPass then Then else Keep
    else if oper == "isset" then
      if htValue.Some? then Then else if lastPass then Empty else Keep
    else Unsupported
  }

  /** "neq" is the negation of "eq" once the variable is set. */
  lemma NeqNegatesEq(value: Option<string>, htValue: Option<string>, lastPass: bool)
    requires htValue.Some?
    ensures Decide("neq", value, htValue, lastPass) == Then <==>
              value.Some? && Decide("eq", value, htValue, lastPass) == Empty
    ensures Decide("eq", value, htValue, lastPass) == Then <==>
              value.Some? && Decide("neq", value, htValue, lastPass) == Empty
  {
  }

  /** "isnull" and "isset" decide oppositely whenever they decide. */
  lemma IsNullNegatesIsSet(value: Option<string>, htValue: Option<string>, lastPass: bool)
    ensures Decide("isnull", value, htValue, lastPass) == Then <==> Decide("isset", value, htValue, lastPass) == Empty
    ensures Decide("isnull", value, htValue, lastPass) == Empty <==> Decide("isset", value, htValue, lastPass) == Then
    ensures Decide("isnull", value, htValue, lastPass) == Keep <==> htValue.None? && !lastPass
  {
  }

  // ---------------------------------------------------------------------
  // The tag loop of processIf and processMetadata
  // ---------------------------------------------------------------------

  /** The outcome of a tag loop: the rewritten text, a failure, or a run that the fuel bound cut short. */
  datatype Processed = Done(text: string) | Failed | OutOfFuel

  /** What the loop does with the tag at the current position. */
  datatype Action =
    | Fail
    | Skip                                               // left in place; the search goes on one further
    | Replace(block: string, text: string, again: bool)  // every copy of `block` becomes `text`; `again`: search from the same place

  /** The rule for one tag, given the text from the tag on. */
  type Rule = string -> Action

  /** A rule that never asks to replace the empty string (gsub would not return). */
  ghost predicate Replaces(rule: Rule) {
    forall t :: rule(t).Replace? ==> |rule(t).block| > 0
  }

  /**
   * The loop of processIf and processMetadata from the tag at `st`,
   * visiting at most `fuel` more tags: the rule is applied to the text
   * from the tag on, a replacement rewrites every copy of the block in the
   * whole text (gsub works in place, so positions keep their meaning), and
   * the next tag is searched from the same position or one further.
   */
  function TagLoop(s: string, tag: string, rule: Rule, st: nat, fuel: nat): (r: Processed)
    requires Replaces(rule) && st <= |s|
    decreases fuel, 0
  {
    if fuel == 0 then OutOfFuel
    else
      match rule(s[st..])
      case Fail => Failed
      case Skip => TagNext(s, tag, rule, FindTagFrom(s, tag, st + 1), fuel - 1)
      case Replace(block, text, again) =>
        var s' := Gsub(s, block, text);
        TagNext(s', tag, rule, FindTagFrom(s', tag, if again then st else st + 1), fuel - 1)
  }

  /** Go on at the next tag, or stop when there is none. */
  function TagNext(s: string, tag: string, rule: Rule, next: Option<nat>, fuel: nat): (r: Processed)
    requires Replaces(rule)
    requires next.Some? ==> next.value <= |s|
    decreases fuel, 1
  {
    match next
    case None => Done(s)
    case Some(st) => TagLoop(s, tag, rule, st, fuel)
  }

  /** The loop over the whole text. */
  function TagRun(s: string, tag: string, rule: Rule, fuel: nat): (r: Processed)
    requires Replaces(rule)
  {
    FindTagLess(s, tag, 0);
    TagNext(s, tag, rule, FindTagFrom(s, tag, 0), fuel)
  }

  /** A text without the tag comes back unchanged. */
  lemma TagRunNoTag(s: string, tag: string, rule: Rule, fuel: nat)
    requires Replaces(rule) && FindTagFrom(s, tag, 0).None?
    ensures TagRun(s, tag, rule, fuel) == Done(s)
  {
  }

  /** One step of the loop at a tag the rule leaves in place. */
  lemma TagLoopSkipStep(s: string, tag: string, rule: Rule, st: nat, fuel: nat)
    requires Replaces(rule) && st <= |s| && fuel > 0 && rule(s[st..]) == Skip
    ensures FindTagFrom(s, tag, st + 1).Some? ==> FindTagFrom(s, tag, st + 1).value <= |s|
    ensures TagLoop(s, tag, rule, st, fuel) == TagNext(s, tag, rule, FindTagFrom(s, tag, st + 1), fuel - 1)
  {
    FindTagLess(s, tag, st + 1);
  }

  /** One step of the loop at a tag the rule replaces. */
  lemma TagLoopReplaceStep(s: string, tag: string, rule: Rule, st: nat, fuel: nat)
    requires Replaces(rule) && st <= |s| && fuel > 0 && rule(s[st..]).Replace?
    ensures var a := rule(s[st..]);
      var s' := Gsub(s, a.block, a.text);
      var next := FindTagFrom(s', tag, if a.again then st else st + 1);
      && (next.Some? ==> next.value <= |s'|)
      && TagLoop(s, tag, rule, st, fuel) == TagNext(s', tag, rule, next, fuel - 1)
  {
    var a := rule(s[st..]);
    FindTagLess(Gsub(s, a.block, a.text), tag, if a.again then st else st + 1);
  }

  /** A loop that finished within its fuel finishes the same way with more. */
  lemma {:induction false} TagLoopMoreFuel(s: string, tag: string, rule: Rule, st: nat, fuel: nat, more: nat)
    requires Replaces(rule) && st <= |s| && fuel <= more
    requires !TagLoop(s, tag, rule, st, fuel).OutOfFuel?
    ensures TagLoop(s, tag, rule, st, more) == TagLoop(s, tag, rule, st, fuel)
    decreases fuel, 1
  {
    if rule(s[st..]).Skip? {
      SkipMoreFuel(s, tag, rule, st, fuel, more);
    } else if rule(s[st..]).Replace? {
      ReplaceMoreFuel(s, tag, rule, st, fuel, more);
    }
  }

  /** TagLoopMoreFuel at a tag the rule leaves in place. */
  lemma {:induction false} SkipMoreFuel(s: string, tag: string, rule: Rule, st: nat, fuel: nat, more: nat)
    requires Replaces(rule) && st <= |s| && 0 < fuel <= more && rule(s[st..]) == Skip
    requires !TagLoop(s, tag, rule, st, fuel).OutOfFuel?
    ensures TagLoop(s, tag, rule, st, more) == TagLoop(s, tag, rule, st, fuel)
    decreases fuel, 0
  {
    TagLoopSkipStep(s, tag, rule, st, fuel);
    TagLoopSkipStep(s, tag, rule, st, more);
    TagNextMoreFuel(s, tag, rule, FindTagFrom(s, tag, st + 1), fuel - 1, more - 1);
  }

  /** TagLoopMoreFuel at a tag the rule replaces. */
  lemma {:induction false} ReplaceMoreFuel(s: string, tag: string, rule: Rule, st: nat, fuel: nat, more: nat)
    requires Replaces(rule) && st <= |s| && 0 < fuel <= more && rule(s[st..]).Replace?
    requires !TagLoop(s, tag, rule, st, fuel).OutOfFuel?
    ensures TagLoop(s, tag, rule, st, more) == TagLoop(s, tag, rule, st, fuel)
    decreases fuel, 0
  {
    var a := rule(s[st..]);
    var s' := Gsub(s, a.block, a.text);
    TagLoopReplaceStep(s, tag, rule, st, fuel);
    TagLoopReplaceStep(s, tag, rule, st, more);
    TagNextMoreFuel(s', tag, rule, FindTagFrom(s', tag, if a.again then st else st + 1), fuel - 1, more - 1);
  }

  /** The same for going on at the next tag. */
  lemma {:induction false} TagNextMoreFuel(s: string, tag: string, rule: Rule, next: Option<nat>, fuel: nat, more: nat)
    requires Replaces(rule) && (next.Some? ==> next.value <= |s|) && fuel <= more
    requires !TagNext(s, tag, rule, next, fuel).OutOfFuel?
    ensures TagNext(s, tag, rule, next, more) == TagNext(s, tag, rule, next, fuel)
    decreases fuel, 2
  {
    if next.Some? {
      TagLoopMoreFuel(s, tag, rule, next.value, fuel, more);
    }
  }

  /** The fuel bound only cuts a run short; it never changes a result. */
  lemma TagRunMoreFuel(s: string, tag: string, rule: Rule, fuel: nat, more: nat)
    requires Replaces(rule) && fuel <= more
    requires !TagRun(s, tag, rule, fuel).OutOfFuel?
    ensures TagRun(s, tag, rule, more) == TagRun(s, tag, rule, fuel)
  {
    FindTagLess(s, tag, 0);
    TagNextMoreFuel(s, tag, rule, FindTagFrom(s, tag, 0), fuel, more);
  }

  /**
   * A rule that leaves in place every tag it meets from `st` on leaves the
   * text as it is, and visits at most one tag per character.
   */
  lemma {:induction false} TagLoopKeeps(s: string, tag: string, rule: Rule, st: nat, fuel: nat)
    requires Replaces(rule) && st <= |s|
    requires forall j :: st <= j <= |s| ==> rule(s[j..]) == Skip
    requires fuel > |s| - st
    ensures TagLoop(s, tag, rule, st, fuel) == Done(s)
    decreases fuel
  {
    assert rule(s[st..]) == Skip;
    var next := FindTagFrom(s, tag, st + 1);
    FindTagLess(s, tag, st + 1);
    if next.Some? {
      TagLoopKeeps(s, tag, rule, next.value, fuel - 1);
    }
  }

  /** The whole-text loop with such a rule returns the text unchanged. */
  lemma TagRunKeeps(s: string, tag: string, rule: Rule, fuel: nat)
    requires Replaces(rule)
    requires forall j :: 0 <= j <= |s| ==> rule(s[j..]) == Skip
    requires fuel > |s|
    ensures TagRun(s, tag, rule, fuel) == Done(s)
  {
    FindTagLess(s, tag, 0);
    if FindTagFrom(s, tag, 0).Some? {
      TagLoopKeeps(s, tag, rule, FindTagFrom(s, tag, 0).value, fuel);
    }
  }

  /** Replacing a whole text by `x` gives `x`. */
  lemma GsubWhole(s: string, x: string)
    requires |s| > 0
    ensures Gsub(s, s, x) == x
  {
    assert OccursAt(s, s, 0) by {
      assert s[0..|s|] == s;
    }
    FindAt(s, s, 0);
    assert Find(s[|s|..], s).None?;
  }

  /**
   * A text that is one tag's block, with no other tag in it: the loop
   * gives the block's replacement, or the text itself when the rule skips it.
   */
  lemma TagRunOneBlock(s: string, tag: string, rule: Rule, text: string, again: bool, fuel: nat)
    requires Replaces(rule) && fuel >= 1 && |s| > 0
    requires FindTagFrom(s, tag, 0) == Some(0) && FindTagFrom(s, tag, 1).None?
    requires FindTagFrom(text, tag, 0).None?
    ensures rule(s) == Replace(s, text, again) ==> TagRun(s, tag, rule, fuel) == Done(text)
    ensures rule(s) == Skip ==> TagRun(s, tag, rule, fuel) == Done(s)
    ensures rule(s) == Fail ==> TagRun(s, tag, rule, fuel) == Failed
  {
    assert s[0..] == s;
    assert TagRun(s, tag, rule, fuel) == TagLoop(s, tag, rule, 0, fuel);
    if rule(s) == Replace(s, text, again) {
      GsubWhole(s, text);
      FindFromIsFirst(text, OpenTag(tag), 0);
      FindFromIsFirst(text, BareTag(tag), 0);
      FindFromMiss(text, OpenTag(tag), 1);
      FindFromMiss(text, BareTag(tag), 1);
      assert FindTagFrom(text, tag, if again then 0 else 1).None?;
    }
  }

  // ---------------------------------------------------------------------
  // processIf
  // ---------------------------------------------------------------------

  /** The end of the [if] block at the start of `t`, unless the block is never closed. */
  function IfEnd(t: string): (r: Option<nat>)
    ensures r.Some? ==> OccursAt(t, "[/if]", r.value)
  {
    match Nesting(t, "if", "[/if]")
    case Closed(e) => e
    case Stuck => None
  }

  /** The operator of an [if] block; "eq" when it names none. */
  function Operator(args: Table): string {
    OperatorOf(Lookup(args, "oper"))
  }

  function OperatorOf(oper: Option<string>): string {
    match oper
    case Some(o) => o
    case None => "eq"
  }

  /** The action for an [if] block: its inner text, nothing, itself, or a failure. */
  function IfBlockAction(block: string, thenText: string, d: Decision): (r: Action)
    ensures r.Replace? ==> r.block == block
  {
    match d
    case Unsupported => Fail
    case Keep => Skip
    case Then => Replace(block, thenText, false)
    case Empty => Replace(block, "", true)
  }

  /**
   * The [if] block at the start of `t`: it is tested and, when the test
   * decides, replaced by its inner text or by nothing. A named block that
   * is never closed fails (the source then reads an end pointer left over
   * from an earlier block, or a null one); an unnamed one is skipped.
   */
  function IfStep(t: string, ht: Table, lastPass: bool): (r: Action)
    ensures r.Replace? ==> |r.block| > 0
  {
    IfStepWith(InlineTag("if", t), GetTagArgs("if", t), IfBlockText(t), ht, lastPass)
  }

  /** The text of the [if] block at the start of `t`, up to and including its end tag. */
  function IfBlockText(t: string): (r: Option<string>)
    ensures r.Some? ==> |r.value| >= 5 && r.value <= t
  {
    match IfEnd(t)
    case None => None
    case Some(e) => Some(t[..e + 5])
  }

  /** `IfStep` once the inner text, the arguments and the block are known. */
  function IfStepWith(inline: Inline, args: Table, block: Option<string>, ht: Table, lastPass: bool): (r: Action)
    ensures r.Replace? ==> block == Some(r.block)
  {
    match inline
    case Hangs => Fail
    case Malformed => Fail
    case Inner(inner) =>
      match Lookup(args, "name")
      case None => Skip
      case Some(name) =>
        match block
        case None => Fail
        case Some(b) =>
          IfBlockAction(b, if inner.Some? then inner.value else "",
                        Decide(Operator(args), Lookup(args, "value"), Lookup(ht, name), lastPass))
  }

  function IfRule(ht: Table, lastPass: bool): (r: Rule)
    ensures Replaces(r)
  {
    t => IfStep(t, ht, lastPass)
  }

  /**
   * processIf, visiting at most `fuel` blocks. An unbalanced block, which
   * makes the source loop forever, is read as never closed.
   */
  function ProcessIf(s: string, ht: Table, lastPass: bool, fuel: nat): (r: Processed) {
    TagRun(s, "if", IfRule(ht, lastPass), fuel)
  }

  /** The block at the start of `s`, closed at `p`, is tested as a whole. */
  lemma IfStepOfBlock(s: string, a: string, ht: Table, lastPass: bool)
    requires IfBlockText(s) == Some(s)
    requires InlineTag("if", s) == Inner(Some(a))
    requires Lookup(GetTagArgs("if", s), "name").Some?
    ensures var args := GetTagArgs("if", s);
            IfStep(s, ht, lastPass) ==
              IfBlockAction(s, a, Decide(Operator(args), Lookup(args, "value"), Lookup(ht, Lookup(args, "name").value), lastPass))
  {
  }

  /** Where a pattern occurs, so does each of its prefixes. */
  lemma PrefixOccurs(s: string, short: string, long: string, j: nat)
    requires |short| <= |long| && long[..|short|] == short
    ensures OccursAt(s, long, j) ==> OccursAt(s, short, j)
  {
    if OccursAt(s, long, j) {
      assert s[j..j + |short|] == s[j..j + |long|][..|short|];
    }
  }

  /** The first match of a longer pattern is the first match of its prefix when that one extends. */
  lemma FindLonger(s: string, short: string, long: string, from: nat, i: nat)
    requires |short| <= |long| && long[..|short|] == short
    requires FindFrom(s, short, from) == Some(i) && OccursAt(s, long, i)
    ensures FindFrom(s, long, from) == Some(i)
  {
    FindFromIsFirst(s, short, from);
    forall j | from <= j < i
      ensures !OccursAt(s, long, j)
    {
      PrefixOccurs(s, short, long, j);
    }
    FindFromHit(s, long, from, i);
  }

  /** `[if k1=v1 ...]a[/if]` */
  function IfBlock(keys: seq<string>, values: seq<string>, a: string): (r: string)
    requires |keys| == |values|
  {
    Enclosed("if", JoinWith(Pairs(keys, values), " "), a, "]")
  }

  /** Tag words that getTagArgs reads back and that hold no '[' to be taken for another tag. */
  predicate TagWords(keys: seq<string>, values: seq<string>) {
    && ArgWords(keys, values)
    && (forall i :: 0 <= i < |keys| ==> '[' !in keys[i] && '[' !in values[i])
  }

  lemma TagArgsPlain(keys: seq<string>, values: seq<string>)
    requires TagWords(keys, values)
    ensures '[' !in JoinWith(Pairs(keys, values), " ") && ']' !in JoinWith(Pairs(keys, values), " ")
  {
    var words := Pairs(keys, values);
    forall i | 0 <= i < |words|
      ensures '[' !in words[i] && ']' !in words[i]
    {
      NoSpaceInPair(keys[i], values[i]);
      assert words[i] == keys[i] + "=" + values[i];
    }
    NoCharInJoin(words, " ", '[');
    NoCharInJoin(words, " ", ']');
  }

  /** Nothing after the end tag of `Enclosed(tag, args, a, "]")` starts a tag. */
  lemma EnclosedNoLaterTag(tag: string, args: string, a: string)
    requires '[' !in tag && ']' !in tag && '/' !in tag && '[' !in args && ']' !in args && '[' !in a
    ensures FindTagFrom(Enclosed(tag, args, a, "]"), tag, 1).None?
  {
    var s := Enclosed(tag, args, a, "]");
    var p := |tag| + 3 + |args| + |a|;
    EnclosedLayout(tag, args, a, "]");
    assert forall j :: p < j < |s| ==> s[j] != '[' by {
      assert s[p..] == EndTag(tag) + "]";
      forall j | p < j < |s|
        ensures s[j] != '['
      {
        assert s[j] == (EndTag(tag) + "]")[j - p];
        if p + 1 < j < |s| - 1 {
          assert s[j] == tag[j - p - 2] && tag[j - p - 2] in tag;
        }
      }
    }
    forall j | p < j
      ensures !OccursAt(s, OpenTag(tag), j) && !OccursAt(s, BareTag(tag), j)
    {
      NotAt(s, OpenTag(tag), j, 0);
      NotAt(s, BareTag(tag), j, 0);
    }
    NoTagBefore(s, tag, p);
    FindFromIsFirst(s, OpenTag(tag), 1);
    FindFromIsFirst(s, BareTag(tag), 1);
    FindFromMiss(s, OpenTag(tag), 1);
    FindFromMiss(s, BareTag(tag), 1);
  }

  /** processIf's own loop closes an [if] block at its "[/if]". */
  lemma EnclosedIfEnd(args: string, a: string)
    requires '[' !in args && ']' !in args && '[' !in a
    ensures var s := Enclosed("if", args, a, "]");
            && FindTagFrom(s, "if", 0) == Some(0) && FindTagFrom(s, "if", 1).None?
            && IfEnd(s) == Some(|s| - 5)
  {
    var s := Enclosed("if", args, a, "]");
    var p := |s| - 5;
    assert EndTag("if") == "[/if" && "[/if]"[..4] == "[/if";
    EnclosedSearches("if", args, a, "]");
    EnclosedNoLaterTag("if", args, a);
    assert OccursAt(s, "[/if]", p) by {
      assert s[p..p + 5] == "[/if]";
    }
    FindLonger(s, "[/if", "[/if]", 0, p);
    FindLonger(s, "[/if", "[/if]", 1, p);
    NestingClosesAt(s, "if", "[/if]", p);
  }

  /** getTagArgs reads back the value written for each non-empty key. */
  lemma TagArgsLookup(tag: string, keys: seq<string>, values: seq<string>, rest: string, x: string)
    requires ']' !in tag && ArgWords(keys, values) && x != ""
    ensures Lookup(GetTagArgs(tag, OpenTag(tag) + JoinWith(Pairs(keys, values), " ") + "]" + rest), x) ==
              KeyValue(keys, values, x)
  {
    KeyValueAt(keys, values, x);
    if i :| 0 <= i < |keys| && keys[i] == x {
      TagArgsRoundTrip(tag, keys, values, rest);
    } else {
      TagArgsAbsent(tag, keys, values, rest, x);
    }
  }

  /** A text without '[' from `from` on holds no tag there. */
  lemma NoBracketFrom(a: string, tag: string, from: nat)
    requires forall j :: from <= j < |a| ==> a[j] != '['
    ensures FindTagFrom(a, tag, from).None?
  {
    forall j | from <= j
      ensures !OccursAt(a, OpenTag(tag), j) && !OccursAt(a, BareTag(tag), j)
    {
      NotAt(a, OpenTag(tag), j, 0);
      NotAt(a, BareTag(tag), j, 0);
    }
    FindFromMiss(a, OpenTag(tag), from);
    FindFromMiss(a, BareTag(tag), from);
  }

  /** A text without '[' holds no tag. */
  lemma NoBracketNoTag(a: string, tag: string, from: nat)
    requires '[' !in a
    ensures FindTagFrom(a, tag, from).None?
  {
    forall j | from <= j < |a|
      ensures a[j] != '['
    {
      assert a[j] in a;
    }
    NoBracketFrom(a, tag, from);
  }

  /** The [if] rule on a block: its test decides on the block as a whole. */
  lemma IfBlockStep(args: string, a: string, ht: Table, lastPass: bool)
    requires '[' !in args && ']' !in args && '[' !in a && |a| > 0
    requires Lookup(GetTagArgs("if", Enclosed("if", args, a, "]")), "name").Some?
    ensures var s := Enclosed("if", args, a, "]");
            var t := GetTagArgs("if", s);
            IfStep(s, ht, lastPass) ==
              IfBlockAction(s, a, Decide(Operator(t), Lookup(t, "value"), Lookup(ht, Lookup(t, "name").value), lastPass))
  {
    var s := Enclosed("if", args, a, "]");
    IfBlockTextEnclosed(args, a);
    InlineTagEnclosed("if", args, a, "]");
    IfStepOfBlock(s, a, ht, lastPass);
  }

  /** A lone [if] block is its own block text. */
  lemma IfBlockTextEnclosed(args: string, a: string)
    requires '[' !in args && ']' !in args && '[' !in a
    ensures IfBlockText(Enclosed("if", args, a, "]")) == Some(Enclosed("if", args, a, "]"))
  {
    EnclosedIfEnd(args, a);
    IfBlockTextWhole(Enclosed("if", args, a, "]"));
  }

  /** A text whose [if] block closes at its very end is all block. */
  lemma IfBlockTextWhole(s: string)
    requires |s| >= 5 && IfEnd(s) == Some(|s| - 5)
    ensures IfBlockText(s) == Some(s)
  {
    assert s[..|s| - 5 + 5] == s;
  }

  /** What processIf makes of a lone block, given its decision. */
  function IfOutcome(block: string, thenText: string, d: Decision): Processed {
    match d
    case Then => Done(thenText)
    case Empty => Done("")
    case Keep => Done(block)
    case Unsupported => Failed
  }

  /** A lone named [if] block is replaced as its test decides. */
  lemma IfBlockRun(args: string, a: string, ht: Table, lastPass: bool, fuel: nat)
    requires '[' !in args && ']' !in args && '[' !in a && |a| > 0 && fuel >= 1
    requires Lookup(GetTagArgs("if", Enclosed("if", args, a, "]")), "name").Some?
    ensures var s := Enclosed("if", args, a, "]");
            var t := GetTagArgs("if", s);
            ProcessIf(s, ht, lastPass, fuel) ==
              IfOutcome(s, a, Decide(Operator(t), Lookup(t, "value"), Lookup(ht, Lookup(t, "name").value), lastPass))
  {
    var s := Enclosed("if", args, a, "]");
    var t := GetTagArgs("if", s);
    var d := Decide(Operator(t), Lookup(t, "value"), Lookup(ht, Lookup(t, "name").value), lastPass);
    var rule := IfRule(ht, lastPass);
    assert rule(s) == IfBlockAction(s, a, d) by {
      IfBlockStep(args, a, ht, lastPass);
    }
    assert FindTagFrom(s, "if", 0) == Some(0) && FindTagFrom(s, "if", 1).None? by {
      EnclosedIfEnd(args, a);
    }
    NoBracketNoTag(a, "if", 0);
    NoBracketNoTag("", "if", 0);
    TagRunOneBlock(s, "if", rule, if d == Then then a else "", d == Empty, fuel);
  }

  /** `[if k1=v1 ...]` laid out as `Enclosed`, with its words after the tag. */
  lemma IfBlockLayout(keys: seq<string>, values: seq<string>, a: string)
    requires |keys| == |values|
    ensures IfBlock(keys, values, a) ==
              OpenTag("if") + JoinWith(Pairs(keys, values), " ") + "]" + (a + EndTag("if") + "]")
  {
  }

  /**
   * processIf on a lone block `[if k1=v1 ...]a[/if]` that names a key:
   * the block gives way to `a`, to nothing, stays, or fails, as its
   * operator, value and the key's entry in `ht` decide.
   */
  lemma IfBlockProcessed(keys: seq<string>, values: seq<string>, a: string, ht: Table, lastPass: bool, fuel: nat)
    requires TagWords(keys, values) && '[' !in a && |a| > 0 && fuel >= 1
    requires KeyValue(keys, values, "name").Some?
    ensures ProcessIf(IfBlock(keys, values, a), ht, lastPass, fuel) ==
              IfOutcome(IfBlock(keys, values, a), a,
                        Decide(OperatorOf(KeyValue(keys, values, "oper")), KeyValue(keys, values, "value"),
                               Lookup(ht, KeyValue(keys, values, "name").value), lastPass))
  {
    var args := JoinWith(Pairs(keys, values), " ");
    var rest := a + EndTag("if") + "]";
    var s := IfBlock(keys, values, a);
    var t := GetTagArgs("if", s);
    IfBlockLayout(keys, values, a);
    TagArgsLookup("if", keys, values, rest, "name");
    TagArgsLookup("if", keys, values, rest, "value");
    TagArgsLookup("if", keys, values, rest, "oper");
    TagArgsPlain(keys, values);
    IfBlockRun(args, a, ht, lastPass, fuel);
  }

  /** A lone block that names no key is left as it is. */
  lemma IfBlockUnnamed(keys: seq<string>, values: seq<string>, a: string, ht: Table, lastPass: bool, fuel: nat)
    requires TagWords(keys, values) && '[' !in a && |a| > 0 && fuel >= 1
    requires KeyValue(keys, values, "name").None?
    ensures ProcessIf(IfBlock(keys, values, a), ht, lastPass, fuel) == Done(IfBlock(keys, values, a))
  {
    var args := JoinWith(Pairs(keys, values), " ");
    var s := IfBlock(keys, values, a);
    TagArgsPlain(keys, values);
    assert Lookup(GetTagArgs("if", s), "name").None? by {
      IfBlockLayout(keys, values, a);
      TagArgsLookup("if", keys, values, a + EndTag("if") + "]", "name");
    }
    assert IfRule(ht, lastPass)(s) == Skip by {
      InlineTagEnclosed("if", args, a, "]");
    }
    assert FindTagFrom(s, "if", 0) == Some(0) && FindTagFrom(s, "if", 1).None? by {
      EnclosedIfEnd(args, a);
    }
    TagRunOneBlock(s, "if", IfRule(ht, lastPass), "", false, fuel);
  }

  // ---------------------------------------------------------------------
  // processMetadata
  // ---------------------------------------------------------------------

  /** The tag at the start of `t` up to and including its first ']'. */
  function TagText(t: string): (r: Option<string>)
    ensures r.Some? ==> |r.value| > 0 && r.value <= t && r.value[|r.value| - 1] == ']'
  {
    match CharFrom(t, ']', 0)
    case None => None
    case Some(e) => Some(t[..e + 1])
  }

  /**
   * A [metadata] tag is replaced by the value its "name" argument has in
   * `ht`; it is left alone when it names nothing or the name has no value.
   * The search goes on one past the tag's position, or from that position
   * when the value is empty and the text after the tag has moved into it.
   */
  function MetadataStepWith(name: Option<string>, tagText: Option<string>, ht: Table): (r: Action)
    ensures r.Replace? <==> name.Some? && Lookup(ht, name.value).Some? && tagText.Some?
    ensures r.Replace? ==> r.block == tagText.value && Some(r.text) == Lookup(ht, name.value)
    ensures r.Replace? ==> (r.again <==> |r.text| == 0)
    ensures !r.Fail?
  {
    match name
    case None => Skip
    case Some(n) =>
      match Lookup(ht, n)
      case None => Skip
      case Some(value) =>
        match tagText
        case None => Skip
        case Some(block) => Replace(block, value, |value| == 0)
  }

  /**
   * The step as processMetadata writes it: the search always goes on one
   * past the tag's position, also after an empty value has pulled the
   * following text into that position.
   */
  function MetadataStepAsWritten(name: Option<string>, tagText: Option<string>, ht: Table): (r: Action)
    ensures r.Replace? <==> name.Some? && Lookup(ht, name.value).Some? && tagText.Some?
    ensures r.Replace? ==> r.block == tagText.value && Some(r.text) == Lookup(ht, name.value) && !r.again
    ensures !r.Fail?
  {
    match name
    case None => Skip
    case Some(n) =>
      match Lookup(ht, n)
      case None => Skip
      case Some(value) =>
        match tagText
        case None => Skip
        case Some(block) => Replace(block, value, false)
  }

  function MetadataStep(t: string, ht: Table): (r: Action)
    ensures r.Replace? ==> |r.block| > 0
  {
    MetadataStepWith(Lookup(GetTagArgs("metadata", t), "name"), TagText(t), ht)
  }

  function MetadataRule(ht: Table): (r: Rule)
    ensures Replaces(r)
  {
    t => MetadataStep(t, ht)
  }

  /** processMetadata, visiting at most `fuel` tags. */
  function ProcessMetadata(s: string, ht: Table, fuel: nat): (r: Processed) {
    TagRun(s, "metadata", MetadataRule(ht), fuel)
  }

  /** With no metadata set, every `[metadata]` tag stays and the text is unchanged. */
  lemma ProcessMetadataEmptyTable(s: string, fuel: nat)
    requires fuel > |s|
    ensures ProcessMetadata(s, [], fuel) == Done(s)
  {
    forall j | 0 <= j <= |s|
      ensures MetadataRule([])(s[j..]) == Skip
    {
      var name := Lookup(GetTagArgs("metadata", s[j..]), "name");
      if name.Some? {
        assert Lookup([], name.value).None?;
      }
    }
    TagRunKeeps(s, "metadata", MetadataRule([]), fuel);
  }

  function MetadataRuleAsWritten(ht: Table): (r: Rule)
    ensures Replaces(r)
  {
    t => MetadataStepAsWritten(Lookup(GetTagArgs("metadata", t), "name"), TagText(t), ht)
  }

  /** processMetadata as written, visiting at most `fuel` tags. */
  function ProcessMetadataAsWritten(s: string, ht: Table, fuel: nat): (r: Processed) {
    TagRun(s, "metadata", MetadataRuleAsWritten(ht), fuel)
  }

  /** The loop with a first tag at the start that the rule replaces: it
      goes on in the rewritten text from where the rule says. */
  lemma TagRunReplaceStep(s: string, tag: string, rule: Rule, block: string, text: string, again: bool, fuel: nat)
    requires Replaces(rule) && fuel >= 1 && |block| > 0
    requires FindTagFrom(s, tag, 0) == Some(0) && rule(s) == Replace(block, text, again)
    ensures var s' := Gsub(s, block, text);
      TagRun(s, tag, rule, fuel) == TagNext(s', tag, rule, FindTagFrom(s', tag, if again then 0 else 1), fuel - 1)
  {
    assert s[0..] == s;
    assert TagRun(s, tag, rule, fuel) == TagLoop(s, tag, rule, 0, fuel);
  }

  /** A loop that replaces the one tag at the start, and finds no tag after it, ends there. */
  lemma TagRunReplaceFirst(s: string, tag: string, rule: Rule, block: string, text: string, again: bool, fuel: nat)
    requires Replaces(rule) && fuel >= 1 && |block| > 0
    requires FindTagFrom(s, tag, 0) == Some(0) && rule(s) == Replace(block, text, again)
    requires FindTagFrom(Gsub(s, block, text), tag, if again then 0 else 1).None?
    ensures TagRun(s, tag, rule, fuel) == Done(Gsub(s, block, text))
  {
    TagRunReplaceStep(s, tag, rule, block, text, again, fuel);
  }

  /** A first tag the rule empties, with the search resumed in place: the
      loop goes on over the text that followed it. */
  lemma TagRunEmptiedFirst(b1: string, b2: string, tag: string, rule: Rule, fuel: nat)
    requires Replaces(rule) && fuel >= 1 && |b1| > |b2|
    requires FindTagFrom(b1 + b2, tag, 0) == Some(0) && rule(b1 + b2) == Replace(b1, "", true)
    ensures TagRun(b1 + b2, tag, rule, fuel) == TagRun(b2, tag, rule, fuel - 1)
  {
    GsubLeadingLonger(b1, b2, "");
    assert "" + b2 == b2;
    TagRunReplaceStep(b1 + b2, tag, rule, b1, "", true, fuel);
  }

  /** A first tag the rule empties, with the search resumed one past it:
      a text that has no tag past its start comes out as it is. */
  lemma TagRunEmptiedSkips(b1: string, b2: string, tag: string, rule: Rule, fuel: nat)
    requires Replaces(rule) && fuel >= 1 && |b1| > |b2|
    requires FindTagFrom(b1 + b2, tag, 0) == Some(0) && rule(b1 + b2) == Replace(b1, "", false)
    requires FindTagFrom(b2, tag, 1).None?
    ensures TagRun(b1 + b2, tag, rule, fuel) == Done(b2)
  {
    GsubLeadingLonger(b1, b2, "");
    assert "" + b2 == b2;
    TagRunReplaceFirst(b1 + b2, tag, rule, b1, "", false, fuel);
  }

  /** Replacing a leading block that does not recur. */
  lemma GsubLeading(block: string, rest: string, x: string)
    requires |block| > 0 && Find(rest, block).None?
    ensures Gsub(block + rest, block, x) == x + rest
  {
    var s := block + rest;
    assert OccursAt(s, block, 0) by {
      assert s[0..|block|] == block;
    }
    FindAt(s, block, 0);
    assert s[|block|..] == rest;
  }

  /** Replacing a leading block longer than the text after it. */
  lemma GsubLeadingLonger(block: string, rest: string, x: string)
    requires |block| > |rest|
    ensures Gsub(block + rest, block, x) == x + rest
  {
    assert FindFrom(rest, block, 0).None?;
    GsubLeading(block, rest, x);
  }

  /** A pattern starting with '[' does not occur in a text without '['. */
  lemma NoBracketMiss(t: string, p: string, from: nat)
    requires |p| > 0 && p[0] == '[' && '[' !in t
    ensures FindFrom(t, p, from).None?
  {
    forall j | from <= j
      ensures !OccursAt(t, p, j)
    {
      if j < |t| {
        assert t[j] in t;
      }
      NotAt(t, p, j, 0);
    }
    FindFromMiss(t, p, from);
  }

  /** A tag with arguments at the start of the text is found there and ends at its first ']'. */
  lemma TagAtStart(tag: string, args: string, rest: string)
    requires ']' !in tag && ']' !in args
    ensures var block := OpenTag(tag) + args + "]";
            FindTagFrom(block + rest, tag, 0) == Some(0) && TagText(block + rest) == Some(block)
  {
    var block := OpenTag(tag) + args + "]";
    var s := block + rest;
    assert OccursAt(s, OpenTag(tag), 0) by {
      assert s[..|OpenTag(tag)|] == OpenTag(tag);
    }
    FindFromHit(s, OpenTag(tag), 0, 0);
    assert CharFrom(s, ']', 0) == Some(|block| - 1) by {
      forall j | 0 <= j < |block| - 1
        ensures s[j] != ']'
      {
        if j == 0 {
        } else if j < |tag| + 1 {
          assert s[j] == tag[j - 1];
          assert tag[j - 1] in tag;
        } else if j == |tag| + 1 {
        } else {
          assert s[j] == args[j - |tag| - 2];
          assert args[j - |tag| - 2] in args;
        }
      }
      assert s[|block| - 1] == ']';
    }
    assert s[..|block|] == block;
  }

  /** The metadata rule on `[metadata k1=v1 ...]rest`. */
  lemma MetadataTagStep(keys: seq<string>, values: seq<string>, rest: string, ht: Table)
    requires TagWords(keys, values)
    ensures var block := OpenTag("metadata") + JoinWith(Pairs(keys, values), " ") + "]";
            && FindTagFrom(block + rest, "metadata", 0) == Some(0)
            && MetadataRule(ht)(block + rest) == MetadataStepWith(KeyValue(keys, values, "name"), Some(block), ht)
  {
    var args := JoinWith(Pairs(keys, values), " ");
    var block := OpenTag("metadata") + args + "]";
    assert ']' !in args by {
      TagArgsPlain(keys, values);
    }
    assert Lookup(GetTagArgs("metadata", block + rest), "name") == KeyValue(keys, values, "name") by {
      TagArgsLookup("metadata", keys, values, rest, "name");
    }
    TagAtStart("metadata", args, rest);
  }

  /** The as-written metadata rule on `[metadata k1=v1 ...]rest`. */
  lemma MetadataTagStepAsWritten(keys: seq<string>, values: seq<string>, rest: string, ht: Table)
    requires TagWords(keys, values)
    ensures var block := OpenTag("metadata") + JoinWith(Pairs(keys, values), " ") + "]";
            && FindTagFrom(block + rest, "metadata", 0) == Some(0)
            && MetadataRuleAsWritten(ht)(block + rest) == MetadataStepAsWritten(KeyValue(keys, values, "name"), Some(block), ht)
  {
    var args := JoinWith(Pairs(keys, values), " ");
    var block := OpenTag("metadata") + args + "]";
    assert ']' !in args by {
      TagArgsPlain(keys, values);
    }
    assert Lookup(GetTagArgs("metadata", block + rest), "name") == KeyValue(keys, values, "name") by {
      TagArgsLookup("metadata", keys, values, rest, "name");
    }
    TagAtStart("metadata", args, rest);
  }

  /** processMetadata on a lone `[metadata k1=v1 ...]` naming a key whose value holds no tag. */
  lemma MetadataBlockProcessed(keys: seq<string>, values: seq<string>, ht: Table, fuel: nat)
    requires TagWords(keys, values) && fuel >= 1
    requires KeyValue(keys, values, "name").Some? && Lookup(ht, KeyValue(keys, values, "name").value).Some?
    requires '[' !in Lookup(ht, KeyValue(keys, values, "name").value).value
    ensures ProcessMetadata(OpenTag("metadata") + JoinWith(Pairs(keys, values), " ") + "]", ht, fuel)
            == Done(Lookup(ht, KeyValue(keys, values, "name").value).value)
  {
    var v := Lookup(ht, KeyValue(keys, values, "name").value).value;
    MetadataTagProcessed(keys, values, "", ht, fuel);
    assert v + "" == v;
    assert OpenTag("metadata") + JoinWith(Pairs(keys, values), " ") + "]" + ""
        == OpenTag("metadata") + JoinWith(Pairs(keys, values), " ") + "]";
  }

  /** processMetadata after a first tag it empties goes on over what followed. */
  lemma MetadataEmptiedFirst(b1: string, b2: string, ht: Table, fuel: nat, out: string)
    requires fuel >= 1 && |b1| > |b2|
    requires FindTagFrom(b1 + b2, "metadata", 0) == Some(0) && MetadataRule(ht)(b1 + b2) == Replace(b1, "", true)
    requires ProcessMetadata(b2, ht, fuel - 1) == Done(out)
    ensures ProcessMetadata(b1 + b2, ht, fuel) == Done(out)
  {
    TagRunEmptiedFirst(b1, b2, "metadata", MetadataRule(ht), fuel);
  }

  /** Tags with longer arguments are longer. */
  lemma BlockLonger(tag: string, args1: string, args2: string)
    requires |args1| > |args2|
    ensures |OpenTag(tag) + args1 + "]"| > |OpenTag(tag) + args2 + "]"|
  {
  }

  /** A tag naming a key whose value is empty: the search resumes in place. */
  lemma MetadataEmptyValue(keys: seq<string>, values: seq<string>, rest: string, ht: Table)
    requires TagWords(keys, values)
    requires KeyValue(keys, values, "name").Some? && Lookup(ht, KeyValue(keys, values, "name").value) == Some("")
    ensures var block := OpenTag("metadata") + JoinWith(Pairs(keys, values), " ") + "]";
            && FindTagFrom(block + rest, "metadata", 0) == Some(0)
            && MetadataRule(ht)(block + rest) == Replace(block, "", true)
  {
    MetadataTagStep(keys, values, rest, ht);
  }

  /** The same tag as written: the search resumes one past it. */
  lemma MetadataEmptyValueAsWritten(keys: seq<string>, values: seq<string>, rest: string, ht: Table)
    requires TagWords(keys, values)
    requires KeyValue(keys, values, "name").Some? && Lookup(ht, KeyValue(keys, values, "name").value) == Some("")
    ensures var block := OpenTag("metadata") + JoinWith(Pairs(keys, values), " ") + "]";
            && FindTagFrom(block + rest, "metadata", 0) == Some(0)
            && MetadataRuleAsWritten(ht)(block + rest) == Replace(block, "", false)
  {
    MetadataTagStepAsWritten(keys, values, rest, ht);
  }

  /**
   * processMetadata on `[metadata k1=v1 ...]rest`, where `rest` holds no
   * tag: the tag becomes its value when it names a key that `ht` holds, and
   * the text is unchanged otherwise.
   */
  lemma MetadataTagProcessed(keys: seq<string>, values: seq<string>, rest: string, ht: Table, fuel: nat)
    requires TagWords(keys, values)
    requires '[' !in rest && fuel >= 1
    ensures var s := OpenTag("metadata") + JoinWith(Pairs(keys, values), " ") + "]" + rest;
            var name := KeyValue(keys, values, "name");
            && (name.Some? && Lookup(ht, name.value).Some? && '[' !in Lookup(ht, name.value).value ==>
                  ProcessMetadata(s, ht, fuel) == Done(Lookup(ht, name.value).value + rest))
            && (name.None? || Lookup(ht, name.value).None? ==> ProcessMetadata(s, ht, fuel) == Done(s))
  {
    var block := OpenTag("metadata") + JoinWith(Pairs(keys, values), " ") + "]";
    var s := block + rest;
    var name := KeyValue(keys, values, "name");
    var rule := MetadataRule(ht);
    TagArgsPlain(keys, values);
    MetadataTagStep(keys, values, rest, ht);
    if name.Some? && Lookup(ht, name.value).Some? && '[' !in Lookup(ht, name.value).value {
      var x := Lookup(ht, name.value).value;
      assert Gsub(s, block, x) == x + rest by {
        NoBracketMiss(rest, block, 0);
        GsubLeading(block, rest, x);
      }
      assert FindTagFrom(x + rest, "metadata", if |x| == 0 then 0 else 1).None? by {
        NoBracketNoTag(x + rest, "metadata", if |x| == 0 then 0 else 1);
      }
      TagRunReplaceFirst(s, "metadata", rule, block, x, |x| == 0, fuel);
    } else if name.None? || Lookup(ht, name.value).None? {
      NoBracketNoTag("", "metadata", 0);
      assert FindTagFrom(s, "metadata", 1).None? by {
        TagArgsPlain(keys, values);
        BracketOnlyFirst(JoinWith(Pairs(keys, values), " "), rest, "metadata");
      }
      TagRunOneBlock(s, "metadata", rule, "", false, fuel);
    }
  }

  /** A lone `[metadata k1=v1 ...]` block: its tag is at 0 and no other follows. */
  lemma MetadataBlockAlone(keys: seq<string>, values: seq<string>)
    requires TagWords(keys, values)
    ensures var b := OpenTag("metadata") + JoinWith(Pairs(keys, values), " ") + "]";
            && FindTagFrom(b, "metadata", 0) == Some(0) && TagText(b) == Some(b)
            && FindTagFrom(b, "metadata", 1).None?
  {
    var args := JoinWith(Pairs(keys, values), " ");
    var b := OpenTag("metadata") + args + "]";
    TagArgsPlain(keys, values);
    assert b + "" == b;
    BracketOnlyFirst(args, "", "metadata");
    TagAtStart("metadata", args, "");
  }

  /**
   * Two [metadata] tags in a row, the first naming a key whose value is
   * empty: as written, the second tag moves into the first one's position
   * and the search, going on one past it, never sees it. The second tag is
   * left in the text whatever `ht` holds for it.
   */
  lemma MetadataAsWrittenSkipsNext(keys1: seq<string>, values1: seq<string>, keys2: seq<string>, values2: seq<string>,
                                   ht: Table, fuel: nat)
    requires TagWords(keys1, values1) && TagWords(keys2, values2) && fuel >= 1
    requires |JoinWith(Pairs(keys1, values1), " ")| > |JoinWith(Pairs(keys2, values2), " ")|
    requires KeyValue(keys1, values1, "name").Some? && Lookup(ht, KeyValue(keys1, values1, "name").value) == Some("")
    ensures var b1 := OpenTag("metadata") + JoinWith(Pairs(keys1, values1), " ") + "]";
      var b2 := OpenTag("metadata") + JoinWith(Pairs(keys2, values2), " ") + "]";
      ProcessMetadataAsWritten(b1 + b2, ht, fuel) == Done(b2) && FindTagFrom(b2, "metadata", 0) == Some(0)
  {
    var args2 := JoinWith(Pairs(keys2, values2), " ");
    var b1 := OpenTag("metadata") + JoinWith(Pairs(keys1, values1), " ") + "]";
    var b2 := OpenTag("metadata") + args2 + "]";
    assert |b1| > |b2| by {
      BlockLonger("metadata", JoinWith(Pairs(keys1, values1), " "), args2);
    }
    assert FindTagFrom(b1 + b2, "metadata", 0) == Some(0) && MetadataRuleAsWritten(ht)(b1 + b2) == Replace(b1, "", false) by {
      MetadataEmptyValueAsWritten(keys1, values1, b2, ht);
    }
    assert FindTagFrom(b2, "metadata", 0) == Some(0) && FindTagFrom(b2, "metadata", 1).None? by {
      MetadataBlockAlone(keys2, values2);
    }
    TagRunEmptiedSkips(b1, b2, "metadata", MetadataRuleAsWritten(ht), fuel);
  }

  /** The same two tags with the search resumed at the emptied position:
      the second tag is replaced by its value too. */
  lemma MetadataReplacesNext(keys1: seq<string>, values1: seq<string>, keys2: seq<string>, values2: seq<string>,
                             ht: Table, fuel: nat)
    requires TagWords(keys1, values1) && TagWords(keys2, values2) && fuel >= 2
    requires |JoinWith(Pairs(keys1, values1), " ")| > |JoinWith(Pairs(keys2, values2), " ")|
    requires KeyValue(keys1, values1, "name").Some? && Lookup(ht, KeyValue(keys1, values1, "name").value) == Some("")
    requires KeyValue(keys2, values2, "name").Some? && Lookup(ht, KeyValue(keys2, values2, "name").value).Some?
    requires '[' !in Lookup(ht, KeyValue(keys2, values2, "name").value).value
    ensures var b1 := OpenTag("metadata") + JoinWith(Pairs(keys1, values1), " ") + "]";
      var b2 := OpenTag("metadata") + JoinWith(Pairs(keys2, values2), " ") + "]";
      ProcessMetadata(b1 + b2, ht, fuel) == Done(Lookup(ht, KeyValue(keys2, values2, "name").value).value)
  {
    var args2 := JoinWith(Pairs(keys2, values2), " ");
    var b1 := OpenTag("metadata") + JoinWith(Pairs(keys1, values1), " ") + "]";
    var b2 := OpenTag("metadata") + args2 + "]";
    var v := Lookup(ht, KeyValue(keys2, values2, "name").value).value;
    assert |b1| > |b2| by {
      BlockLonger("metadata", JoinWith(Pairs(keys1, values1), " "), args2);
    }
    assert FindTagFrom(b1 + b2, "metadata", 0) == Some(0) && MetadataRule(ht)(b1 + b2) == Replace(b1, "", true) by {
      MetadataEmptyValue(keys1, values1, b2, ht);
    }
    assert ProcessMetadata(b2, ht, fuel - 1) == Done(v) by {
      MetadataBlockProcessed(keys2, values2, ht, fuel - 1);
    }
    MetadataEmptiedFirst(b1, b2, ht, fuel, v);
  }

  /**
   * A [metadata] tag whose value is itself a [metadata] tag: the search goes
   * on one past the replaced tag, so the tag the value brings in stays in
   * the result, and the rule would still replace it when it names a key
   * with a value. The loop does not leave a text free of resolvable tags.
   */
  lemma MetadataValueTagStays(keys1: seq<string>, values1: seq<string>, keys2: seq<string>, values2: seq<string>,
                              ht: Table, fuel: nat)
    requires TagWords(keys1, values1) && TagWords(keys2, values2) && fuel >= 1
    requires KeyValue(keys1, values1, "name").Some?
    requires Lookup(ht, KeyValue(keys1, values1, "name").value)
             == Some(OpenTag("metadata") + JoinWith(Pairs(keys2, values2), " ") + "]")
    ensures var b1 := OpenTag("metadata") + JoinWith(Pairs(keys1, values1), " ") + "]";
      var b2 := OpenTag("metadata") + JoinWith(Pairs(keys2, values2), " ") + "]";
      && ProcessMetadata(b1, ht, fuel) == Done(b2)
      && FindTagFrom(b2, "metadata", 0) == Some(0)
      && MetadataRule(ht)(b2).Replace? == (KeyValue(keys2, values2, "name").Some?
                                           && Lookup(ht, KeyValue(keys2, values2, "name").value).Some?)
  {
    var b1 := OpenTag("metadata") + JoinWith(Pairs(keys1, values1), " ") + "]";
    var b2 := OpenTag("metadata") + JoinWith(Pairs(keys2, values2), " ") + "]";
    assert b1 + "" == b1 && b2 + "" == b2;
    MetadataTagStep(keys1, values1, "", ht);
    MetadataTagStep(keys2, values2, "", ht);
    MetadataBlockAlone(keys2, values2);
    GsubWhole(b1, b2);
    TagRunReplaceFirst(b1, "metadata", MetadataRule(ht), b1, b2, false, fuel);
  }

  /** In `[tag args]rest` with no other '[', no tag follows the first. */
  lemma BracketOnlyFirst(args: string, rest: string, tag: string)
    requires '[' !in args && '[' !in rest && '[' !in tag
    ensures FindTagFrom(OpenTag(tag) + args + "]" + rest, tag, 1).None?
  {
    var s := OpenTag(tag) + args + "]" + rest;
    var n := |OpenTag(tag) + args + "]"|;
    forall j | 1 <= j < |s|
      ensures s[j] != '['
    {
      if j < |tag| + 1 {
        assert s[j] == tag[j - 1];
        assert tag[j - 1] in tag;
      } else if j == |tag| + 1 {
        assert s[j] == ' ';
      } else if j < n - 1 {
        assert s[j] == args[j - |tag| - 2];
        assert args[j - |tag| - 2] in args;
      } else if j == n - 1 {
        assert s[j] == ']';
      } else {
        assert s[j] == rest[j - n];
        assert rest[j - n] in rest;
      }
    }
    NoBracketFrom(s, tag, 1);
  }
}
