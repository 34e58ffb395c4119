/**
 * MapServer's I/O redirection (mapio.c): the three standard channels of a
 * context group, direction checks on reads and writes, the length guard of
 * the printf family, the growable capture buffer and the stripping of a
 * "Content-type:" header from captured output.
 *
 * Bytes are characters below 256. The callbacks a context carries are not
 * run: a read or write reports whether the callback would be called and
 * with what; the capture buffer is the one callback that is modelled.
 */
module MapIO {
  import opened Wrappers
  import opened CStrings

  /** The capture buffer: its bytes (data_offset of them) and its allocated size (data_len). */
  datatype IOBuffer = IOBuffer(data: string, cap: nat)

  /** The allocation always holds the data. */
  predicate Good(b: IOBuffer) {
    |b.data| <= b.cap
  }

  /** A handler: its label (`tag`), its direction, and the capture buffer when it writes into one. */
  datatype Context = Context(tag: string, writeChannel: bool, buffer: Option<IOBuffer>)

  /** The handlers of the three standard channels. */
  datatype Group = Group(stdin: Context, stdout: Context, stderr: Context)

  /** What a read or a write on a context does: nothing, or a call of its callback. */
  datatype Transfer = Refused | Calls(count: int)

  // ---------------------------------------------------------------------
  // Handlers
  // ---------------------------------------------------------------------

  /** msIO_installHandlers: each channel takes the given handler, or the default one when none is given. */
  function InstallHandlers(defaults: Group, stdin: Option<Context>, stdout: Option<Context>, stderr: Option<Context>): (r: Group)
    ensures stdin.None? ==> r.stdin == defaults.stdin
    ensures stdout.None? ==> r.stdout == defaults.stdout
    ensures stderr.None? ==> r.stderr == defaults.stderr
    ensures stdin.Some? ==> r.stdin == stdin.value
    ensures stdout.Some? ==> r.stdout == stdout.value
    ensures stderr.Some? ==> r.stderr == stderr.value
  {
    Group(Pick(stdin, defaults.stdin), Pick(stdout, defaults.stdout), Pick(stderr, defaults.stderr))
  }

  function Pick(given: Option<Context>, fallback: Context): Context {
    match given
    case Some(c) => c
    case None => fallback
  }

  /** msIO_contextRead: a write channel refuses, returning 0 without calling back. */
  function ContextRead(ctx: Context, byteCount: int): (r: Transfer)
    ensures r.Refused? <==> ctx.writeChannel
    ensures r.Calls? ==> r.count == byteCount
  {
    if ctx.writeChannel then Refused else Calls(byteCount)
  }

  /** msIO_contextWrite: a read channel refuses, returning 0 without calling back. */
  function ContextWrite(ctx: Context, byteCount: int): (r: Transfer)
    ensures r.Refused? <==> !ctx.writeChannel
    ensures r.Calls? ==> r.count == byteCount
  {
    if !ctx.writeChannel then Refused else Calls(byteCount)
  }

  /** What msIO_getHandler is asked for: one of the standard streams, NULL,
      one of the names "stdin", "stdout" and "stderr", or any other file. */
  datatype FileRef = StdinFile | StdoutFile | StderrFile | NullFile | Named(name: string) | OtherFile

  /** msIO_getHandler: NULL and "stdin" mean stdin; any other file has no handler. */
  function GetHandler(g: Group, fp: FileRef): (r: Option<Context>)
    ensures r.None? <==> fp.OtherFile? || (fp.Named? && fp.name !in ["stdin", "stdout", "stderr"])
    ensures fp in {StdinFile, NullFile, Named("stdin")} ==> r == Some(g.stdin)
    ensures fp in {StdoutFile, Named("stdout")} ==> r == Some(g.stdout)
    ensures fp in {StderrFile, Named("stderr")} ==> r == Some(g.stderr)
  {
    if fp == StdinFile || fp == NullFile || fp == Named("stdin") then Some(g.stdin)
    else if fp == StdoutFile || fp == Named("stdout") then Some(g.stdout)
    else if fp == StderrFile || fp == Named("stderr") then Some(g.stderr)
    else None
  }

  /** After installation, stdout's handler is the one installed for it (or
      the default), and a write through it reaches that handler's callback
      exactly when the handler is a write channel. */
  lemma InstallThenWrite(defaults: Group, stdin: Option<Context>, stdout: Option<Context>, stderr: Option<Context>, n: int)
    ensures var h := GetHandler(InstallHandlers(defaults, stdin, stdout, stderr), StdoutFile);
      && h == Some(Pick(stdout, defaults.stdout))
      && (ContextWrite(h.value, n) == Calls(n) <==> Pick(stdout, defaults.stdout).writeChannel)
  {
  }

  /** After installation, stdin's handler (also found for NULL) is the one
      installed for it, and a read through it reaches that handler's
      callback exactly when the handler is not a write channel. */
  lemma InstallThenRead(defaults: Group, stdin: Option<Context>, stdout: Option<Context>, stderr: Option<Context>, n: int)
    ensures var h := GetHandler(InstallHandlers(defaults, stdin, stdout, stderr), NullFile);
      && h == Some(Pick(stdin, defaults.stdin))
      && (ContextRead(h.value, n) == Calls(n) <==> !Pick(stdin, defaults.stdin).writeChannel)
  {
  }

  /** Installing a capture buffer on stdout makes a later write to stdout
      land in that buffer, after the bytes it already held. */
  lemma InstallThenCapture(defaults: Group, stdin: Option<Context>, ctx: Context, stderr: Option<Context>, bytes: string)
    requires ctx.writeChannel && ctx.buffer.Some?
    ensures var h := GetHandler(InstallHandlers(defaults, stdin, Some(ctx), stderr), Named("stdout"));
      && h == Some(ctx)
      && var w := WriteCaptured(h.value, bytes);
      w.0.buffer.value.data == ctx.buffer.value.data + bytes && w.1 == |bytes|
  {
  }

  /** The value a refused transfer returns. */
  function Returned(t: Transfer, callbackResult: int): int {
    match t
    case Refused => 0
    case Calls(_) => callbackResult
  }

  /** Exactly one of reading and writing reaches a context's callback. */
  lemma ReadOrWrite(ctx: Context, n: int)
    ensures ContextRead(ctx, n).Calls? != ContextWrite(ctx, n).Calls?
    ensures ContextRead(ctx, n).Refused? ==> Returned(ContextRead(ctx, n), n) == 0
    ensures ContextWrite(ctx, n).Refused? ==> Returned(ContextWrite(ctx, n), n) == 0
  {
  }

  // ---------------------------------------------------------------------
  // The capture buffer
  // ---------------------------------------------------------------------

  /** The size of the buffer after a write of `n` more bytes: doubled plus room when they do not fit. */
  function GrownCap(b: IOBuffer, n: nat): (c: nat)
    ensures c >= b.cap && (Good(b) ==> c >= |b.data| + n)
  {
    if |b.data| + n > b.cap then b.cap * 2 + n + 100 else b.cap
  }

  /** msIO_bufferWrite: the bytes are appended, and their count returned. */
  function BufferWrite(b: IOBuffer, bytes: string): (r: (IOBuffer, int))
    ensures Good(b) ==> Good(r.0)
    ensures r.1 == |bytes|
    ensures |r.0.data| == |b.data| + |bytes| && r.0.data[..|b.data|] == b.data && r.0.data[|b.data|..] == bytes
  {
    (IOBuffer(b.data + bytes, GrownCap(b, |bytes|)), |bytes|)
  }

  /** msIO_bufferRead reads nothing. */
  function BufferRead(b: IOBuffer, byteCount: int): (r: int)
    ensures r == 0
  {
    0
  }

  /** Two writes in a row capture what one write of both captures. */
  lemma BufferWritesConcat(b: IOBuffer, x: string, y: string)
    ensures BufferWrite(BufferWrite(b, x).0, y).0.data == BufferWrite(b, x + y).0.data
  {
  }

  /** A write into a context whose callback is a capture buffer. */
  function WriteCaptured(ctx: Context, bytes: string): (r: (Context, int))
    requires ctx.buffer.Some?
    ensures !ctx.writeChannel ==> r == (ctx, 0)
    ensures ctx.writeChannel ==> r.0.buffer == Some(BufferWrite(ctx.buffer.value, bytes).0) && r.1 == |bytes|
  {
    match ContextWrite(ctx, |bytes|)
    case Refused => (ctx, 0)
    case Calls(_) =>
      var w := BufferWrite(ctx.buffer.value, bytes);
      (ctx.(buffer := Some(w.0)), w.1)
  }

  /** The size of the formatting buffer of msIO_printf, msIO_fprintf and msIO_vfprintf. */
  const WorkBufSize: nat := 8000

  /**
   * msIO_printf into a captured stdout, given the formatted text (a negative
   * `formatted` length is a formatting error): text that does not fit the
   * work buffer is refused with -1 and nothing is written.
   */
  function PrintfCaptured(ctx: Context, formatted: Option<string>): (r: (Context, int))
    requires ctx.buffer.Some?
    ensures formatted.None? || |formatted.value| >= WorkBufSize ==> r == (ctx, -1)
    ensures formatted.Some? && |formatted.value| < WorkBufSize ==> r == WriteCaptured(ctx, formatted.value)
  {
    match formatted
    case None => (ctx, -1)
    case Some(text) => if |text| >= WorkBufSize then (ctx, -1) else WriteCaptured(ctx, text)
  }

  /** Printing text that fits appends exactly that text to the captured output. */
  lemma PrintfAppends(ctx: Context, text: string)
    requires ctx.buffer.Some? && ctx.writeChannel && |text| < WorkBufSize
    ensures var r := PrintfCaptured(ctx, Some(text));
            r.1 == |text| && r.0.buffer.value.data == ctx.buffer.value.data + text
  {
  }

  // ---------------------------------------------------------------------
  // msIO_stripStdoutBufferContentType
  // ---------------------------------------------------------------------

  /** The header name, as `strncasecmp` compares it (lower case). */
  const HeaderName: string := "content-type: "

  /** What stripping gives: a failure, or the content type, the bytes dropped after it, and what stays. */
  datatype Strip =
    | NotBuffer
    | NoHeader
    | Corrupt
    | Stripped(contentType: string, dropped: string, rest: string)

  /** The captured data starts with "Content-type: " in any case. */
  predicate HasHeader(data: string) {
    |data| >= 14 && forall i :: 0 <= i < 14 ==> Lower(data[i]) == HeaderName[i]
  }

  /** A line's text: no newline in it. */
  predicate OneLine(s: string) {
    forall j :: 0 <= j < |s| ==> s[j] != '\n'
  }

  /** The text before the first newline and the text after it, if there is one. */
  function SplitLine(s: string): (r: Option<(string, string)>)
  {
    match IndexOfChar(s, '\n')
    case None => None
    case Some(a) => Some((s[..a], s[a + 1..]))
  }

  /** A line split is exactly a first line, a newline and the rest. */
  lemma SplitLineParts(s: string)
    ensures SplitLine(s).Some? ==>
              s == SplitLine(s).value.0 + "\n" + SplitLine(s).value.1 && OneLine(SplitLine(s).value.0)
    ensures SplitLine(s).None? ==> OneLine(s)
  {
    if SplitLine(s).Some? {
      var a := IndexOfChar(s, '\n').value;
      assert s == s[..a] + [s[a]] + s[a + 1..];
    }
  }

  /** The converse: a first line and a newline are split off as such. */
  lemma SplitLineOf(x: string, y: string)
    requires OneLine(x)
    ensures SplitLine(x + "\n" + y) == Some((x, y))
  {
    var s := x + "\n" + y;
    assert s[|x|] == '\n';
    assert forall j :: 0 <= j < |x| ==> s[j] == x[j];
    IndexOfCharFirst(s, '\n', |x|);
    assert s[..|x|] == x && s[|x| + 1..] == y;
  }

  /** The first occurrence of a character, given by position. */
  lemma {:induction false} IndexOfCharFirst(s: string, c: char, i: nat)
    requires i < |s| && s[i] == c && forall j :: 0 <= j < i ==> s[j] != c
    ensures IndexOfChar(s, c) == Some(i)
    decreases i
  {
    if i > 0 {
      IndexOfCharFirst(s[1..], c, i - 1);
    }
  }

  /**
   * The header of captured data: the content type runs from byte 14 to the
   * first newline, and the data proper starts after the next newline.
   */
  function StripHeader(data: string): (r: Strip)
    ensures r != NotBuffer
    ensures r == NoHeader <==> !HasHeader(data)
  {
    if !HasHeader(data) then NoHeader
    else
      match SplitLine(data[14..])
      case None => Corrupt
      case Some((ct, tail)) =>
        match SplitLine(tail)
        case None => Corrupt
        case Some((dropped, rest)) => Stripped(ct, dropped, rest)
  }

  /** A stripped header is the header name, the content type, a newline, the dropped bytes and a newline. */
  lemma StripHeaderParts(data: string)
    requires StripHeader(data).Stripped?
    ensures var r := StripHeader(data);
            && data == data[..14] + r.contentType + "\n" + r.dropped + "\n" + r.rest
            && OneLine(r.contentType) && OneLine(r.dropped)
  {
    var r := StripHeader(data);
    var tail := SplitLine(data[14..]).value.1;
    assert data[14..] == r.contentType + "\n" + tail && OneLine(r.contentType) by {
      SplitLineParts(data[14..]);
    }
    assert tail == r.dropped + "\n" + r.rest && OneLine(r.dropped) by {
      SplitLineParts(tail);
    }
    TwoLines(data, 14, r.contentType, tail, r.dropped, r.rest);
  }

  lemma TwoLines(data: string, n: nat, x: string, tail: string, y: string, rest: string)
    requires n <= |data| && data[n..] == x + "\n" + tail && tail == y + "\n" + rest
    ensures data == data[..n] + x + "\n" + y + "\n" + rest
  {
    assert data == data[..n] + data[n..];
  }

  /**
   * msIO_stripStdoutBufferContentType on the stdout handler: it must be a
   * write channel labelled "buffer"; on success the buffer keeps only the
   * data after the header, its allocation unchanged.
   */
  function StripStdout(ctx: Context): (r: (Strip, Context))
    ensures !r.0.Stripped? ==> r.1 == ctx
    ensures r.0 == NotBuffer <==> !ctx.writeChannel || ctx.tag != "buffer" || ctx.buffer.None?
    ensures r.0.Stripped? ==> r.1.buffer == Some(IOBuffer(r.0.rest, ctx.buffer.value.cap))
  {
    if !ctx.writeChannel || ctx.tag != "buffer" || ctx.buffer.None? then (NotBuffer, ctx)
    else
      var b := ctx.buffer.value;
      match StripHeader(b.data)
      case Stripped(ct, dropped, rest) => (Stripped(ct, dropped, rest), ctx.(buffer := Some(IOBuffer(rest, b.cap))))
      case other => (other, ctx)
  }

  /** Stripping shortens the buffer by exactly the bytes up to the second newline. */
  lemma StripShortens(ctx: Context)
    requires StripStdout(ctx).0.Stripped?
    ensures var s := StripStdout(ctx).0;
            |StripStdout(ctx).1.buffer.value.data| ==
              |ctx.buffer.value.data| - (14 + |s.contentType| + 1 + |s.dropped| + 1)
    ensures Good(ctx.buffer.value) ==> Good(StripStdout(ctx).1.buffer.value)
  {
    var s := StripStdout(ctx).0;
    var data := ctx.buffer.value.data;
    StripHeaderParts(data);
    assert |data| == |data[..14] + s.contentType + "\n" + s.dropped + "\n" + s.rest|;
  }

  /**
   * A header line and a second newline are stripped to exactly their parts:
   * the converse of `StripHeaderParts`.
   */
  lemma StripHeaderOfLayout(h: string, ct: string, dropped: string, rest: string)
    requires |h| == 14 && HasHeader(h)
    requires OneLine(ct) && OneLine(dropped)
    ensures StripHeader(h + ct + "\n" + dropped + "\n" + rest) == Stripped(ct, dropped, rest)
  {
    var data := h + ct + "\n" + dropped + "\n" + rest;
    var tail := dropped + "\n" + rest;
    assert data[..14] == h && data[14..] == ct + "\n" + tail;
    SplitLineOf(ct, tail);
    SplitLineOf(dropped, rest);
  }

  /** A header with no newline after it, or only one, is corrupt. */
  lemma StripWithoutNewlines(h: string, ct: string)
    requires |h| == 14 && HasHeader(h) && OneLine(ct)
    ensures StripHeader(h + ct) == Corrupt
    ensures StripHeader(h + ct + "\n") == Corrupt
  {
    var d1 := h + ct;
    assert d1[..14] == h && d1[14..] == ct;
    SplitLineParts(ct);
    var d2 := h + ct + "\n";
    assert d2[..14] == h && d2[14..] == ct + "\n" + "";
    SplitLineOf(ct, "");
    SplitLineParts("");
  }
}
