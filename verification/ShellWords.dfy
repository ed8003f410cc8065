/** Words in place: the parser records where each word starts and ends in the input buffer, and
    nulterminate writes a NUL at every end. */
module ShellWords {
  import opened ShellGrammar
  import opened ShellParser
  import opened ShellLines
  import opened ShellRoundTrip

  // ---- The spans of a parsed command are whole words ----

  /** A maximal run of word characters. */
  ghost predicate WordSpan(s: string, sp: Span) {
    && sp.q < sp.eq <= |s|
    && (forall k :: sp.q <= k < sp.eq ==> WordChar(s[k]))
    && (sp.eq < |s| ==> !WordChar(s[sp.eq]))
  }

  /** The spans of a command, in the order nulterminate visits them. */
  function Spans(c: Cmd<Span>): seq<Span> {
    match c
    case Exec(args) => args
    case Redir(d, f, _) => Spans(d) + [f]
    case Pipe(l, r) => Spans(l) + Spans(r)
    case List(l, r) => Spans(l) + Spans(r)
    case Back(d) => Spans(d)
  }

  ghost predicate AllWords(s: string, c: Cmd<Span>) {
    match c
    case Exec(args) => forall i :: 0 <= i < |args| ==> WordSpan(s, args[i])
    case Redir(d, f, _) => AllWords(s, d) && WordSpan(s, f)
    case Pipe(l, r) => AllWords(s, l) && AllWords(s, r)
    case List(l, r) => AllWords(s, l) && AllWords(s, r)
    case Back(d) => AllWords(s, d)
  }

  lemma {:induction false} SpansAreWords(s: string, c: Cmd<Span>)
    requires AllWords(s, c)
    ensures forall i :: 0 <= i < |Spans(c)| ==> WordSpan(s, Spans(c)[i])
  {
    hide WordSpan;
    match c
    case Exec(_) =>
    case Redir(d, _, _) => SpansAreWords(s, d);
    case Pipe(l, r) => SpansAreWords(s, l); SpansAreWords(s, r);
    case List(l, r) => SpansAreWords(s, l); SpansAreWords(s, r);
    case Back(d) => SpansAreWords(s, d);
  }

  lemma WordToken(s: string, i: nat)
    requires i <= |s| && GetToken(s, i).kind == Word
    ensures WordSpan(s, GetToken(s, i).span)
  {
  }

  lemma {:induction false} AddArgWords(s: string, c: Cmd<Span>, w: Span)
    requires Core(c).Exec? && AllWords(s, c) && WordSpan(s, w)
    ensures AllWords(s, AddArg(c, w))
  {
    hide WordSpan;
    if !c.Redir? {
    } else {
      AddArgWords(s, c.cmd, w);
    }
  }

  lemma {:induction false} RedirsWords(c: Cmd<Span>, s: string, i: nat)
    requires i <= |s| && AllWords(s, c) && Redirs(c, s, i).Ok?
    ensures AllWords(s, Redirs(c, s, i).value)
    decreases |s| - i
  {
    hide WordSpan, Ahead, GetToken, SkipWhite;
    if !Ahead(s, i, "<>") {
    } else {
      var op := GetToken(s, i);
      var file := GetToken(s, op.next);
      WordToken(s, op.next);
      RedirsWords(Redir(c, file.span, ModeOf(op.kind)), s, file.next);
    }
  }

  lemma {:induction false} ArgsWords(c: Cmd<Span>, s: string, i: nat)
    requires i <= |s| && Core(c).Exec? && AllWords(s, c) && Args(c, s, i).Ok?
    ensures AllWords(s, Args(c, s, i).value)
    decreases |s| - i
  {
    hide WordSpan, AllWords, Ahead, GetToken, SkipWhite, Redirs;
    var r := Redirs(c, s, i);
    RedirsWords(c, s, i);
    RedirsKeepCore(c, s, i);
    var t := GetToken(s, r.next);
    if !Ahead(s, r.next, "|)&;") && t.kind == Word {
      WordToken(s, r.next);
      AddArgWords(s, r.value, t.span);
      ArgsWords(AddArg(r.value, t.span), s, t.next);
    }
  }

  lemma TokenMoves(s: string, i: nat, toks: string)
    requires i <= |s| && Ahead(s, i, toks)
    ensures GetToken(s, i).next > i
  {
  }

  lemma {:induction false} ExecWords(s: string, i: nat)
    requires i <= |s| && ParseExec(s, i).Ok?
    ensures AllWords(s, ParseExec(s, i).value)
    decreases |s| - i, 1
  {
    hide WordSpan, Ahead, GetToken, SkipWhite, Redirs, Args;
    if Ahead(s, i, "(") {
      var open := GetToken(s, i);
      TokenMoves(s, i, "(");
      assert ParseBlock(s, i).Ok?;
      LineWords(s, open.next);
      var r := ParseLine(s, open.next);
      RedirsWords(r.value, s, GetToken(s, r.next).next);
    } else {
      ArgsWords(Exec([]), s, i);
    }
  }

  lemma {:induction false} PipeWords(s: string, i: nat)
    requires i <= |s| && ParsePipe(s, i).Ok?
    ensures AllWords(s, ParsePipe(s, i).value)
    decreases |s| - i, 2
  {
    hide WordSpan, Ahead, GetToken, SkipWhite, ParseExec;
    var l := ParseExec(s, i);
    ExecWords(s, i);
    if !Ahead(s, l.next, "|") {
    } else {
      TokenMoves(s, l.next, "|");
      PipeWords(s, GetToken(s, l.next).next);
    }
  }

  lemma {:induction false} BacksWords(c: Cmd<Span>, s: string, i: nat)
    requires i <= |s| && AllWords(s, c)
    ensures AllWords(s, Backs(c, s, i).value)
    decreases |s| - i
  {
    if !Ahead(s, i, "&") {
    } else {
      BacksWords(Back(c), s, GetToken(s, i).next);
    }
  }

  lemma {:induction false} LineWords(s: string, i: nat)
    requires i <= |s| && ParseLine(s, i).Ok?
    ensures AllWords(s, ParseLine(s, i).value)
    decreases |s| - i, 3
  {
    hide WordSpan, Ahead, GetToken, SkipWhite, ParsePipe, Backs;
    var p := ParsePipe(s, i);
    PipeWords(s, i);
    BacksWords(p.value, s, p.next);
    var l := ParseJobs(s, i);
    if !Ahead(s, l.next, ";") {
    } else {
      TokenMoves(s, l.next, ";");
      LineWords(s, GetToken(s, l.next).next);
    }
  }

  // ---- nulterminate ----

  ghost predicate EndsAt(spans: seq<Span>, k: nat) {
    exists i :: 0 <= i < |spans| && spans[i].eq == k
  }

  /** The buffer with a NUL at the end of every span. */
  ghost function Nulled(b: string, spans: seq<Span>): (r: string)
    ensures |r| == |b| && forall k :: 0 <= k < |b| ==> r[k] == if EndsAt(spans, k) then NUL else b[k]
  {
    seq(|b|, k requires 0 <= k < |b| => if EndsAt(spans, k) then NUL else b[k])
  }

  lemma EndsAppend(x: seq<Span>, y: seq<Span>, k: nat)
    ensures EndsAt(x + y, k) <==> EndsAt(x, k) || EndsAt(y, k)
  {
    forall i | 0 <= i < |x| ensures (x + y)[i] == x[i] {}
    forall i | 0 <= i < |y| ensures (x + y)[|x| + i] == y[i] {}
  }

  lemma NulledAppend(b: string, x: seq<Span>, y: seq<Span>)
    ensures Nulled(Nulled(b, x), y) == Nulled(b, x + y)
  {
    hide EndsAt;
    forall k | 0 <= k < |b| ensures Nulled(Nulled(b, x), y)[k] == Nulled(b, x + y)[k] {
      EndsAppend(x, y, k);
    }
  }

  ghost predicate InBounds(spans: seq<Span>, n: nat) {
    forall i :: 0 <= i < |spans| ==> spans[i].eq < n
  }

  lemma InBoundsBoth(x: seq<Span>, y: seq<Span>, n: nat)
    requires InBounds(x + y, n)
    ensures InBounds(x, n) && InBounds(y, n)
  {
    forall i | 0 <= i < |x| ensures x[i].eq < n { assert (x + y)[i] == x[i]; }
    forall i | 0 <= i < |y| ensures y[i].eq < n { assert (x + y)[|x| + i] == y[i]; }
  }

  method Nulterminate(c: Cmd<Span>, buf: array<char>)
    requires InBounds(Spans(c), buf.Length)
    modifies buf
    ensures buf[..] == Nulled(old(buf[..]), Spans(c))
    decreases c
  {
    hide EndsAt, InBounds;
    ghost var b := buf[..];
    match c {
      case Exec(args) =>
        TerminateArgs(args, buf);
      case Redir(d, f, _) =>
        InBoundsBoth(Spans(d), [f], buf.Length);
        Nulterminate(d, buf);
        TerminateArgs([f], buf);
        NulledAppend(b, Spans(d), [f]);
      case Pipe(l, r) =>
        InBoundsBoth(Spans(l), Spans(r), buf.Length);
        Nulterminate(l, buf);
        Nulterminate(r, buf);
        NulledAppend(b, Spans(l), Spans(r));
      case List(l, r) =>
        InBoundsBoth(Spans(l), Spans(r), buf.Length);
        Nulterminate(l, buf);
        Nulterminate(r, buf);
        NulledAppend(b, Spans(l), Spans(r));
      case Back(d) =>
        Nulterminate(d, buf);
    }
  }

  method TerminateArgs(args: seq<Span>, buf: array<char>)
    requires InBounds(args, buf.Length)
    modifies buf
    ensures buf[..] == Nulled(old(buf[..]), args)
  {
    assert buf[..] == Nulled(old(buf[..]), []);
    assert args[..0] == [];
    for i := 0 to |args|
      invariant buf[..] == Nulled(old(buf[..]), args[..i])
    {
      buf[args[i].eq] := NUL;
      assert buf[..] == Nulled(Nulled(old(buf[..]), args[..i]), [args[i]]) by {
        assert [args[i]][0].eq == args[i].eq;
      }
      NulledAppend(old(buf[..]), args[..i], [args[i]]);
      assert args[..i] + [args[i]] == args[..i + 1];
    }
    assert args[..|args|] == args;
  }

  // ---- What the command reads from the buffer afterwards ----

  /** The C string that starts at `q`. */
  function CString(b: string, q: nat): string
    decreases |b| - q
  {
    if q < |b| && b[q] != NUL then [b[q]] + CString(b, q + 1) else []
  }

  /** The command with the strings its words now are. */
  function Denote(b: string, c: Cmd<Span>): Cmd<string> {
    match c
    case Exec(args) => Exec(seq(|args|, i requires 0 <= i < |args| => CString(b, args[i].q)))
    case Redir(d, f, m) => Redir(Denote(b, d), CString(b, f.q), m)
    case Pipe(l, r) => Pipe(Denote(b, l), Denote(b, r))
    case List(l, r) => List(Denote(b, l), Denote(b, r))
    case Back(d) => Back(Denote(b, d))
  }

  /** The command with the slices of the input its words were. */
  function Slices(s: string, c: Cmd<Span>): Cmd<string> {
    match c
    case Exec(args) => Exec(seq(|args|, i requires 0 <= i < |args| => Slice(s, args[i])))
    case Redir(d, f, m) => Redir(Slices(s, d), Slice(s, f), m)
    case Pipe(l, r) => Pipe(Slices(s, l), Slices(s, r))
    case List(l, r) => List(Slices(s, l), Slices(s, r))
    case Back(d) => Back(Slices(s, d))
  }

  function Slice(s: string, sp: Span): string {
    if sp.q <= sp.eq <= |s| then s[sp.q..sp.eq] else []
  }

  lemma {:induction false} RunOfChars(b: string, q: nat, e: nat)
    requires q <= e < |b| && b[e] == NUL && forall k :: q <= k < e ==> b[k] != NUL
    ensures CString(b, q) == b[q..e]
    decreases e - q
  {
    if q >= e {
    } else {
      RunOfChars(b, q + 1, e);
      assert b[q..e] == [b[q]] + b[q + 1..e];
    }
  }

  /** No end of a word falls inside a word: terminating all of them leaves each intact. */
  lemma WordIntact(s: string, spans: seq<Span>, sp: Span)
    requires NUL !in s && sp in spans
    requires forall i :: 0 <= i < |spans| ==> WordSpan(s, spans[i])
    ensures CString(Nulled(s + [NUL], spans), sp.q) == Slice(s, sp)
  {
    var b := Nulled(s + [NUL], spans);
    var j :| 0 <= j < |spans| && spans[j] == sp;
    assert WordSpan(s, spans[j]);
    assert EndsAt(spans, sp.eq);
    forall k | sp.q <= k < sp.eq ensures b[k] == s[k] && b[k] != NUL {
      assert WordChar(s[k]);
      forall i | 0 <= i < |spans| ensures spans[i].eq != k {
        assert WordSpan(s, spans[i]);
      }
    }
    RunOfChars(b, sp.q, sp.eq);
    assert b[sp.q..sp.eq] == s[sp.q..sp.eq];
  }

  lemma {:induction false} DenoteIsSlices(s: string, c: Cmd<Span>, spans: seq<Span>)
    requires NUL !in s && (forall sp :: sp in Spans(c) ==> sp in spans)
    requires forall i :: 0 <= i < |spans| ==> WordSpan(s, spans[i])
    ensures Denote(Nulled(s + [NUL], spans), c) == Slices(s, c)
  {
    hide WordSpan, Nulled, CString, Slice;
    match c
    case Exec(args) =>
      forall i | 0 <= i < |args| ensures CString(Nulled(s + [NUL], spans), args[i].q) == Slice(s, args[i]) {
        assert args[i] in Spans(c);
        WordIntact(s, spans, args[i]);
      }
    case Redir(d, f, _) =>
      assert f in Spans(c);
      WordIntact(s, spans, f);
      DenoteIsSlices(s, d, spans);
    case Pipe(l, r) => DenoteIsSlices(s, l, spans); DenoteIsSlices(s, r, spans);
    case List(l, r) => DenoteIsSlices(s, l, spans); DenoteIsSlices(s, r, spans);
    case Back(d) => DenoteIsSlices(s, d, spans);
  }

  lemma {:induction false} ReadsIsSlices(s: string, c: Cmd<Span>, d: Cmd<string>)
    requires Reads(s, c, d)
    ensures Slices(s, c) == d
  {
    match d
    case Exec(args) =>
      assert forall i :: 0 <= i < |args| ==> SpanReads(s, c.args[i], args[i]);
    case Redir(e, _, _) => ReadsIsSlices(s, c.cmd, e);
    case Pipe(l, r) => ReadsIsSlices(s, c.left, l); ReadsIsSlices(s, c.right, r);
    case List(l, r) => ReadsIsSlices(s, c.first, l); ReadsIsSlices(s, c.second, r);
    case Back(e) => ReadsIsSlices(s, c.job, e);
  }

  lemma {:induction false} RenderHasNoNul(ln: Line, k: nat)
    requires LineOk(ln) && k <= |ln.pieces|
    ensures NUL !in RenderTo(ln, k)
  {
    hide White, LineOk, Blank, PieceOk, Legal, RenderTo;
    if k == 0 {
      LeadHasNoNul(ln);
    } else {
      RenderHasNoNul(ln, k - 1);
      OkAt(ln, k - 1);
      PieceHasNoNul(ln.pieces[k - 1]);
      BlankHasNoNul(Gap(ln, k - 1));
      RenderNext(ln, k - 1);
    }
  }

  lemma LeadHasNoNul(ln: Line)
    requires LineOk(ln)
    ensures NUL !in RenderTo(ln, 0)
  {
    hide PieceOk;
    BlankHasNoNul(ln.lead);
  }

  lemma PieceHasNoNul(p: Piece)
    requires PieceOk(p)
    ensures NUL !in p.text
  {
  }

  lemma BlankHasNoNul(g: string)
    requires Blank(g)
    ensures NUL !in g
  {
  }

  /** The whole path: whatever is typed, parsed and terminated in place is read back from the buffer as
      what it means. */
  lemma TypedCommandReadsBack(ln: Line, t: Typed)
    requires LineOk(ln) && WellTyped(t) && ln.pieces == Tokens(t)
    ensures var s := Render(ln);
            ParseCmd(s).Ok? && Denote(Nulled(s + [NUL], Spans(ParseCmd(s).value)), ParseCmd(s).value) == Meaning(t)
  {
    hide Nulled, Denote, Tokens, RenderTo, LineOk, ParseLine, WellTyped, Meaning;
    var s := Render(ln);
    TypedThenParse(ln, t);
    RenderHasNoNul(ln, |ln.pieces|);
    var c := ParseCmd(s).value;
    WordsReadBack(s, c);
    ReadsIsSlices(s, c, Meaning(t));
  }

  /** Terminating the words of a parsed line stays in the buffer, and leaves each word as it was. */
  lemma WordsReadBack(s: string, c: Cmd<Span>)
    requires NUL !in s && ParseCmd(s) == Ok(c, |s|)
    ensures InBounds(Spans(c), |s| + 1) && Denote(Nulled(s + [NUL], Spans(c)), c) == Slices(s, c)
  {
    hide Nulled, Denote, Slices, ParseLine, AllWords;
    LineWords(s, 0);
    SpansAreWords(s, c);
    forall i | 0 <= i < |Spans(c)| ensures Spans(c)[i].eq < |s| + 1 {
      assert WordSpan(s, Spans(c)[i]);
    }
    DenoteIsSlices(s, c, Spans(c));
  }

  lemma InLongerBuffer(spans: seq<Span>, m: nat, n: nat)
    requires InBounds(spans, m) && m <= n
    ensures InBounds(spans, n)
  {
  }

  lemma NulledPrefix(b: string, n: nat, spans: seq<Span>)
    requires n <= |b|
    ensures Nulled(b, spans)[..n] == Nulled(b[..n], spans)
  {
    hide EndsAt;
  }

  method Strlen(buf: array<char>) returns (n: nat)
    requires NUL in buf[..]
    ensures n < buf.Length && buf[n] == NUL && NUL !in buf[..n]
  {
    n := 0;
    while buf[n] != NUL
      invariant n < buf.Length && NUL !in buf[..n] && NUL in buf[n..]
      decreases buf.Length - n
    {
      n := n + 1;
    }
  }

  /** parsecmd: the whole line is parsed, its words are terminated in place, and each word of
      the command then reads as the text it was. On a syntax error nothing is written. */
  method ParseCommand(buf: array<char>) returns (r: Parsed<Cmd<Span>>, ghost s: string)
    requires NUL in buf[..]
    modifies buf
    ensures NUL !in s && |s| < buf.Length && old(buf[..|s| + 1]) == s + [NUL]
    ensures r == ParseCmd(s)
    ensures r.Panic? ==> buf[..] == old(buf[..])
    ensures r.Ok? ==> buf[..] == Nulled(old(buf[..]), Spans(r.value))
    ensures r.Ok? ==> Denote(buf[..|s| + 1], r.value) == Slices(s, r.value)
  {
    hide Nulled, Denote, Slices, Spans, InBounds, ParseLine, SkipWhite, Ahead;
    var n := Strlen(buf);
    var text := buf[..n];
    s := text;
    assert buf[..n + 1] == s + [NUL];
    r := ParseLineCmd(text, 0);
    if r.Panic? { return; }
    var none, p := Peek(text, r.next, "");
    if p != n { return Panic, s; }
    var c := r.value;
    r := Ok(c, p);
    WordsReadBack(s, c);
    InLongerBuffer(Spans(c), n + 1, buf.Length);
    NulledPrefix(buf[..], n + 1, Spans(c));
    Nulterminate(c, buf);
  }
}
