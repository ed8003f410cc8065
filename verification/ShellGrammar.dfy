/** The grammar of user/sh.c as functions on the input string and a position in it. A command
    refers to its words by their spans, as the shell does until it NUL-terminates them. */
module ShellGrammar {

  const MAXARGS := 10
  const NUL := '\0'

  datatype Mode = Input | Truncate | Append

  /** W is the type of words: spans while parsing, strings in what is typed. */
  datatype Cmd<W> =
    | Exec(args: seq<W>)
    | Redir(cmd: Cmd<W>, file: W, mode: Mode)
    | Pipe(left: Cmd<W>, right: Cmd<W>)
    | List(first: Cmd<W>, second: Cmd<W>)
    | Back(job: Cmd<W>)

  datatype Span = Span(q: nat, eq: nat)

  datatype Parsed<T> = Ok(value: T, next: nat) | Panic

  // ---- Characters and tokens ----

  predicate White(c: char) { c in " \t\r\n\U{0B}" }

  predicate Symbol(c: char) { c in "<|>&;()" }

  predicate WordChar(c: char) { !White(c) && !Symbol(c) }

  function SkipWhite(s: string, i: nat): (r: nat)
    requires i <= |s|
    ensures i <= r <= |s|
    ensures forall k :: i <= k < r ==> White(s[k])
    ensures r < |s| ==> !White(s[r])
    decreases |s| - i
  {
    if i < |s| && White(s[i]) then SkipWhite(s, i + 1) else i
  }

  lemma SkipTwice(s: string, i: nat)
    requires i <= |s|
    ensures SkipWhite(s, SkipWhite(s, i)) == SkipWhite(s, i)
  {
  }

  function WordEnd(s: string, i: nat): (r: nat)
    requires i <= |s|
    ensures i <= r <= |s|
    ensures forall k :: i <= k < r ==> WordChar(s[k])
    ensures r < |s| ==> !WordChar(s[r])
    decreases |s| - i
  {
    if i < |s| && WordChar(s[i]) then WordEnd(s, i + 1) else i
  }

  datatype Kind = End | Word | Op(c: char) | Shift

  /** One call of gettoken: the kind of token, its span, and the position it leaves. */
  datatype Token = Token(kind: Kind, span: Span, next: nat)

  function GetToken(s: string, i: nat): (t: Token)
    requires i <= |s|
    ensures i <= t.span.q <= t.span.eq <= t.next <= |s|
    ensures t.kind == End <==> SkipWhite(s, i) == |s|
    ensures t.kind != End ==> t.span.q < t.span.eq
  {
    var q := SkipWhite(s, i);
    if q == |s| then Token(End, Span(q, q), q)
    else if s[q] == '>' && q + 1 < |s| && s[q + 1] == '>' then Token(Shift, Span(q, q + 2), SkipWhite(s, q + 2))
    else if Symbol(s[q]) then Token(Op(s[q]), Span(q, q + 1), SkipWhite(s, q + 1))
    else Token(Word, Span(q, WordEnd(s, q)), SkipWhite(s, WordEnd(s, q)))
  }

  /** peek: does the next token start with one of these characters? */
  predicate Ahead(s: string, i: nat, toks: string)
    requires i <= |s|
  {
    SkipWhite(s, i) < |s| && s[SkipWhite(s, i)] in toks
  }

  // ---- The parser ----

  function ModeOf(k: Kind): Mode {
    if k == Op('<') then Input else if k == Shift then Append else Truncate
  }

  /** parseredirs: wrap `cmd` in the redirections that follow. */
  function Redirs(cmd: Cmd<Span>, s: string, i: nat): (r: Parsed<Cmd<Span>>)
    requires i <= |s|
    ensures r.Ok? ==> i <= r.next <= |s|
    decreases |s| - i
  {
    if !Ahead(s, i, "<>") then Ok(cmd, SkipWhite(s, i))
    else
      var op := GetToken(s, i);
      var file := GetToken(s, op.next);
      if file.kind != Word then Panic
      else Redirs(Redir(cmd, file.span, ModeOf(op.kind)), s, file.next)
  }

  /** The command at the core of a stack of redirections. */
  function Core<W>(c: Cmd<W>): (r: Cmd<W>)
    ensures !r.Redir?
  {
    if c.Redir? then Core(c.cmd) else c
  }

  /** The argument added to the exec command inside the redirections. */
  function AddArg<W>(c: Cmd<W>, w: W): (r: Cmd<W>)
    requires Core(c).Exec?
    ensures Core(r) == Exec(Core(c).args + [w])
  {
    if c.Redir? then Redir(AddArg(c.cmd, w), c.file, c.mode) else Exec(c.args + [w])
  }

  lemma RedirsKeepCore(cmd: Cmd<Span>, s: string, i: nat)
    requires i <= |s|
    ensures Redirs(cmd, s, i).Ok? ==> Core(Redirs(cmd, s, i).value) == Core(cmd)
    decreases |s| - i
  {
    if !Ahead(s, i, "<>") {
    } else {
      var op := GetToken(s, i);
      var file := GetToken(s, op.next);
      if file.kind == Word {
        RedirsKeepCore(Redir(cmd, file.span, ModeOf(op.kind)), s, file.next);
      }
    }
  }

  /** parseexec from its first parseredirs on: redirections, then words with redirections. */
  function Args(cmd: Cmd<Span>, s: string, i: nat): (r: Parsed<Cmd<Span>>)
    requires i <= |s| && Core(cmd).Exec?
    ensures r.Ok? ==> i <= r.next <= |s|
    decreases |s| - i
  {
    RedirsKeepCore(cmd, s, i);
    var r := Redirs(cmd, s, i);
    if r.Panic? then Panic
    else if Ahead(s, r.next, "|)&;") then r
    else
      var t := GetToken(s, r.next);
      if t.kind == End then Ok(r.value, t.next)
      else if t.kind != Word then Panic
      else if |Core(r.value).args| + 1 >= MAXARGS then Panic
      else Args(AddArg(r.value, t.span), s, t.next)
  }

  function ParseExec(s: string, i: nat): (r: Parsed<Cmd<Span>>)
    requires i <= |s|
    ensures r.Ok? ==> i <= r.next <= |s|
    decreases |s| - i, 1
  {
    if Ahead(s, i, "(") then ParseBlock(s, i) else Args(Exec([]), s, i)
  }

  function ParseBlock(s: string, i: nat): (r: Parsed<Cmd<Span>>)
    requires i <= |s| && Ahead(s, i, "(")
    ensures r.Ok? ==> i <= r.next <= |s|
    decreases |s| - i, 0
  {
    var open := GetToken(s, i);
    var r := ParseLine(s, open.next);
    if r.Panic? then Panic
    else if !Ahead(s, r.next, ")") then Panic
    else
      var close := GetToken(s, r.next);
      Redirs(r.value, s, close.next)
  }

  function ParsePipe(s: string, i: nat): (r: Parsed<Cmd<Span>>)
    requires i <= |s|
    ensures r.Ok? ==> i <= r.next <= |s|
    decreases |s| - i, 2
  {
    var l := ParseExec(s, i);
    if l.Panic? then Panic
    else if !Ahead(s, l.next, "|") then Ok(l.value, SkipWhite(s, l.next))
    else
      var bar := GetToken(s, l.next);
      var r := ParsePipe(s, bar.next);
      if r.Panic? then Panic else Ok(Pipe(l.value, r.value), r.next)
  }

  /** parseline's loop over `&`. */
  function Backs(cmd: Cmd<Span>, s: string, i: nat): (r: Parsed<Cmd<Span>>)
    requires i <= |s|
    ensures r.Ok? && i <= r.next <= |s|
    decreases |s| - i
  {
    if Ahead(s, i, "&") then Backs(Back(cmd), s, GetToken(s, i).next) else Ok(cmd, SkipWhite(s, i))
  }

  function ParseJobs(s: string, i: nat): (r: Parsed<Cmd<Span>>)
    requires i <= |s|
    ensures r.Ok? ==> i <= r.next <= |s|
    decreases |s| - i, 3
  {
    var p := ParsePipe(s, i);
    if p.Panic? then Panic else Backs(p.value, s, p.next)
  }

  function ParseLine(s: string, i: nat): (r: Parsed<Cmd<Span>>)
    requires i <= |s|
    ensures r.Ok? ==> i <= r.next <= |s|
    decreases |s| - i, 4
  {
    var l := ParseJobs(s, i);
    if l.Panic? then Panic
    else if !Ahead(s, l.next, ";") then Ok(l.value, SkipWhite(s, l.next))
    else
      var semi := GetToken(s, l.next);
      var r := ParseLine(s, semi.next);
      if r.Panic? then Panic else Ok(List(l.value, r.value), r.next)
  }

  /** parsecmd: the whole input is one line. */
  function ParseCmd(s: string): (r: Parsed<Cmd<Span>>) {
    var l := ParseLine(s, 0);
    if l.Ok? && SkipWhite(s, l.next) == |s| then Ok(l.value, |s|) else Panic
  }
}
