/** The recursive-descent parser of user/sh.c. The cursor that the C code updates through a
    pointer is passed in and returned; the end of the text is `|s|`. */
module ShellParser {
  import opened ShellGrammar

  /** The parser's functions do not depend on leading white space. */
  lemma SkipFirst(s: string, i: nat, toks: string)
    requires i <= |s|
    ensures GetToken(s, SkipWhite(s, i)) == GetToken(s, i)
    ensures Ahead(s, SkipWhite(s, i), toks) == Ahead(s, i, toks)
  {
    SkipTwice(s, i);
  }

  method Skip(s: string, i: nat) returns (p: nat)
    requires i <= |s|
    ensures p == SkipWhite(s, i)
  {
    p := i;
    while p < |s| && White(s[p])
      invariant i <= p <= |s| && SkipWhite(s, p) == SkipWhite(s, i)
    {
      p := p + 1;
    }
  }

  lemma SymbolSplit(c: char)
    ensures Symbol(c) <==> c == '>' || c in "|();&<"
  {
  }

  method NextToken(s: string, i: nat) returns (t: Token)
    requires i <= |s|
    ensures t == GetToken(s, i)
  {
    hide SkipWhite, White, Symbol;
    var q := Skip(s, i);
    var p, kind := q, End;
    if q < |s| {
      SymbolSplit(s[q]);
      if s[q] == '>' {
        kind, p := Op('>'), q + 1;
        if p < |s| && s[p] == '>' {
          kind, p := Shift, p + 1;
        }
      } else if s[q] in "|();&<" {
        kind, p := Op(s[q]), q + 1;
      } else {
        kind := Word;
        while p < |s| && !White(s[p]) && !Symbol(s[p])
          invariant q <= p <= |s| && WordEnd(s, p) == WordEnd(s, q)
        {
          p := p + 1;
        }
      }
    }
    var next := Skip(s, p);
    t := Token(kind, Span(q, p), next);
  }

  method Peek(s: string, i: nat, toks: string) returns (yes: bool, p: nat)
    requires i <= |s|
    ensures p == SkipWhite(s, i) && yes == Ahead(s, i, toks)
  {
    p := Skip(s, i);
    yes := p < |s| && s[p] in toks;
  }

  lemma RedirToken(s: string, i: nat)
    requires i <= |s| && Ahead(s, i, "<>")
    ensures GetToken(s, i).kind in {Op('<'), Op('>'), Shift}
  {
  }

  /** One round of parseredirs. */
  lemma RedirsUnfold(cmd: Cmd<Span>, s: string, i: nat)
    requires i <= |s|
    ensures Redirs(cmd, s, i) == Redirs(cmd, s, SkipWhite(s, i))
    ensures !Ahead(s, i, "<>") ==> Redirs(cmd, s, i) == Ok(cmd, SkipWhite(s, i))
    ensures Ahead(s, i, "<>") ==>
              var op := GetToken(s, i);
              var file := GetToken(s, op.next);
              && op.kind in {Op('<'), Op('>'), Shift}
              && Redirs(cmd, s, i) ==
                 if file.kind != Word then Panic else Redirs(Redir(cmd, file.span, ModeOf(op.kind)), s, file.next)
  {
    SkipFirst(s, i, "<>");
    SkipTwice(s, i);
    hide SkipWhite;
    if Ahead(s, i, "<>") {
      RedirToken(s, i);
      hide Ahead, GetToken;
    }
  }

  method ParseRedirs(cmd: Cmd<Span>, s: string, i: nat) returns (r: Parsed<Cmd<Span>>)
    requires i <= |s|
    ensures r == Redirs(cmd, s, i)
  {
    hide Ahead, GetToken, SkipWhite, Redirs;
    var c := cmd;
    SkipTwice(s, i);
    var more, p := Peek(s, i, "<>");
    SkipFirst(s, i, "<>");
    RedirsUnfold(c, s, i);
    while more
      invariant p <= |s| && SkipWhite(s, p) == p && more == Ahead(s, p, "<>") && Redirs(cmd, s, i) == Redirs(c, s, p)
      decreases |s| - p
    {
      RedirsUnfold(c, s, p);
      var op := NextToken(s, p);
      var file := NextToken(s, op.next);
      if file.kind != Word { return Panic; }
      match op.kind {
        case Op(ch) => c := Redir(c, file.span, if ch == '<' then Input else Truncate);
        case _ => c := Redir(c, file.span, Append);
      }
      SkipTwice(s, file.next);
      more, p := Peek(s, file.next, "<>");
      SkipFirst(s, file.next, "<>");
      RedirsUnfold(c, s, file.next);
    }
    RedirsUnfold(c, s, p);
    r := Ok(c, p);
  }

  lemma RedirsSkip(cmd: Cmd<Span>, s: string, i: nat)
    requires i <= |s|
    ensures Redirs(cmd, s, SkipWhite(s, i)) == Redirs(cmd, s, i)
  {
    hide Ahead, GetToken, SkipWhite;
    SkipTwice(s, i);
    SkipFirst(s, i, "<>");
  }

  lemma ArgsSkip(cmd: Cmd<Span>, s: string, i: nat)
    requires i <= |s| && Core(cmd).Exec?
    ensures Args(cmd, s, SkipWhite(s, i)) == Args(cmd, s, i)
  {
    hide Ahead, GetToken, SkipWhite, Redirs;
    RedirsSkip(cmd, s, i);
  }

  /** One round of parseexec's loop: redirections, then a word. */
  lemma ArgRound(cmd: Cmd<Span>, s: string, i: nat)
    requires i <= |s| && Core(cmd).Exec? && Redirs(cmd, s, i).Ok? && !Ahead(s, Redirs(cmd, s, i).next, "|)&;")
    ensures var r := Redirs(cmd, s, i);
            var t := GetToken(s, r.next);
            && Core(r.value) == Core(cmd)
            && Args(cmd, s, i) ==
               if t.kind == End then Ok(r.value, t.next)
               else if t.kind != Word || |Core(cmd).args| + 1 >= MAXARGS then Panic
               else Args(AddArg(r.value, t.span), s, t.next)
  {
    hide Ahead, GetToken, SkipWhite, Redirs;
    RedirsKeepCore(cmd, s, i);
  }

  lemma ArgsStop(cmd: Cmd<Span>, s: string, i: nat)
    requires i <= |s| && Core(cmd).Exec?
    requires Redirs(cmd, s, i).Panic? || Ahead(s, Redirs(cmd, s, i).next, "|)&;")
    ensures Args(cmd, s, i) == Redirs(cmd, s, i)
  {
    hide Ahead, GetToken, SkipWhite, Redirs;
  }

  /** parseredirs leaves the cursor on a token or at the end. */
  lemma {:induction false} RedirsStopAtToken(cmd: Cmd<Span>, s: string, i: nat)
    requires i <= |s| && Redirs(cmd, s, i).Ok?
    ensures SkipWhite(s, Redirs(cmd, s, i).next) == Redirs(cmd, s, i).next
    decreases |s| - i
  {
    hide Ahead, GetToken, SkipWhite;
    SkipTwice(s, i);
    if !Ahead(s, i, "<>") {
    } else {
      var op := GetToken(s, i);
      var file := GetToken(s, op.next);
      RedirsStopAtToken(Redir(cmd, file.span, ModeOf(op.kind)), s, file.next);
    }
  }

  method ParseExecCmd(s: string, i: nat) returns (r: Parsed<Cmd<Span>>)
    requires i <= |s|
    ensures r == ParseExec(s, i)
    decreases |s| - i, 1
  {
    hide Ahead, GetToken, SkipWhite, Redirs, Args, AddArg;
    var block, p := Peek(s, i, "(");
    SkipFirst(s, i, "(");
    if block {
      r := ParseBlockCmd(s, p);
      return;
    }
    ghost var c: Cmd<Span>, at: nat := Exec([]), p;
    ArgsSkip(c, s, i);
    var argc := 0;
    r := ParseRedirs(Exec([]), s, p);
    if r.Panic? { ArgsStop(c, s, at); return; }
    RedirsKeepCore(c, s, at);
    RedirsStopAtToken(c, s, at);
    var stop, n := Peek(s, r.next, "|)&;");
    while !stop
      invariant at <= |s| && n <= |s| && Core(c).Exec? && argc == |Core(c).args| && ParseExec(s, i) == Args(c, s, at)
      invariant r == Redirs(c, s, at) && r.Ok? && Core(r.value) == Core(c)
      invariant n == r.next && stop == Ahead(s, n, "|)&;")
      decreases |s| - n
    {
      var t := NextToken(s, n);
      ArgRound(c, s, at);
      if t.kind == End { return Ok(r.value, t.next); }
      if t.kind != Word { return Panic; }
      argc := argc + 1;
      if argc >= MAXARGS { return Panic; }
      var d := AddArg(r.value, t.span);
      c, at := d, t.next;
      r := ParseRedirs(d, s, t.next);
      if r.Panic? { ArgsStop(c, s, at); return; }
      RedirsKeepCore(c, s, at);
      RedirsStopAtToken(c, s, at);
      stop, n := Peek(s, r.next, "|)&;");
    }
    ArgsStop(c, s, at);
  }

  method ParseBlockCmd(s: string, i: nat) returns (r: Parsed<Cmd<Span>>)
    requires i <= |s| && Ahead(s, i, "(")
    ensures r == ParseBlock(s, i)
    decreases |s| - i, 0
  {
    var open, p := Peek(s, i, "(");
    SkipFirst(s, i, "(");
    var t := NextToken(s, p);
    r := ParseLineCmd(s, t.next);
    if r.Panic? { return; }
    var close, n := Peek(s, r.next, ")");
    SkipFirst(s, r.next, ")");
    if !close { return Panic; }
    t := NextToken(s, n);
    r := ParseRedirs(r.value, s, t.next);
  }

  method ParsePipeCmd(s: string, i: nat) returns (r: Parsed<Cmd<Span>>)
    requires i <= |s|
    ensures r == ParsePipe(s, i)
    decreases |s| - i, 2
  {
    r := ParseExecCmd(s, i);
    if r.Panic? { return; }
    var bar, p := Peek(s, r.next, "|");
    SkipFirst(s, r.next, "|");
    if !bar { return Ok(r.value, p); }
    var t := NextToken(s, p);
    var rest := ParsePipeCmd(s, t.next);
    r := if rest.Panic? then Panic else Ok(Pipe(r.value, rest.value), rest.next);
  }

  method ParseLineCmd(s: string, i: nat) returns (r: Parsed<Cmd<Span>>)
    requires i <= |s|
    ensures r == ParseLine(s, i)
    decreases |s| - i, 3
  {
    r := ParsePipeCmd(s, i);
    if r.Panic? { return; }
    var c := r.value;
    var amp, p := Peek(s, r.next, "&");
    SkipFirst(s, r.next, "&");
    while amp
      invariant p <= |s| && SkipWhite(s, p) == p && amp == Ahead(s, p, "&") && ParseJobs(s, i) == Backs(c, s, p)
      decreases |s| - p
    {
      var t := NextToken(s, p);
      c := Back(c);
      amp, p := Peek(s, t.next, "&");
      SkipFirst(s, t.next, "&");
    }
    var semi, n := Peek(s, p, ";");
    if !semi { return Ok(c, n); }
    var t := NextToken(s, n);
    var rest := ParseLineCmd(s, t.next);
    r := if rest.Panic? then Panic else Ok(List(c, rest.value), rest.next);
  }
}
