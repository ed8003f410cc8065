/** The parser accepts nothing else: whatever it does not refuse is a line of the grammar. */
module ShellLanguage {
  import opened ShellGrammar
  import opened ShellLines
  import opened ShellRoundTrip

  // ---- Pieces by their first character ----

  lemma SymbolPiece(ln: Line, k: nat, o: string)
    requires LineOk(ln) && Next(ln.pieces, k, o) && o in ["(", ")", "|", "&", ";"]
    ensures ln.pieces[k] == S(o)
  {
    hide LineOk;
    OkAt(ln, k);
    assert Legal(ln.pieces[k].text) || ln.pieces[k].S?;
  }

  lemma ModeAt(ln: Line, k: nat) returns (m: Mode)
    requires LineOk(ln) && Next(ln.pieces, k, "<>")
    ensures ln.pieces[k] == ModePiece(m)
  {
    hide LineOk;
    OkAt(ln, k);
    assert Legal(ln.pieces[k].text) || ln.pieces[k].S?;
    m := if ln.pieces[k].text == "<" then Input else if ln.pieces[k].text == ">" then Truncate else Append;
  }

  lemma WordPiece(ln: Line, k: nat)
    requires LineOk(ln) && k < |ln.pieces| && KindOf(ln.pieces[k]) == Word
    ensures ln.pieces[k].W? && Legal(ln.pieces[k].text)
  {
    hide LineOk;
    OkAt(ln, k);
  }

  // ---- Items from the front ----

  lemma PiecesSnoc(xs: seq<Item>, x: Item)
    ensures ItemsPieces(xs + [x]) == ItemsPieces(xs) + ItemPieces(x)
    ensures Words(xs + [x]) == Words(xs) + if x.Arg? then [x.w] else []
  {
    assert (xs + [x])[..|xs|] == xs;
  }

  lemma {:induction false} ItemsJoin(xs: seq<Item>, ys: seq<Item>)
    ensures ItemsPieces(xs + ys) == ItemsPieces(xs) + ItemsPieces(ys)
    ensures Words(xs + ys) == Words(xs) + Words(ys)
  {
    hide ItemsPieces, ItemPieces, Words;
    if ys == [] {
      assert xs + ys == xs;
      NoPieces();
    } else {
      var n := |ys| - 1;
      var init, y := ys[..n], ys[n];
      ItemsJoin(xs, init);
      PiecesSnoc(xs + init, y);
      PiecesSnoc(init, y);
      assert xs + ys == (xs + init) + [y] && ys == init + [y];
    }
  }

  lemma NoPieces()
    ensures ItemsPieces([]) == [] && Words([]) == []
  {
  }

  lemma OneItem(x: Item)
    ensures ItemsPieces([x]) == ItemPieces(x) && Words([x]) == if x.Arg? then [x.w] else []
  {
    PiecesSnoc([], x);
    assert [] + [x] == [x];
  }

  lemma {:induction false} NoWords(rs: seq<Item>)
    requires AllRedirects(rs)
    ensures Words(rs) == []
  {
    if rs == [] {
    } else {
      NoWords(rs[..|rs| - 1]);
    }
  }

  lemma JoinSegments(ps: seq<Piece>, k: nat, x: seq<Piece>, y: seq<Piece>)
    requires Segment(ps, k, x) && Segment(ps, k + |x|, y)
    ensures Segment(ps, k, x + y)
  {
    assert ps[k..k + |x| + |y|] == ps[k..k + |x|] + ps[k + |x|..k + |x| + |y|];
  }

  lemma OnePiece(ps: seq<Piece>, k: nat)
    requires k < |ps|
    ensures Segment(ps, k, [ps[k]])
  {
  }

  // ---- What each function of the parser has read ----

  /** The items `xs` are the pieces from `k` on. */
  ghost predicate ItemsAt(ln: Line, k: nat, xs: seq<Item>) {
    ItemsOk(xs) && Segment(ln.pieces, k, ItemsPieces(xs))
  }

  lemma NoItemsAt(ln: Line, k: nat)
    requires k <= |ln.pieces|
    ensures ItemsAt(ln, k, []) && ItemsPieces([]) == []
  {
  }

  lemma MoreItems(ln: Line, k: nat, xs: seq<Item>, ys: seq<Item>)
    requires ItemsAt(ln, k, xs) && ItemsAt(ln, k + |ItemsPieces(xs)|, ys)
    ensures ItemsAt(ln, k, xs + ys) && |ItemsPieces(xs + ys)| == |ItemsPieces(xs)| + |ItemsPieces(ys)|
    ensures Words(xs + ys) == Words(xs) + Words(ys)
  {
    ItemsJoin(xs, ys);
    JoinSegments(ln.pieces, k, ItemsPieces(xs), ItemsPieces(ys));
  }

  lemma WordAt(ln: Line, k: nat)
    requires LineOk(ln) && k < |ln.pieces| && ln.pieces[k].W? && Legal(ln.pieces[k].text)
    ensures var x := Arg(ln.pieces[k].text);
            ItemsAt(ln, k, [x]) && |ItemsPieces([x])| == 1 && Words([x]) == [x.w]
  {
    OneItem(Arg(ln.pieces[k].text));
    OnePiece(ln.pieces, k);
  }

  lemma RedirectAt(ln: Line, k: nat, m: Mode)
    requires LineOk(ln) && k + 1 < |ln.pieces| && ln.pieces[k] == ModePiece(m)
    requires ln.pieces[k + 1].W? && Legal(ln.pieces[k + 1].text)
    ensures var x := Redirect(m, ln.pieces[k + 1].text);
            ItemsAt(ln, k, [x]) && |ItemsPieces([x])| == 2 && Words([x]) == []
  {
    hide LineOk, Legal;
    OneItem(Redirect(m, ln.pieces[k + 1].text));
    assert ln.pieces[k..k + 2] == [ln.pieces[k], ln.pieces[k + 1]];
  }

  /** parseredirs has read the redirections `rs`, and stands before something else. */
  lemma {:induction false} RedirsRead(ln: Line, k: nat, c: Cmd<Span>) returns (rs: seq<Item>)
    requires LineOk(ln) && k <= |ln.pieces| && Pos(ln, k) <= |Render(ln)| && Redirs(c, Render(ln), Pos(ln, k)).Ok?
    ensures AllRedirects(rs) && ItemsAt(ln, k, rs) && k + |ItemsPieces(rs)| <= |ln.pieces|
    ensures Redirs(c, Render(ln), Pos(ln, k)).next == Pos(ln, k + |ItemsPieces(rs)|)
    decreases |ln.pieces| - k
  {
    hide RenderTo, LineOk, GetToken, Ahead, KindOf, ModePiece, ModeOf, Next, Legal, ItemsAt, ItemsPieces, Words;
    var s := Render(ln);
    AheadAt(ln, k, "<>");
    AtStart(ln, k);
    if !Next(ln.pieces, k, "<>") {
      rs := [];
      NoItemsAt(ln, k);
    } else {
      NextInRange(ln.pieces, k, "<>");
      TokenAt(ln, k);
      EndAt(ln, k + 1);
      if k + 1 < |ln.pieces| {
        rs := OneRedirRead(ln, k, c);
      }
    }
  }

  /** Behind the sign of a redirection parseredirs takes nothing but a word. */
  lemma RedirWantsWord(ln: Line, k: nat, c: Cmd<Span>)
    requires LineOk(ln) && k + 1 < |ln.pieces| && Pos(ln, k) <= |Render(ln)| && Next(ln.pieces, k, "<>")
    requires Redirs(c, Render(ln), Pos(ln, k)).Ok?
    ensures ln.pieces[k + 1].W? && Legal(ln.pieces[k + 1].text)
  {
    hide RenderTo, LineOk, GetToken, Ahead, KindOf, Next, Legal;
    TokenAt(ln, k);
    TokenAt(ln, k + 1);
    AheadAt(ln, k, "<>");
    WordPiece(ln, k + 1);
  }

  lemma {:induction false} OneRedirRead(ln: Line, k: nat, c: Cmd<Span>) returns (rs: seq<Item>)
    requires LineOk(ln) && k + 1 < |ln.pieces| && Pos(ln, k) <= |Render(ln)| && Next(ln.pieces, k, "<>")
    requires Redirs(c, Render(ln), Pos(ln, k)).Ok?
    ensures AllRedirects(rs) && ItemsAt(ln, k, rs) && k + |ItemsPieces(rs)| <= |ln.pieces|
    ensures Redirs(c, Render(ln), Pos(ln, k)).next == Pos(ln, k + |ItemsPieces(rs)|)
    decreases |ln.pieces| - k, 0
  {
    hide RenderTo, LineOk, GetToken, Ahead, KindOf, ModePiece, ModeOf, Next, Legal, ItemsAt, ItemsPieces, Words;
    hide SpanReads, Redirs;
    var m := ModeAt(ln, k);
    RedirWantsWord(ln, k, c);
    var f, q := ln.pieces[k + 1].text, Pos(ln, k + 1);
    RedirStep(ln, k, c, f, m);
    var rest := RedirsRead(ln, k + 2, Redir(c, Span(q, q + |f|), m));
    RedirectAt(ln, k, m);
    MoreItems(ln, k, [Redirect(m, f)], rest);
    rs := [Redirect(m, f)] + rest;
  }

  lemma NextInRange(ps: seq<Piece>, k: nat, o: string)
    requires Next(ps, k, o)
    ensures k < |ps|
  {
  }

  /** parseexec's loop has read the items `xs`; with those before, the words are not too many. */
  lemma {:induction false} ArgsRead(ln: Line, k: nat, c: Cmd<Span>) returns (xs: seq<Item>)
    requires LineOk(ln) && k <= |ln.pieces| && Pos(ln, k) <= |Render(ln)| && Core(c).Exec? && |Core(c).args| < MAXARGS
    requires Args(c, Render(ln), Pos(ln, k)).Ok?
    ensures ItemsAt(ln, k, xs) && k + |ItemsPieces(xs)| <= |ln.pieces| && |Core(c).args| + |Words(xs)| < MAXARGS
    ensures Args(c, Render(ln), Pos(ln, k)).next == Pos(ln, k + |ItemsPieces(xs)|)
    decreases |ln.pieces| - k
  {
    hide RenderTo, LineOk, GetToken, Ahead, KindOf, Next, Legal, ItemsAt, ItemsPieces, Words, Redirs, Core, AddArg;
    var s := Render(ln);
    RedirsKeepCore(c, s, Pos(ln, k));
    var r := Redirs(c, s, Pos(ln, k));
    var rs := RedirsRead(ln, k, c);
    NoWords(rs);
    var j := k + |ItemsPieces(rs)|;
    AtStart(ln, j);
    AheadAt(ln, j, "|)&;");
    EndAt(ln, j);
    if Next(ln.pieces, j, "|)&;") || j == |ln.pieces| {
      xs := rs;
      if j == |ln.pieces| {
        NoTokenAtEnd(s, Pos(ln, j));
      }
    } else {
      TokenAt(ln, j);
      WordPiece(ln, j);
      var w := ln.pieces[j].text;
      var d := AddArg(r.value, Span(Pos(ln, j), Pos(ln, j) + |w|));
      var rest := ArgsRead(ln, j + 1, d);
      WordAt(ln, j);
      MoreItems(ln, j, [Arg(w)], rest);
      MoreItems(ln, k, rs, [Arg(w)] + rest);
      xs := rs + ([Arg(w)] + rest);
    }
  }

  lemma NoTokenAtEnd(s: string, i: nat)
    requires i == |s|
    ensures GetToken(s, i).kind == End && GetToken(s, i).next == i
  {
  }

  /** A command that binds at least as tightly as `level` lies between pieces `k` and `j`. */
  ghost predicate TypedAt(ln: Line, k: nat, j: nat, t: Typed, level: nat) {
    WellTyped(t) && Rank(t) >= level && Segment(ln.pieces, k, Tokens(t)) && j == k + |Tokens(t)| <= |ln.pieces|
  }

  lemma {:induction false} ExecRead(ln: Line, k: nat) returns (t: Typed, j: nat)
    requires LineOk(ln) && k <= |ln.pieces| && Pos(ln, k) <= |Render(ln)| && ParseExec(Render(ln), Pos(ln, k)).Ok?
    ensures TypedAt(ln, k, j, t, EXEC) && ParseExec(Render(ln), Pos(ln, k)).next == Pos(ln, j)
    decreases |ln.pieces| - k, 0
  {
    hide RenderTo, LineOk, GetToken, Ahead, Next, ItemsPieces, Words, Redirs, Args, Segment, ParseLine;
    AheadAt(ln, k, "(");
    if Next(ln.pieces, k, "(") {
      t, j := BlockRead(ln, k);
    } else {
      var xs := ArgsRead(ln, k, Exec([]));
      t, j := Simple(xs), k + |ItemsPieces(xs)|;
    }
  }

  lemma {:induction false} BlockRead(ln: Line, k: nat) returns (t: Typed, j: nat)
    requires LineOk(ln) && k <= |ln.pieces| && Pos(ln, k) <= |Render(ln)| && Next(ln.pieces, k, "(")
    requires Ahead(Render(ln), Pos(ln, k), "(") && ParseBlock(Render(ln), Pos(ln, k)).Ok?
    ensures TypedAt(ln, k, j, t, EXEC) && ParseBlock(Render(ln), Pos(ln, k)).next == Pos(ln, j)
    decreases |ln.pieces| - k, 0, 0
  {
    hide RenderTo, LineOk, GetToken, Ahead, Next, ItemsPieces, Words, Redirs, Args, Segment, ParseLine, ItemsOk;
    SymbolPiece(ln, k, "(");
    NextInRange(ln.pieces, k, "(");
    TokenAt(ln, k);
    AtStart(ln, k + 1);
    var line, n := LineRead(ln, k + 1);
    AheadAt(ln, n, ")");
    SymbolPiece(ln, n, ")");
    NextInRange(ln.pieces, n, ")");
    TokenAt(ln, n);
    AtStart(ln, n + 1);
    var c := ParseLine(Render(ln), Pos(ln, k + 1)).value;
    var rs := RedirsRead(ln, n + 1, c);
    t, j := Group(line, rs), n + 1 + |ItemsPieces(rs)|;
    BlockSegment(ln.pieces, k, n, Tokens(line), ItemsPieces(rs));
  }

  lemma BlockSegment(ps: seq<Piece>, k: nat, n: nat, x: seq<Piece>, y: seq<Piece>)
    requires k < n < |ps| && ps[k] == S("(") && ps[n] == S(")") && n == k + 1 + |x|
    requires Segment(ps, k + 1, x) && Segment(ps, n + 1, y)
    ensures Segment(ps, k, [S("(")] + x + [S(")")] + y)
  {
    OnePiece(ps, k);
    OnePiece(ps, n);
    JoinSegments(ps, k, [S("(")], x);
    JoinSegments(ps, k, [S("(")] + x, [S(")")]);
    JoinSegments(ps, k, [S("(")] + x + [S(")")], y);
  }

  lemma BarSegment(ps: seq<Piece>, k: nat, n: nat, x: seq<Piece>, o: string, y: seq<Piece>)
    requires n < |ps| && ps[n] == S(o) && n == k + |x| && Segment(ps, k, x) && Segment(ps, n + 1, y)
    ensures Segment(ps, k, x + [S(o)] + y)
  {
    OnePiece(ps, n);
    JoinSegments(ps, k, x, [S(o)]);
    JoinSegments(ps, k, x + [S(o)], y);
  }

  lemma {:induction false} PipeRead(ln: Line, k: nat) returns (t: Typed, j: nat)
    requires LineOk(ln) && k <= |ln.pieces| && Pos(ln, k) <= |Render(ln)| && ParsePipe(Render(ln), Pos(ln, k)).Ok?
    ensures TypedAt(ln, k, j, t, PIPE) && ParsePipe(Render(ln), Pos(ln, k)).next == Pos(ln, j)
    decreases |ln.pieces| - k, 1
  {
    hide RenderTo, LineOk, GetToken, Ahead, Next, ParseExec, Segment;
    t, j := ExecRead(ln, k);
    AtStart(ln, j);
    AheadAt(ln, j, "|");
    if Next(ln.pieces, j, "|") {
      SymbolPiece(ln, j, "|");
      NextInRange(ln.pieces, j, "|");
      TokenAt(ln, j);
      AtStart(ln, j + 1);
      var r, n := PipeRead(ln, j + 1);
      BarSegment(ln.pieces, k, j, Tokens(t), "|", Tokens(r));
      t, j := Piped(t, r), n;
    }
  }

  lemma {:induction false} BacksRead(ln: Line, k: nat, n: nat, b: Typed, c: Cmd<Span>) returns (t: Typed, j: nat)
    requires LineOk(ln) && TypedAt(ln, k, n, b, JOBS) && Pos(ln, n) <= |Render(ln)|
    ensures TypedAt(ln, k, j, t, JOBS) && Backs(c, Render(ln), Pos(ln, n)).next == Pos(ln, j)
    decreases |ln.pieces| - n
  {
    hide RenderTo, LineOk, GetToken, Ahead, Next, Segment;
    AtStart(ln, n);
    AheadAt(ln, n, "&");
    if Next(ln.pieces, n, "&") {
      SymbolPiece(ln, n, "&");
      NextInRange(ln.pieces, n, "&");
      TokenAt(ln, n);
      AtStart(ln, n + 1);
      OnePiece(ln.pieces, n);
      JoinSegments(ln.pieces, k, Tokens(b), [S("&")]);
      t, j := BacksRead(ln, k, n + 1, Backed(b), Back(c));
    } else {
      t, j := b, n;
    }
  }

  lemma {:induction false} JobsRead(ln: Line, k: nat) returns (t: Typed, j: nat)
    requires LineOk(ln) && k <= |ln.pieces| && Pos(ln, k) <= |Render(ln)| && ParseJobs(Render(ln), Pos(ln, k)).Ok?
    ensures TypedAt(ln, k, j, t, JOBS) && ParseJobs(Render(ln), Pos(ln, k)).next == Pos(ln, j)
    decreases |ln.pieces| - k, 2
  {
    hide RenderTo, LineOk, ParsePipe, Backs, Segment;
    t, j := PipeRead(ln, k);
    AtStart(ln, j);
    t, j := BacksRead(ln, k, j, t, ParsePipe(Render(ln), Pos(ln, k)).value);
  }

  lemma {:induction false} LineRead(ln: Line, k: nat) returns (t: Typed, j: nat)
    requires LineOk(ln) && k <= |ln.pieces| && Pos(ln, k) <= |Render(ln)| && ParseLine(Render(ln), Pos(ln, k)).Ok?
    ensures TypedAt(ln, k, j, t, LINE) && ParseLine(Render(ln), Pos(ln, k)).next == Pos(ln, j)
    decreases |ln.pieces| - k, 3
  {
    hide RenderTo, LineOk, GetToken, Ahead, Next, ParseJobs, Segment;
    t, j := JobsRead(ln, k);
    AtStart(ln, j);
    AheadAt(ln, j, ";");
    if Next(ln.pieces, j, ";") {
      SymbolPiece(ln, j, ";");
      NextInRange(ln.pieces, j, ";");
      TokenAt(ln, j);
      AtStart(ln, j + 1);
      var r, n := LineRead(ln, j + 1);
      BarSegment(ln.pieces, k, j, Tokens(t), ";", Tokens(r));
      t, j := Listed(t, r), n;
    }
  }

  // ---- The language ----

  ghost predicate InGrammar(ps: seq<Piece>) {
    exists t :: WellTyped(t) && Tokens(t) == ps
  }

  /** parsecmd accepts exactly the lines of the grammar, whatever their white space. */
  lemma AcceptsExactlyTheGrammar(ln: Line)
    requires LineOk(ln)
    ensures ParseCmd(Render(ln)).Ok? <==> InGrammar(ln.pieces)
  {
    hide RenderTo, LineOk, ParseLine, SkipWhite;
    var s := Render(ln);
    StartOf(ln);
    LineSkips(s, 0);
    if ParseCmd(s).Ok? {
      var t, j := LineRead(ln, 0);
      AtStart(ln, j);
      EndAt(ln, j);
      assert ln.pieces[0..0 + |Tokens(t)|] == ln.pieces;
    }
    if t :| WellTyped(t) && Tokens(t) == ln.pieces {
      TypedThenParse(ln, t);
    }
  }

  /** For every text: if it is accepted, it is a line of the grammar, and the tree is what that means. */
  lemma EveryTextIsParsedOrRefused(s: string) returns (ln: Line)
    requires NUL !in s
    ensures LineOk(ln) && Render(ln) == s && (ParseCmd(s).Ok? <==> InGrammar(ln.pieces))
    ensures forall t :: WellTyped(t) && Tokens(t) == ln.pieces ==> Reads(s, ParseCmd(s).value, Meaning(t))
  {
    hide RenderTo, LineOk, ParseLine, Reads;
    ln := EveryTextIsALine(s);
    AcceptsExactlyTheGrammar(ln);
    forall t | WellTyped(t) && Tokens(t) == ln.pieces ensures Reads(s, ParseCmd(s).value, Meaning(t)) {
      TypedThenParse(ln, t);
    }
  }
}
