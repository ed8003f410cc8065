/** Everything that can be typed is parsed as what it means: pipelines, lists, jobs, parentheses also
    where they are not needed, and redirections anywhere among the words. */
module ShellRoundTrip {
  import opened ShellGrammar
  import opened ShellLines

  // ---- What can be typed ----

  datatype Item = Arg(w: string) | Redirect(mode: Mode, file: string)

  datatype Typed =
    | Simple(items: seq<Item>)
    | Group(line: Typed, redirs: seq<Item>)
    | Piped(left: Typed, right: Typed)
    | Backed(job: Typed)
    | Listed(first: Typed, second: Typed)

  const LINE := 0
  const JOBS := 1
  const PIPE := 2
  const EXEC := 3

  /** How tightly a typed command binds. */
  function Rank(t: Typed): nat {
    match t
    case Simple(_) => EXEC
    case Group(_, _) => EXEC
    case Piped(_, _) => PIPE
    case Backed(_) => JOBS
    case Listed(_, _) => LINE
  }

  predicate ItemOk(x: Item) {
    match x case Arg(w) => Legal(w) case Redirect(_, f) => Legal(f)
  }

  predicate ItemsOk(xs: seq<Item>) { forall i :: 0 <= i < |xs| ==> ItemOk(xs[i]) }

  predicate AllRedirects(xs: seq<Item>) { forall i :: 0 <= i < |xs| ==> xs[i].Redirect? }

  predicate WellTyped(t: Typed) {
    match t
    case Simple(items) => ItemsOk(items) && |Words(items)| < MAXARGS
    case Group(line, redirs) => WellTyped(line) && ItemsOk(redirs) && AllRedirects(redirs)
    case Piped(l, r) => WellTyped(l) && WellTyped(r) && Rank(l) == EXEC && Rank(r) >= PIPE
    case Backed(j) => WellTyped(j) && Rank(j) >= JOBS
    case Listed(f, s) => WellTyped(f) && WellTyped(s) && Rank(f) >= JOBS
  }

  function ModePiece(m: Mode): Piece {
    match m case Input => S("<") case Truncate => S(">") case Append => S(">>")
  }

  function ItemPieces(x: Item): seq<Piece> {
    match x case Arg(w) => [W(w)] case Redirect(m, f) => [ModePiece(m), W(f)]
  }

  function ItemsPieces(xs: seq<Item>): seq<Piece> {
    if xs == [] then [] else ItemsPieces(xs[..|xs| - 1]) + ItemPieces(xs[|xs| - 1])
  }

  function Tokens(t: Typed): seq<Piece> {
    match t
    case Simple(items) => ItemsPieces(items)
    case Group(line, redirs) => [S("(")] + Tokens(line) + [S(")")] + ItemsPieces(redirs)
    case Piped(l, r) => Tokens(l) + [S("|")] + Tokens(r)
    case Backed(j) => Tokens(j) + [S("&")]
    case Listed(f, s) => Tokens(f) + [S(";")] + Tokens(s)
  }

  // ---- ... and what it means ----

  function Words(xs: seq<Item>): seq<string> {
    if xs == [] then []
    else Words(xs[..|xs| - 1]) + if xs[|xs| - 1].Arg? then [xs[|xs| - 1].w] else []
  }

  function Redirections(xs: seq<Item>): (r: seq<Item>)
    ensures AllRedirects(r)
  {
    if xs == [] then []
    else Redirections(xs[..|xs| - 1]) + if xs[|xs| - 1].Redirect? then [xs[|xs| - 1]] else []
  }

  /** The command inside redirections, of which the first one typed is the innermost. */
  function Wrapped(c: Cmd<string>, rs: seq<Item>): Cmd<string>
    requires AllRedirects(rs)
  {
    if rs == [] then c
    else Redir(Wrapped(c, rs[..|rs| - 1]), rs[|rs| - 1].file, rs[|rs| - 1].mode)
  }

  /** The words in order, inside the redirections in order. */
  function SimpleMeaning(xs: seq<Item>): Cmd<string> {
    Wrapped(Exec(Words(xs)), Redirections(xs))
  }

  function Meaning(t: Typed): Cmd<string>
    requires WellTyped(t)
  {
    match t
    case Simple(items) => SimpleMeaning(items)
    case Group(line, redirs) => Wrapped(Meaning(line), redirs)
    case Piped(l, r) => Pipe(Meaning(l), Meaning(r))
    case Backed(j) => Back(Meaning(j))
    case Listed(f, s) => List(Meaning(f), Meaning(s))
  }

  lemma {:induction false} ItemsPiecesOk(xs: seq<Item>)
    requires ItemsOk(xs)
    ensures PiecesOk(ItemsPieces(xs))
  {
    if xs == [] {
    } else {
      ItemsPiecesOk(xs[..|xs| - 1]);
      assert ItemOk(xs[|xs| - 1]);
    }
  }

  lemma {:induction false} TokensOk(t: Typed)
    requires WellTyped(t)
    ensures PiecesOk(Tokens(t))
  {
    match t
    case Simple(items) => ItemsPiecesOk(items);
    case Group(line, redirs) => TokensOk(line); ItemsPiecesOk(redirs);
    case Piped(l, r) => TokensOk(l); TokensOk(r);
    case Backed(j) => TokensOk(j);
    case Listed(f, s) => TokensOk(f); TokensOk(s);
  }

  // ---- Reading back ----

  predicate SpanReads(s: string, sp: Span, w: string) {
    sp.q <= sp.eq <= |s| && s[sp.q..sp.eq] == w
  }

  /** The tree of spans `c` denotes the tree of words `d` over the text `s`. */
  predicate Reads(s: string, c: Cmd<Span>, d: Cmd<string>) {
    match d
    case Exec(args) => c.Exec? && |c.args| == |args| && forall i :: 0 <= i < |args| ==> SpanReads(s, c.args[i], args[i])
    case Redir(e, f, m) => c.Redir? && c.mode == m && SpanReads(s, c.file, f) && Reads(s, c.cmd, e)
    case Pipe(l, r) => c.Pipe? && Reads(s, c.left, l) && Reads(s, c.right, r)
    case List(l, r) => c.List? && Reads(s, c.first, l) && Reads(s, c.second, r)
    case Back(e) => c.Back? && Reads(s, c.job, e)
  }

  /** An argument goes to the command inside the redirections, which all stay. */
  lemma {:induction false} AddArgInside(ws: seq<string>, rs: seq<Item>, w: string)
    requires AllRedirects(rs)
    ensures Core(Wrapped(Exec(ws), rs)) == Exec(ws)
    ensures AddArg(Wrapped(Exec(ws), rs), w) == Wrapped(Exec(ws + [w]), rs)
  {
    if rs == [] {
    } else {
      AddArgInside(ws, rs[..|rs| - 1], w);
    }
  }

  lemma {:induction false} ReadsAddArg(s: string, c: Cmd<Span>, d: Cmd<string>, sp: Span, w: string)
    requires Reads(s, c, d) && Core(d).Exec? && SpanReads(s, sp, w)
    ensures Core(c).Exec? && |Core(c).args| == |Core(d).args| && Reads(s, AddArg(c, sp), AddArg(d, w))
  {
    if d.Redir? {
      ReadsAddArg(s, c.cmd, d.cmd, sp, w);
    } else {
      forall i | 0 <= i < |d.args| + 1 ensures SpanReads(s, (c.args + [sp])[i], (d.args + [w])[i]) {
        assert i < |d.args| ==> SpanReads(s, c.args[i], d.args[i]);
      }
    }
  }

  lemma {:induction false} ReadsCore(s: string, c: Cmd<Span>, d: Cmd<string>)
    requires Reads(s, c, d) && Core(d).Exec?
    ensures Core(c).Exec? && |Core(c).args| == |Core(d).args|
  {
    if d.Redir? {
      ReadsCore(s, c.cmd, d.cmd);
    } else {
      assert |c.args| == |d.args|;
    }
  }

  // ---- Segments of the line ----

  ghost predicate Segment(ps: seq<Piece>, k: nat, x: seq<Piece>) {
    k + |x| <= |ps| && ps[k..k + |x|] == x
  }

  lemma SplitSegment(ps: seq<Piece>, k: nat, x: seq<Piece>, y: seq<Piece>)
    requires Segment(ps, k, x + y)
    ensures Segment(ps, k, x) && Segment(ps, k + |x|, y)
  {
    assert (x + y)[..|x|] == x && (x + y)[|x|..] == y;
  }

  lemma SegmentAt(ps: seq<Piece>, k: nat, x: seq<Piece>, i: nat)
    requires Segment(ps, k, x) && i < |x|
    ensures k + i < |ps| && ps[k + i] == x[i]
  {
    assert ps[k..k + |x|][i] == x[i];
  }

  lemma OneAt(ps: seq<Piece>, k: nat, x: seq<Piece>, p: Piece)
    requires Segment(ps, k, x + [p])
    ensures Segment(ps, k, x) && k + |x| < |ps| && ps[k + |x|] == p
  {
    SplitSegment(ps, k, x, [p]);
    SegmentAt(ps, k + |x|, [p], 0);
  }

  lemma RedirBefore(ps: seq<Piece>, k: nat, x: seq<Piece>, m: Mode, f: string)
    requires Segment(ps, k, x + ItemPieces(Redirect(m, f)))
    ensures Segment(ps, k, x) && k + |x| + 1 < |ps|
    ensures ps[k + |x|] == ModePiece(m) && ps[k + |x| + 1] == W(f)
  {
    SplitSegment(ps, k, x, ItemPieces(Redirect(m, f)));
    SegmentAt(ps, k + |x|, ItemPieces(Redirect(m, f)), 0);
    SegmentAt(ps, k + |x|, ItemPieces(Redirect(m, f)), 1);
  }

  /** A separator between two typed parts. */
  lemma BarBefore(ps: seq<Piece>, k: nat, x: seq<Piece>, o: string, y: seq<Piece>)
    requires Segment(ps, k, x + [S(o)] + y)
    ensures Segment(ps, k, x) && k + |x| < |ps| && ps[k + |x|] == S(o) && Segment(ps, k + |x| + 1, y)
  {
    SplitSegment(ps, k, x + [S(o)], y);
    OneAt(ps, k, x, S(o));
  }

  lemma BlockBefore(ps: seq<Piece>, k: nat, x: seq<Piece>, y: seq<Piece>)
    requires Segment(ps, k, [S("(")] + x + [S(")")] + y)
    ensures k + 1 + |x| < |ps| && ps[k] == S("(") && ps[k + 1 + |x|] == S(")")
    ensures Segment(ps, k + 1, x) && Segment(ps, k + 2 + |x|, y)
  {
    BarBefore(ps, k, [S("(")] + x, ")", y);
    SplitSegment(ps, k, [S("(")], x);
    SegmentAt(ps, k, [S("(")], 0);
  }

  // ---- Steps of the parser over the pieces ----

  lemma WordKind(w: string)
    ensures KindOf(W(w)) == Word
  {
  }

  lemma NotSymbol(ln: Line, k: nat)
    requires LineOk(ln) && k < |ln.pieces| && ln.pieces[k].W?
    ensures !Next(ln.pieces, k, "(") && !Next(ln.pieces, k, "<>") && !Next(ln.pieces, k, "|)&;")
  {
    hide LineOk, White;
    OkAt(ln, k);
    assert Legal(ln.pieces[k].text);
  }

  /** One word consumed by parseexec's loop. */
  lemma ArgStep(ln: Line, k: nat, c: Cmd<Span>, w: string)
    requires LineOk(ln) && k < |ln.pieces| && ln.pieces[k] == W(w) && Core(c).Exec? && |Core(c).args| + 1 < MAXARGS
    ensures Pos(ln, k) <= |Render(ln)| && Pos(ln, k + 1) <= |Render(ln)|
    ensures var s, p := Render(ln), Pos(ln, k);
            SpanReads(s, Span(p, p + |w|), w) && Args(c, s, p) == Args(AddArg(c, Span(p, p + |w|)), s, Pos(ln, k + 1))
  {
    hide RenderTo, LineOk, GetToken, Ahead, KindOf, Next, SkipWhite, AddArg, Redirs, Args, Core;
    TokenAt(ln, k);
    AtStart(ln, k);
    AtStart(ln, k + 1);
    AheadAt(ln, k, "<>");
    AheadAt(ln, k, "|)&;");
    NotSymbol(ln, k);
    WordKind(w);
    NoRedirs(c, Render(ln), Pos(ln, k));
    OneArg(c, Render(ln), Pos(ln, k));
  }

  lemma NoRedirs(c: Cmd<Span>, s: string, i: nat)
    requires i <= |s| && SkipWhite(s, i) == i && !Ahead(s, i, "<>")
    ensures Redirs(c, s, i) == Ok(c, i)
  {
    hide GetToken, Ahead, SkipWhite;
  }

  lemma OneArg(c: Cmd<Span>, s: string, i: nat)
    requires i <= |s| && Core(c).Exec? && |Core(c).args| + 1 < MAXARGS && Redirs(c, s, i) == Ok(c, i)
    requires !Ahead(s, i, "|)&;") && GetToken(s, i).kind == Word
    ensures Args(c, s, i) == Args(AddArg(c, GetToken(s, i).span), s, GetToken(s, i).next)
  {
    hide GetToken, Ahead, Redirs, AddArg;
  }

  lemma ModeFacts(m: Mode)
    ensures ModeOf(KindOf(ModePiece(m))) == m && ModePiece(m).text != [] && ModePiece(m).text[0] in "<>"
  {
  }

  /** One redirection consumed by parseredirs. */
  lemma RedirStep(ln: Line, k: nat, c: Cmd<Span>, f: string, m: Mode)
    requires LineOk(ln) && k + 1 < |ln.pieces| && ln.pieces[k] == ModePiece(m) && ln.pieces[k + 1] == W(f)
    ensures Pos(ln, k) <= |Render(ln)| && Pos(ln, k + 2) <= |Render(ln)|
    ensures var s, q := Render(ln), Pos(ln, k + 1);
            && SpanReads(s, Span(q, q + |f|), f)
            && Redirs(c, s, Pos(ln, k)) == Redirs(Redir(c, Span(q, q + |f|), m), s, Pos(ln, k + 2))
  {
    hide RenderTo, LineOk, GetToken, Ahead, KindOf, ModePiece, ModeOf;
    ModeFacts(m);
    TokenAt(ln, k);
    TokenAt(ln, k + 1);
    AheadAt(ln, k, "<>");
    WordKind(f);
  }

  /** parseexec's loops stop where a command ends. */
  lemma ExecStops(ln: Line, k: nat, c: Cmd<Span>)
    requires LineOk(ln) && k <= |ln.pieces| && Follow(ln.pieces, k, "|)&;")
    ensures Pos(ln, k) <= |Render(ln)|
    ensures Redirs(c, Render(ln), Pos(ln, k)) == Ok(c, Pos(ln, k))
    ensures Core(c).Exec? ==> Args(c, Render(ln), Pos(ln, k)) == Ok(c, Pos(ln, k))
  {
    hide RenderTo, LineOk, GetToken;
    AtStart(ln, k);
    AheadAt(ln, k, "<>");
    AheadAt(ln, k, "|)&;");
    EndAt(ln, k);
  }

  lemma SimpleSnoc(xs: seq<Item>, x: Item)
    ensures x.Arg? ==> Words(xs + [x]) == Words(xs) + [x.w]
    ensures x.Arg? ==> Core(SimpleMeaning(xs)).Exec? && SimpleMeaning(xs + [x]) == AddArg(SimpleMeaning(xs), x.w)
    ensures x.Redirect? ==> Words(xs + [x]) == Words(xs)
    ensures x.Redirect? ==> SimpleMeaning(xs + [x]) == Redir(SimpleMeaning(xs), x.file, x.mode)
  {
    hide Wrapped, AddArg, Core;
    assert (xs + [x])[..|xs|] == xs;
    if x.Arg? {
      assert Redirections(xs + [x]) == Redirections(xs);
      AddArgInside(Words(xs), Redirections(xs), x.w);
    } else {
      OneMoreWrapped(Exec(Words(xs)), Redirections(xs), x.mode, x.file);
    }
  }

  /** parseexec's loop has come from piece `k` to piece `j`, and holds the items in between. */
  ghost predicate ItemsState(ln: Line, k: nat, j: nat, xs: seq<Item>, c: Cmd<Span>)
    requires k <= |ln.pieces| && j <= |ln.pieces|
  {
    && Reads(Render(ln), c, SimpleMeaning(xs)) && Core(c).Exec? && |Core(c).args| == |Words(xs)|
    && Pos(ln, k) <= |Render(ln)| && Pos(ln, j) <= |Render(ln)|
    && Args(Exec([]), Render(ln), Pos(ln, k)) == Args(c, Render(ln), Pos(ln, j))
  }

  /** The items of a simple command, read by parseexec's loop. */
  lemma {:induction false} ItemsParse(ln: Line, k: nat, xs: seq<Item>) returns (c: Cmd<Span>)
    requires LineOk(ln) && |Words(xs)| < MAXARGS && Segment(ln.pieces, k, ItemsPieces(xs))
    ensures ItemsState(ln, k, k + |ItemsPieces(xs)|, xs, c)
  {
    hide RenderTo, LineOk, ItemsState, Segment, ItemPieces;
    if xs == [] {
      SegmentEnds(ln.pieces, k, ItemsPieces(xs));
      c := Exec([]);
      NoItems(ln, k);
    } else {
      var n := |xs| - 1;
      var init, x := xs[..n], xs[n];
      assert init + [x] == xs;
      var j := k + |ItemsPieces(init)|;
      SplitSegment(ln.pieces, k, ItemsPieces(init), ItemPieces(x));
      SegmentEnds(ln.pieces, k, ItemsPieces(init));
      c := ItemsParse(ln, k, init);
      c := ItemParsed(ln, k, j, init, c, x);
    }
  }

  lemma NoItems(ln: Line, k: nat)
    requires LineOk(ln) && k <= |ln.pieces|
    ensures ItemsState(ln, k, k, [], Exec([]))
  {
    hide RenderTo, LineOk, Args;
    AtStart(ln, k);
  }

  lemma SegmentEnds(ps: seq<Piece>, k: nat, x: seq<Piece>)
    requires Segment(ps, k, x)
    ensures k + |x| <= |ps|
  {
  }

  lemma ItemParsed(ln: Line, k: nat, j: nat, xs: seq<Item>, b: Cmd<Span>, x: Item) returns (c: Cmd<Span>)
    requires LineOk(ln) && k <= |ln.pieces| && j <= |ln.pieces| && Segment(ln.pieces, j, ItemPieces(x))
    requires |Words(xs + [x])| < MAXARGS && ItemsState(ln, k, j, xs, b)
    ensures j + |ItemPieces(x)| <= |ln.pieces| && ItemsState(ln, k, j + |ItemPieces(x)|, xs + [x], c)
  {
    hide RenderTo, LineOk, SpanReads, ModePiece, SimpleMeaning, Words, Args, Redirs;
    SimpleSnoc(xs, x);
    SegmentAt(ln.pieces, j, ItemPieces(x), 0);
    match x
    case Arg(w) =>
      ArgStep(ln, j, b, w);
      var sp := Span(Pos(ln, j), Pos(ln, j) + |w|);
      c := AddArg(b, sp);
      ReadsAddArg(Render(ln), b, SimpleMeaning(xs), sp, w);
    case Redirect(m, f) =>
      SegmentAt(ln.pieces, j, ItemPieces(x), 1);
      RedirStep(ln, j, b, f, m);
      c := Redir(b, Span(Pos(ln, j + 1), Pos(ln, j + 1) + |f|), m);
      ArgsFromRedirs(b, c, Render(ln), Pos(ln, j), Pos(ln, j + 2));
  }

  /** What parseexec does next depends on what parseredirs returns. */
  lemma ArgsFromRedirs(b: Cmd<Span>, c: Cmd<Span>, s: string, i: nat, j: nat)
    requires i <= |s| && j <= |s| && Core(b).Exec? && Core(c).Exec? && Redirs(b, s, i) == Redirs(c, s, j)
    ensures Args(b, s, i) == Args(c, s, j)
  {
    hide Redirs, GetToken, Ahead;
  }

  /** The redirections behind a group. */
  lemma {:induction false} RedirsParse(ln: Line, k: nat, b: Cmd<Span>, d: Cmd<string>, rs: seq<Item>)
    returns (c: Cmd<Span>)
    requires LineOk(ln) && AllRedirects(rs) && Segment(ln.pieces, k, ItemsPieces(rs)) && Reads(Render(ln), b, d)
    ensures Reads(Render(ln), c, Wrapped(d, rs))
    ensures Pos(ln, k) <= |Render(ln)| && Pos(ln, k + |ItemsPieces(rs)|) <= |Render(ln)|
    ensures Redirs(b, Render(ln), Pos(ln, k)) == Redirs(c, Render(ln), Pos(ln, k + |ItemsPieces(rs)|))
    decreases |rs|
  {
    hide RenderTo, LineOk, SpanReads, Redirs, ModePiece;
    if rs == [] {
      AtStart(ln, k);
      c := b;
    } else {
      var n := |rs| - 1;
      var init, m, f := rs[..n], rs[n].mode, rs[n].file;
      var j := k + |ItemsPieces(init)|;
      RedirBefore(ln.pieces, k, ItemsPieces(init), m, f);
      var a := RedirsParse(ln, k, b, d, init);
      RedirStep(ln, j, a, f, m);
      c := Redir(a, Span(Pos(ln, j + 1), Pos(ln, j + 1) + |f|), m);
    }
  }

  // ---- The states in which the parser's functions leave the pieces ----

  ghost predicate ExecState(ln: Line, i: nat, j: nat, c: Cmd<Span>)
    requires i <= |ln.pieces| && j <= |ln.pieces|
  {
    Pos(ln, i) <= |Render(ln)| && ParseExec(Render(ln), Pos(ln, i)) == Ok(c, Pos(ln, j))
  }

  ghost predicate PipeState(ln: Line, i: nat, j: nat, c: Cmd<Span>)
    requires i <= |ln.pieces| && j <= |ln.pieces|
  {
    Pos(ln, i) <= |Render(ln)| && ParsePipe(Render(ln), Pos(ln, i)) == Ok(c, Pos(ln, j))
  }

  ghost predicate JobsState(ln: Line, i: nat, j: nat, c: Cmd<Span>)
    requires i <= |ln.pieces| && j <= |ln.pieces|
  {
    var s := Render(ln);
    Pos(ln, i) <= |s| && Pos(ln, j) <= |s| && ParseJobs(s, Pos(ln, i)) == Backs(c, s, Pos(ln, j))
  }

  ghost predicate LineState(ln: Line, i: nat, j: nat, c: Cmd<Span>)
    requires i <= |ln.pieces| && j <= |ln.pieces|
  {
    Pos(ln, i) <= |Render(ln)| && ParseLine(Render(ln), Pos(ln, i)) == Ok(c, Pos(ln, j))
  }

  lemma SimpleParses(ln: Line, k: nat, xs: seq<Item>) returns (c: Cmd<Span>)
    requires LineOk(ln) && |Words(xs)| < MAXARGS && Segment(ln.pieces, k, ItemsPieces(xs))
    requires Follow(ln.pieces, k + |ItemsPieces(xs)|, "|)&;")
    ensures Reads(Render(ln), c, SimpleMeaning(xs))
    ensures ExecState(ln, k, k + |ItemsPieces(xs)|, c)
  {
    hide RenderTo, LineOk, Args, SpanReads, Ahead, PieceOk, Wrapped;
    c := ItemsParse(ln, k, xs);
    AheadAt(ln, k, "(");
    NoParen(ln, k, xs);
    ExecStops(ln, k + |ItemsPieces(xs)|, c);
  }

  lemma {:induction false} FirstItem(xs: seq<Item>)
    requires xs != []
    ensures ItemsPieces(xs) != [] && ItemsPieces(xs)[0] == ItemPieces(xs[0])[0]
  {
    if |xs| == 1 {
      assert xs[..0] == [];
    } else {
      FirstItem(xs[..|xs| - 1]);
    }
  }

  lemma NoParen(ln: Line, k: nat, xs: seq<Item>)
    requires LineOk(ln) && Segment(ln.pieces, k, ItemsPieces(xs)) && Follow(ln.pieces, k + |ItemsPieces(xs)|, "|)&;")
    ensures !Next(ln.pieces, k, "(")
  {
    hide LineOk;
    if xs != [] {
      FirstItem(xs);
      SegmentAt(ln.pieces, k, ItemsPieces(xs), 0);
      if xs[0].Arg? {
        NotSymbol(ln, k);
      }
    }
  }

  /** A parenthesised line, from the state of the line inside. */
  lemma GroupParses(ln: Line, i: nat, j: nat, b: Cmd<Span>, d: Cmd<string>, rs: seq<Item>) returns (c: Cmd<Span>)
    requires LineOk(ln) && i < j < |ln.pieces| && ln.pieces[i] == S("(") && ln.pieces[j] == S(")")
    requires LineState(ln, i + 1, j, b) && Reads(Render(ln), b, d) && AllRedirects(rs)
    requires Segment(ln.pieces, j + 1, ItemsPieces(rs)) && Follow(ln.pieces, j + 1 + |ItemsPieces(rs)|, "|)&;")
    ensures Reads(Render(ln), c, Wrapped(d, rs)) && ExecState(ln, i, j + 1 + |ItemsPieces(rs)|, c)
  {
    hide RenderTo, LineOk, Args, Redirs, Ahead, GetToken, ParseLine, ParseExec, Reads, Wrapped, Follow, Segment;
    SegmentEnds(ln.pieces, j + 1, ItemsPieces(rs));
    GroupRead(ln, i, j, b);
    hide LineState;
    c := RedirsParse(ln, j + 1, b, d, rs);
    ExecStops(ln, j + 1 + |ItemsPieces(rs)|, c);
  }

  /** parseblock up to the closing parenthesis. */
  lemma GroupRead(ln: Line, i: nat, j: nat, b: Cmd<Span>)
    requires LineOk(ln) && i < j < |ln.pieces| && ln.pieces[i] == S("(") && ln.pieces[j] == S(")")
    requires LineState(ln, i + 1, j, b)
    ensures Pos(ln, i) <= |Render(ln)| && Pos(ln, j + 1) <= |Render(ln)|
    ensures ParseExec(Render(ln), Pos(ln, i)) == Redirs(b, Render(ln), Pos(ln, j + 1))
  {
    hide RenderTo, LineOk, Args, Redirs, Ahead, GetToken, ParseLine;
    TokenAt(ln, i);
    TokenAt(ln, j);
    AtStart(ln, j + 1);
    AheadAt(ln, i, "(");
    AheadAt(ln, j, ")");
    var s := Render(ln);
    assert ParseBlock(s, Pos(ln, i)) == Redirs(b, s, Pos(ln, j + 1));
  }

  /** An exec-level command, then either the end of the pipeline or a bar and the rest of it. */
  lemma PipeOfExec(ln: Line, i: nat, j: nat, c: Cmd<Span>)
    requires LineOk(ln) && i <= |ln.pieces| && j <= |ln.pieces| && ExecState(ln, i, j, c)
    requires Follow(ln.pieces, j, ")&;")
    ensures PipeState(ln, i, j, c)
  {
    hide RenderTo, LineOk, Ahead, GetToken, ParseExec;
    AtStart(ln, j);
    AheadAt(ln, j, "|");
  }

  lemma PipeOfBar(ln: Line, i: nat, j: nat, n: nat, l: Cmd<Span>, r: Cmd<Span>)
    requires LineOk(ln) && i <= |ln.pieces| && j < |ln.pieces| && n <= |ln.pieces| && ln.pieces[j] == S("|")
    requires ExecState(ln, i, j, l) && PipeState(ln, j + 1, n, r)
    ensures PipeState(ln, i, n, Pipe(l, r))
  {
    hide RenderTo, LineOk, Ahead, GetToken, ParseExec;
    AheadAt(ln, j, "|");
    TokenAt(ln, j);
  }

  lemma JobsOfPipe(ln: Line, i: nat, j: nat, c: Cmd<Span>)
    requires LineOk(ln) && i <= |ln.pieces| && j <= |ln.pieces| && PipeState(ln, i, j, c)
    ensures JobsState(ln, i, j, c)
  {
    hide RenderTo, LineOk, ParsePipe, Backs;
    AtStart(ln, j);
  }

  lemma JobsOfAmp(ln: Line, i: nat, j: nat, c: Cmd<Span>)
    requires LineOk(ln) && i <= |ln.pieces| && j < |ln.pieces| && ln.pieces[j] == S("&") && JobsState(ln, i, j, c)
    ensures JobsState(ln, i, j + 1, Back(c))
  {
    hide RenderTo, LineOk, ParseJobs, Ahead, GetToken;
    AtStart(ln, j + 1);
    AheadAt(ln, j, "&");
    TokenAt(ln, j);
  }

  lemma JobsStop(ln: Line, i: nat, j: nat, c: Cmd<Span>)
    requires LineOk(ln) && i <= |ln.pieces| && j <= |ln.pieces| && JobsState(ln, i, j, c)
    requires Follow(ln.pieces, j, ");")
    ensures ParseJobs(Render(ln), Pos(ln, i)) == Ok(c, Pos(ln, j))
  {
    hide RenderTo, LineOk, ParseJobs, Ahead, GetToken;
    AtStart(ln, j);
    AheadAt(ln, j, "&");
  }

  lemma LineOfJobs(ln: Line, i: nat, j: nat, c: Cmd<Span>)
    requires LineOk(ln) && i <= |ln.pieces| && j <= |ln.pieces| && JobsState(ln, i, j, c)
    requires Follow(ln.pieces, j, ")")
    ensures LineState(ln, i, j, c)
  {
    hide RenderTo, LineOk, ParseJobs, Ahead, GetToken, Backs;
    JobsStop(ln, i, j, c);
    AtStart(ln, j);
    AheadAt(ln, j, ";");
  }

  lemma LineOfSemi(ln: Line, i: nat, j: nat, n: nat, l: Cmd<Span>, r: Cmd<Span>)
    requires LineOk(ln) && i <= |ln.pieces| && j < |ln.pieces| && n <= |ln.pieces| && ln.pieces[j] == S(";")
    requires JobsState(ln, i, j, l) && LineState(ln, j + 1, n, r)
    ensures LineState(ln, i, n, List(l, r))
  {
    hide RenderTo, LineOk, ParseJobs, Ahead, GetToken, Backs;
    JobsStop(ln, i, j, l);
    AheadAt(ln, j, ";");
    TokenAt(ln, j);
  }

  // ---- Everything typed is parsed back ----

  lemma {:induction false} ExecParses(ln: Line, k: nat, t: Typed) returns (r: Cmd<Span>)
    requires LineOk(ln) && WellTyped(t) && Rank(t) == EXEC && Segment(ln.pieces, k, Tokens(t))
    requires Follow(ln.pieces, k + |Tokens(t)|, "|)&;")
    ensures Reads(Render(ln), r, Meaning(t)) && ExecState(ln, k, k + |Tokens(t)|, r)
    decreases t, EXEC - EXEC
  {
    hide RenderTo, LineOk, ExecState, LineState, Reads, Segment, Next, Wrapped;
    match t {
      case Simple(items) =>
        r := SimpleParses(ln, k, items);
      case Group(line, redirs) =>
        var n := k + 1 + |Tokens(line)|;
        BlockBefore(ln.pieces, k, Tokens(line), ItemsPieces(redirs));
        NextIs(ln.pieces, n, ")");
        var b := LineParses(ln, k + 1, line);
        r := GroupParses(ln, k, n, b, Meaning(line), redirs);
    }
  }

  lemma NextIs(ps: seq<Piece>, k: nat, o: string)
    requires k < |ps| && ps[k] == S(o) && o != []
    ensures forall toks: string :: o[0] in toks ==> Follow(ps, k, toks)
  {
  }

  lemma {:induction false} PipeParses(ln: Line, k: nat, t: Typed) returns (r: Cmd<Span>)
    requires LineOk(ln) && WellTyped(t) && Rank(t) >= PIPE && Segment(ln.pieces, k, Tokens(t))
    requires Follow(ln.pieces, k + |Tokens(t)|, ")&;")
    ensures Reads(Render(ln), r, Meaning(t)) && PipeState(ln, k, k + |Tokens(t)|, r)
    decreases t, EXEC - PIPE
  {
    hide RenderTo, LineOk, ExecState, PipeState, SpanReads, Segment;
    hide SimpleMeaning, Wrapped, ItemsPieces, ItemsOk, Words;
    if t.Piped? {
      var n := k + |Tokens(t.left)|;
      BarBefore(ln.pieces, k, Tokens(t.left), "|", Tokens(t.right));
      var l := ExecParses(ln, k, t.left);
      var m := PipeParses(ln, n + 1, t.right);
      PipeOfBar(ln, k, n, k + |Tokens(t)|, l, m);
      r := Pipe(l, m);
    } else {
      r := ExecParses(ln, k, t);
      SegmentEnds(ln.pieces, k, Tokens(t));
      PipeOfExec(ln, k, k + |Tokens(t)|, r);
    }
  }

  lemma {:induction false} JobsParses(ln: Line, k: nat, t: Typed) returns (r: Cmd<Span>)
    requires LineOk(ln) && WellTyped(t) && Rank(t) >= JOBS && Segment(ln.pieces, k, Tokens(t))
    requires Follow(ln.pieces, k + |Tokens(t)|, ")&;")
    ensures Reads(Render(ln), r, Meaning(t)) && JobsState(ln, k, k + |Tokens(t)|, r)
    decreases t, EXEC - JOBS
  {
    hide RenderTo, LineOk, JobsState, PipeState, SpanReads, Segment;
    if t.Backed? {
      var n := k + |Tokens(t.job)|;
      OneAt(ln.pieces, k, Tokens(t.job), S("&"));
      var d := JobsParses(ln, k, t.job);
      JobsOfAmp(ln, k, n, d);
      r := Back(d);
    } else {
      r := PipeParses(ln, k, t);
      SegmentEnds(ln.pieces, k, Tokens(t));
      JobsOfPipe(ln, k, k + |Tokens(t)|, r);
    }
  }

  lemma {:induction false} LineParses(ln: Line, k: nat, t: Typed) returns (r: Cmd<Span>)
    requires LineOk(ln) && WellTyped(t) && Segment(ln.pieces, k, Tokens(t)) && Follow(ln.pieces, k + |Tokens(t)|, ")")
    ensures Reads(Render(ln), r, Meaning(t)) && LineState(ln, k, k + |Tokens(t)|, r)
    decreases t, EXEC - LINE
  {
    hide RenderTo, LineOk, JobsState, LineState, SpanReads, Segment;
    hide SimpleMeaning, Wrapped, ItemsPieces, ItemsOk, Words;
    if t.Listed? {
      var n := k + |Tokens(t.first)|;
      BarBefore(ln.pieces, k, Tokens(t.first), ";", Tokens(t.second));
      var l := JobsParses(ln, k, t.first);
      var m := LineParses(ln, n + 1, t.second);
      LineOfSemi(ln, k, n, k + |Tokens(t)|, l, m);
      r := List(l, m);
    } else {
      r := JobsParses(ln, k, t);
      SegmentEnds(ln.pieces, k, Tokens(t));
      LineOfJobs(ln, k, k + |Tokens(t)|, r);
    }
  }

  // ---- White space before the line ----

  lemma TokenSkips(s: string, i: nat)
    requires i <= |s|
    ensures GetToken(s, SkipWhite(s, i)) == GetToken(s, i)
    ensures forall toks: string :: Ahead(s, SkipWhite(s, i), toks) == Ahead(s, i, toks)
  {
    SkipTwice(s, i);
  }

  lemma ArgsSkip(c: Cmd<Span>, s: string, i: nat)
    requires i <= |s|
    ensures Redirs(c, s, SkipWhite(s, i)) == Redirs(c, s, i)
    ensures Core(c).Exec? ==> Args(c, s, SkipWhite(s, i)) == Args(c, s, i)
  {
    TokenSkips(s, i);
    SkipTwice(s, i);
    hide GetToken, Ahead, SkipWhite;
    assert Redirs(c, s, SkipWhite(s, i)) == Redirs(c, s, i);
    if Core(c).Exec? {
      ArgsFromRedirs(c, c, s, SkipWhite(s, i), i);
    }
  }

  lemma ExecSkips(s: string, i: nat)
    requires i <= |s|
    ensures ParseExec(s, SkipWhite(s, i)) == ParseExec(s, i)
  {
    TokenSkips(s, i);
    ArgsSkip(Exec([]), s, i);
    hide GetToken, Ahead, SkipWhite, Args, Redirs, ParseLine;
  }

  lemma LineSkips(s: string, i: nat)
    requires i <= |s|
    ensures ParseLine(s, SkipWhite(s, i)) == ParseLine(s, i)
  {
    ExecSkips(s, i);
    JobsSkip(s, i);
    hide GetToken, Ahead, SkipWhite, ParseJobs;
  }

  lemma JobsSkip(s: string, i: nat)
    requires i <= |s| && ParseExec(s, SkipWhite(s, i)) == ParseExec(s, i)
    ensures ParseJobs(s, SkipWhite(s, i)) == ParseJobs(s, i)
  {
    hide GetToken, Ahead, SkipWhite, ParseExec, Backs;
    assert ParsePipe(s, SkipWhite(s, i)) == ParsePipe(s, i);
  }

  // ---- The whole line ----

  /** Whatever is typed, with whatever white space, is parsed as exactly what it means. */
  lemma TypedThenParse(ln: Line, t: Typed)
    requires LineOk(ln) && WellTyped(t) && ln.pieces == Tokens(t)
    ensures ParseCmd(Render(ln)).Ok? && Reads(Render(ln), ParseCmd(Render(ln)).value, Meaning(t))
  {
    hide RenderTo, LineOk, ParseLine, Reads, SkipWhite;
    var ps, s := ln.pieces, Render(ln);
    assert ps[0..0 + |ps|] == ps;
    var r := LineParses(ln, 0, t);
    EndPos(ln);
    AtStart(ln, |ps|);
    StartOf(ln);
    LineSkips(s, 0);
  }

  lemma StartOf(ln: Line)
    requires LineOk(ln)
    ensures SkipWhite(Render(ln), 0) == Pos(ln, 0) <= |Render(ln)|
  {
    var s, j := Render(ln), Pos(ln, 0);
    RenderPrefix(ln, 0, |ln.pieces|);
    AtStart(ln, 0);
    forall k | 0 <= k < j ensures White(s[k]) {
      assert s[k] == ln.lead[k];
    }
    NotWhiteAt(s, j);
    SkipRun(s, 0, j);
  }

  // ---- Every command tree can be typed ----

  predicate Printable(c: Cmd<string>) {
    match c
    case Exec(args) => |args| < MAXARGS && forall i :: 0 <= i < |args| ==> Legal(args[i])
    case Redir(d, f, _) => Printable(d) && Legal(f)
    case Pipe(l, r) => Printable(l) && Printable(r)
    case List(l, r) => Printable(l) && Printable(r)
    case Back(d) => Printable(d)
  }

  function ArgItems(args: seq<string>): (r: seq<Item>)
    ensures |r| == |args| && forall i :: 0 <= i < |args| ==> r[i] == Arg(args[i])
  {
    seq(|args|, i requires 0 <= i < |args| => Arg(args[i]))
  }

  /** `t` where a command that binds this tightly is expected. */
  function Fit(t: Typed, level: nat): Typed {
    if Rank(t) >= level then t else Group(t, [])
  }

  /** A way to type `c`, with parentheses only where they are needed. */
  function Print(c: Cmd<string>): Typed {
    match c
    case Exec(args) => Simple(ArgItems(args))
    case Redir(d, f, m) =>
      (match Fit(Print(d), EXEC)
       case Simple(items) => Simple(items + [Redirect(m, f)])
       case Group(line, redirs) => Group(line, redirs + [Redirect(m, f)])
       case t => t)
    case Pipe(l, r) => Piped(Fit(Print(l), EXEC), Fit(Print(r), PIPE))
    case Back(d) => Backed(Fit(Print(d), JOBS))
    case List(l, r) => Listed(Fit(Print(l), JOBS), Print(r))
  }

  lemma {:induction false} WordsOfArgs(args: seq<string>)
    ensures Words(ArgItems(args)) == args && Redirections(ArgItems(args)) == []
  {
    if args == [] {
    } else {
      var n := |args| - 1;
      WordsOfArgs(args[..n]);
      assert ArgItems(args)[..n] == ArgItems(args[..n]);
    }
  }

  lemma FitMeans(t: Typed, level: nat)
    requires WellTyped(t) && level <= EXEC
    ensures WellTyped(Fit(t, level)) && Rank(Fit(t, level)) >= level && Meaning(Fit(t, level)) == Meaning(t)
  {
  }

  lemma OneMoreWrapped(c: Cmd<string>, rs: seq<Item>, m: Mode, f: string)
    requires AllRedirects(rs)
    ensures Wrapped(c, rs + [Redirect(m, f)]) == Redir(Wrapped(c, rs), f, m)
  {
    assert (rs + [Redirect(m, f)])[..|rs|] == rs;
  }

  lemma RedirCanBeTyped(c: Cmd<string>, f: string, m: Mode)
    requires Legal(f) && WellTyped(Print(c)) && Meaning(Print(c)) == c
    ensures WellTyped(Print(Redir(c, f, m))) && Meaning(Print(Redir(c, f, m))) == Redir(c, f, m)
  {
    hide SimpleMeaning, Wrapped, Words, Legal;
    FitMeans(Print(c), EXEC);
    var t := Fit(Print(c), EXEC);
    match t
    case Simple(items) => SimpleSnoc(items, Redirect(m, f));
    case Group(line, redirs) => OneMoreWrapped(Meaning(line), redirs, m, f);
  }

  lemma ExecCanBeTyped(args: seq<string>)
    requires Printable(Exec(args))
    ensures WellTyped(Print(Exec(args))) && Meaning(Print(Exec(args))) == Exec(args)
  {
    hide Legal, Words, Redirections;
    WordsOfArgs(args);
    assert ItemsOk(ArgItems(args)) by {
      forall i | 0 <= i < |args| ensures ItemOk(ArgItems(args)[i]) {
        assert Legal(args[i]);
      }
    }
  }

  /** Every tree of legal words has a way to be typed. */
  lemma {:induction false} EveryCommandCanBeTyped(c: Cmd<string>)
    requires Printable(c)
    ensures WellTyped(Print(c)) && Meaning(Print(c)) == c
  {
    hide Legal, SimpleMeaning, Wrapped, Words, Fit, ItemsOk, ArgItems;
    match c
    case Exec(args) => ExecCanBeTyped(args);
    case Redir(d, f, m) => EveryCommandCanBeTyped(d); RedirCanBeTyped(d, f, m);
    case Pipe(l, r) =>
      EveryCommandCanBeTyped(l);
      EveryCommandCanBeTyped(r);
      FitMeans(Print(l), EXEC);
      FitMeans(Print(r), PIPE);
    case Back(d) =>
      EveryCommandCanBeTyped(d);
      FitMeans(Print(d), JOBS);
    case List(l, r) =>
      EveryCommandCanBeTyped(l);
      EveryCommandCanBeTyped(r);
      FitMeans(Print(l), JOBS);
  }

  /** What is printed for any command tree of legal words, spaced in any way, is parsed as exactly that
      tree. */
  lemma PrintThenParse(c: Cmd<string>, ln: Line)
    requires Printable(c) && LineOk(ln) && ln.pieces == Tokens(Print(c))
    ensures ParseCmd(Render(ln)).Ok? && Reads(Render(ln), ParseCmd(Render(ln)).value, c)
  {
    EveryCommandCanBeTyped(c);
    TypedThenParse(ln, Print(c));
  }
}
