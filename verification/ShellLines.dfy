/** What is typed: words and operators with any white space around them, and none where the shell can
    do without it. */
module ShellLines {
  import opened ShellGrammar

  /** A word or an operator. */
  datatype Piece = W(text: string) | S(text: string)

  /** A word the shell can read back. */
  predicate Legal(w: string) {
    w != [] && forall i :: 0 <= i < |w| ==> w[i] !in " \t\r\n\U{0B}<|>&;()" && w[i] != NUL
  }

  predicate PieceOk(p: Piece) {
    match p
    case W(w) => Legal(w)
    case S(o) => o in ["|", "&", ";", "(", ")", "<", ">", ">>"]
  }

  predicate PiecesOk(ps: seq<Piece>) {
    forall k :: 0 <= k < |ps| ==> PieceOk(ps[k])
  }

  predicate Blank(g: string) {
    forall i :: 0 <= i < |g| ==> g[i] in " \t\r\n\U{0B}"
  }

  /** The pieces of a line, the white space before them, and that behind each of them. */
  datatype Line = Line(lead: string, pieces: seq<Piece>, gaps: seq<string>)

  function Gap(ln: Line, k: nat): string {
    if k < |ln.gaps| then ln.gaps[k] else []
  }

  /** Two pieces that can be typed without white space between them. */
  predicate MayTouch(p: Piece, q: Piece) {
    !(p.W? && q.W?) && !(p.text == ">" && q.text != [] && q.text[0] == '>')
  }

  ghost predicate LineOk(ln: Line) {
    && PiecesOk(ln.pieces) && Blank(ln.lead) && (forall k: nat :: Blank(Gap(ln, k)))
    && forall k :: 0 <= k < |ln.pieces| - 1 && Gap(ln, k) == [] ==> MayTouch(ln.pieces[k], ln.pieces[k + 1])
  }

  /** The text up to piece `k`. */
  function RenderTo(ln: Line, k: nat): string
    requires k <= |ln.pieces|
  {
    if k == 0 then ln.lead else RenderTo(ln, k - 1) + ln.pieces[k - 1].text + Gap(ln, k - 1)
  }

  function Render(ln: Line): string { RenderTo(ln, |ln.pieces|) }

  /** Where piece `k` starts. */
  function Pos(ln: Line, k: nat): nat
    requires k <= |ln.pieces|
  {
    |RenderTo(ln, k)|
  }

  lemma {:induction false} RenderPrefix(ln: Line, k: nat, n: nat)
    requires k <= n <= |ln.pieces|
    ensures RenderTo(ln, k) <= RenderTo(ln, n)
    decreases n
  {
    if k == n {
    } else {
      RenderPrefix(ln, k, n - 1);
    }
  }

  lemma OkAt(ln: Line, k: nat)
    requires LineOk(ln) && k < |ln.pieces|
    ensures PieceOk(ln.pieces[k]) && ln.pieces[k].text != [] && !White(ln.pieces[k].text[0]) && Blank(Gap(ln, k))
  {
    assert PieceOk(ln.pieces[k]);
  }

  lemma Middle(s: string, a: string, t: string, g: string)
    requires a + t + g <= s
    ensures |a| + |t| + |g| <= |s| && s[|a|..|a| + |t|] == t
    ensures forall i :: 0 <= i < |t| ==> s[|a| + i] == t[i]
    ensures forall i :: 0 <= i < |g| ==> s[|a| + |t| + i] == g[i]
  {
    var r := a + t + g;
    assert forall i :: 0 <= i < |r| ==> s[i] == r[i];
    assert r[|a|..|a| + |t|] == t;
  }

  /** The text around piece `k`. */
  lemma PieceAt(ln: Line, k: nat)
    requires k < |ln.pieces|
    ensures var s, p, t, g := Render(ln), Pos(ln, k), ln.pieces[k].text, Gap(ln, k);
            && p + |t| + |g| <= |s| && Pos(ln, k + 1) == p + |t| + |g|
            && s[p..p + |t|] == t && (forall i :: 0 <= i < |t| ==> s[p + i] == t[i])
            && forall i :: 0 <= i < |g| ==> s[p + |t| + i] == g[i]
  {
    hide RenderTo;
    RenderPrefix(ln, k + 1, |ln.pieces|);
    RenderNext(ln, k);
    Middle(Render(ln), RenderTo(ln, k), ln.pieces[k].text, Gap(ln, k));
  }

  lemma RenderNext(ln: Line, k: nat)
    requires k < |ln.pieces|
    ensures RenderTo(ln, k + 1) == RenderTo(ln, k) + ln.pieces[k].text + Gap(ln, k)
  {
  }

  lemma EndPos(ln: Line)
    ensures Pos(ln, |ln.pieces|) == |Render(ln)| && Pos(ln, 0) == |ln.lead|
  {
  }

  /** White space ends where there is something else. */
  lemma SkipRun(s: string, i: nat, j: nat)
    requires i <= j <= |s| && (forall k :: i <= k < j ==> White(s[k])) && (j < |s| ==> !White(s[j]))
    ensures SkipWhite(s, i) == j
  {
  }

  lemma WordRun(s: string, p: nat, e: nat)
    requires p <= e <= |s| && (forall i :: p <= i < e ==> WordChar(s[i])) && (e < |s| ==> !WordChar(s[e]))
    ensures WordEnd(s, p) == e
  {
  }

  /** No white space at the start of a piece. */
  lemma AtStart(ln: Line, k: nat)
    requires LineOk(ln) && k <= |ln.pieces|
    ensures Pos(ln, k) <= |Render(ln)| && SkipWhite(Render(ln), Pos(ln, k)) == Pos(ln, k)
  {
    hide LineOk, PieceOk, White, RenderTo, SkipWhite;
    if k < |ln.pieces| {
      PieceAt(ln, k);
      OkAt(ln, k);
      assert Render(ln)[Pos(ln, k) + 0] == ln.pieces[k].text[0];
    } else {
      EndPos(ln);
    }
    SkipRun(Render(ln), Pos(ln, k), Pos(ln, k));
  }

  /** The gap behind piece `k` is skipped. */
  lemma GapSkipped(ln: Line, k: nat)
    requires LineOk(ln) && k < |ln.pieces|
    ensures var e := Pos(ln, k) + |ln.pieces[k].text|;
            e <= |Render(ln)| && SkipWhite(Render(ln), e) == Pos(ln, k + 1)
  {
    hide LineOk, PieceOk, RenderTo, SkipWhite;
    PieceAt(ln, k);
    OkAt(ln, k);
    AtStart(ln, k + 1);
    var s, e, g := Render(ln), Pos(ln, k) + |ln.pieces[k].text|, Gap(ln, k);
    forall i | e <= i < e + |g| ensures White(s[i]) {
      assert s[e + (i - e)] == g[i - e];
    }
    NotWhiteAt(s, e + |g|);
    SkipRun(s, e, e + |g|);
  }

  lemma NotWhiteAt(s: string, i: nat)
    requires i <= |s| && SkipWhite(s, i) == i
    ensures i < |s| ==> !White(s[i])
  {
  }

  /** What may come right behind a piece. */
  predicate Ends(x: Piece, s: string, e: nat) {
    e < |s| ==> (x.W? ==> !WordChar(s[e])) && (x.text == ">" ==> s[e] != '>')
  }

  lemma PieceEnds(ln: Line, k: nat)
    requires LineOk(ln) && k < |ln.pieces|
    ensures Ends(ln.pieces[k], Render(ln), Pos(ln, k) + |ln.pieces[k].text|)
  {
    hide RenderTo, PieceOk, Legal;
    PieceAt(ln, k);
    OkAt(ln, k);
    var s, e := Render(ln), Pos(ln, k) + |ln.pieces[k].text|;
    if Gap(ln, k) != [] {
      assert s[e + 0] == Gap(ln, k)[0];
    } else if k + 1 < |ln.pieces| {
      PieceAt(ln, k + 1);
      OkAt(ln, k + 1);
      assert s[Pos(ln, k + 1) + 0] == ln.pieces[k + 1].text[0];
      assert MayTouch(ln.pieces[k], ln.pieces[k + 1]);
    } else {
      EndPos(ln);
    }
  }

  function KindOf(p: Piece): Kind {
    match p
    case W(_) => Word
    case S(o) => if o == ">>" then Shift else if o == [] then End else Op(o[0])
  }

  lemma ReadPiece(s: string, p: nat, x: Piece)
    requires PieceOk(x) && x.text != [] && p + |x.text| <= |s| && Ends(x, s, p + |x.text|)
    requires forall i :: 0 <= i < |x.text| ==> s[p + i] == x.text[i]
    requires SkipWhite(s, p) == p
    ensures GetToken(s, p) == Token(KindOf(x), Span(p, p + |x.text|), SkipWhite(s, p + |x.text|))
  {
    hide SkipWhite;
    var t := x.text;
    assert s[p + 0] == t[0];
    if x.W? {
      forall i | p <= i < p + |t| ensures WordChar(s[i]) {
        assert s[p + (i - p)] == t[i - p];
      }
      WordRun(s, p, p + |t|);
    } else if |t| == 2 {
      assert s[p + 1] == t[1];
    }
  }

  /** gettoken at the start of a piece returns that piece and moves to the next. */
  lemma TokenAt(ln: Line, k: nat)
    requires LineOk(ln) && k < |ln.pieces|
    ensures Pos(ln, k) <= |Render(ln)|
    ensures var s, p, n := Render(ln), Pos(ln, k), |ln.pieces[k].text|;
            GetToken(s, p) == Token(KindOf(ln.pieces[k]), Span(p, p + n), Pos(ln, k + 1)) && p + n <= |s| &&
            s[p..p + n] == ln.pieces[k].text
  {
    hide RenderTo, LineOk, GetToken, SkipWhite, PieceOk;
    AtStart(ln, k);
    PieceAt(ln, k);
    OkAt(ln, k);
    PieceEnds(ln, k);
    GapSkipped(ln, k);
    ReadPiece(Render(ln), Pos(ln, k), ln.pieces[k]);
  }

  /** The first character of piece `k` is one of these. */
  predicate Next(ps: seq<Piece>, k: nat, toks: string) {
    k < |ps| && ps[k].text != [] && ps[k].text[0] in toks
  }

  /** What follows is the end, or starts with one of these characters. */
  predicate Follow(ps: seq<Piece>, k: nat, toks: string) {
    k >= |ps| || Next(ps, k, toks)
  }

  lemma AheadAt(ln: Line, k: nat, toks: string)
    requires LineOk(ln) && k <= |ln.pieces|
    ensures Pos(ln, k) <= |Render(ln)|
    ensures Ahead(Render(ln), Pos(ln, k), toks) <==> Next(ln.pieces, k, toks)
  {
    hide RenderTo, LineOk, PieceOk, White;
    AtStart(ln, k);
    if k < |ln.pieces| {
      PieceAt(ln, k);
      OkAt(ln, k);
      assert Render(ln)[Pos(ln, k) + 0] == ln.pieces[k].text[0];
    } else {
      EndPos(ln);
    }
  }

  /** At the end there is no token, and elsewhere there is one. */
  lemma EndAt(ln: Line, k: nat)
    requires LineOk(ln) && k <= |ln.pieces|
    ensures Pos(ln, k) <= |Render(ln)| && (Pos(ln, k) == |Render(ln)| <==> k == |ln.pieces|)
    ensures GetToken(Render(ln), Pos(ln, k)).kind == End <==> k == |ln.pieces|
  {
    hide RenderTo, LineOk, PieceOk;
    AtStart(ln, k);
    if k < |ln.pieces| {
      PieceAt(ln, k);
      OkAt(ln, k);
    } else {
      EndPos(ln);
    }
  }

  // ---- Every text is such a line ----

  function PieceOf(s: string, t: Token): Piece
    requires t.span.q <= t.span.eq <= |s|
  {
    if t.kind == Word then W(s[t.span.q..t.span.eq]) else S(s[t.span.q..t.span.eq])
  }

  /** A token at `i` read as a piece. */
  lemma TokenIsPiece(s: string, i: nat)
    requires NUL !in s && i < |s| && SkipWhite(s, i) == i
    ensures var t := GetToken(s, i);
            && t.span.q == i && t.next == SkipWhite(s, t.span.eq) && PieceOk(PieceOf(s, t))
            && PieceOf(s, t).text == s[i..t.span.eq] && Ends(PieceOf(s, t), s, t.span.eq)
  {
    NotWhiteAt(s, i);
    hide SkipWhite;
    var t := GetToken(s, i);
    if t.kind == Word {
      forall k | 0 <= k < t.span.eq - i ensures WordChar(s[i..t.span.eq][k]) && s[i..t.span.eq][k] != NUL {
        assert s[i..t.span.eq][k] == s[i + k];
        assert s[i + k] in s;
      }
    } else if t.kind == Shift {
      assert s[i..i + 2] == ">>";
    } else {
      assert s[i..i + 1] == [s[i]];
    }
  }

  /** `ln` is the text up to `i`, where a token starts or the text ends. */
  ghost predicate ReadTo(s: string, i: nat, ln: Line) {
    && i <= |s| && LineOk(ln) && |ln.gaps| == |ln.pieces| && Render(ln) == s[..i] && SkipWhite(s, i) == i
    && (|ln.pieces| > 0 && Gap(ln, |ln.pieces| - 1) == [] ==> Ends(ln.pieces[|ln.pieces| - 1], s, i))
  }

  lemma WhiteIsBlank(s: string, i: nat)
    requires i <= |s|
    ensures Blank(s[i..SkipWhite(s, i)])
  {
    var j := SkipWhite(s, i);
    forall k | 0 <= k < j - i ensures s[i..j][k] in " \t\r\n\U{0B}" {
      assert White(s[i + k]);
    }
  }

  lemma {:induction false} RenderAppend(ln: Line, p: Piece, g: string, k: nat)
    requires |ln.gaps| == |ln.pieces| && k <= |ln.pieces|
    ensures RenderTo(Line(ln.lead, ln.pieces + [p], ln.gaps + [g]), k) == RenderTo(ln, k)
  {
    if k == 0 {
    } else {
      RenderAppend(ln, p, g, k - 1);
    }
  }

  lemma ReadOn(s: string, i: nat, ln: Line) returns (j: nat, more: Line)
    requires NUL !in s && ReadTo(s, i, ln) && i < |s|
    ensures i < j && ReadTo(s, j, more)
  {
    TokenIsPiece(s, i);
    var t := GetToken(s, i);
    WhiteIsBlank(s, t.span.eq);
    SkipTwice(s, t.span.eq);
    hide White, WordEnd, PieceOk, SkipWhite, PieceOf, Ends, ReadTo;
    more := ReadMore(s, i, t.span.eq, t.next, ln, PieceOf(s, t));
    j := t.next;
  }

  lemma ReadMore(s: string, i: nat, e: nat, j: nat, ln: Line, p: Piece) returns (more: Line)
    requires ReadTo(s, i, ln) && i < e <= j <= |s| && p.text == s[i..e] && PieceOk(p)
    requires Blank(s[e..j]) && SkipWhite(s, j) == j && Ends(p, s, e)
    ensures ReadTo(s, j, more)
  {
    hide Blank, PieceOk, SkipWhite, Ends, RenderTo, LineOk;
    assert s[i] == s[i..e][0];
    LongerLineOk(s, i, ln, p, s[e..j]);
    more := Longer(s, i, e, j, ln, p);
  }

  lemma Longer(s: string, i: nat, e: nat, j: nat, ln: Line, p: Piece) returns (more: Line)
    requires |ln.gaps| == |ln.pieces| && i < e <= j <= |s| && p.text == s[i..e] && Render(ln) == s[..i]
    ensures more == Line(ln.lead, ln.pieces + [p], ln.gaps + [s[e..j]]) && Render(more) == s[..j]
    ensures |more.gaps| == |more.pieces| > 0 && more.pieces[|more.pieces| - 1] == p
    ensures Gap(more, |more.pieces| - 1) == [] ==> j == e
  {
    var g, n := s[e..j], |ln.pieces|;
    hide RenderTo;
    more := Line(ln.lead, ln.pieces + [p], ln.gaps + [g]);
    RenderAppend(ln, p, g, n);
    RenderNext(more, n);
    Joined(s, i, e, j);
    assert Gap(more, n) == g && more.pieces[n] == p;
  }

  lemma Joined(s: string, i: nat, e: nat, j: nat)
    requires i <= e <= j <= |s|
    ensures s[..i] + s[i..e] + s[e..j] == s[..j]
  {
  }

  lemma LongerLineOk(s: string, i: nat, ln: Line, p: Piece, g: string)
    requires ReadTo(s, i, ln) && i < |s| && PieceOk(p) && Blank(g) && p.text != [] && s[i] == p.text[0]
    ensures LineOk(Line(ln.lead, ln.pieces + [p], ln.gaps + [g]))
  {
    hide SkipWhite, RenderTo, Blank, PieceOk, Ends, MayTouch;
    var more, n := Line(ln.lead, ln.pieces + [p], ln.gaps + [g]), |ln.pieces|;
    forall k: nat ensures Blank(Gap(more, k)) {
      assert Blank(Gap(ln, k));
    }
    forall k | 0 <= k < n && Gap(more, k) == [] ensures MayTouch(more.pieces[k], more.pieces[k + 1]) {
      assert Gap(ln, k) == Gap(more, k);
      if k == n - 1 {
        MayFollow(s, i, ln.pieces[k], p);
      }
    }
  }

  lemma MayFollow(s: string, i: nat, q: Piece, p: Piece)
    requires i < |s| && Ends(q, s, i) && PieceOk(p) && p.text != [] && s[i] == p.text[0]
    ensures MayTouch(q, p)
  {
    if p.W? {
      FirstOfWord(p);
    }
  }

  lemma FirstOfWord(p: Piece)
    requires PieceOk(p) && p.W?
    ensures p.text != [] && WordChar(p.text[0])
  {
  }

  /** Every text without NULs is the text of a line. */
  lemma EveryTextIsALine(s: string) returns (ln: Line)
    requires NUL !in s
    ensures LineOk(ln) && Render(ln) == s
  {
    WhiteIsBlank(s, 0);
    SkipTwice(s, 0);
    var i := SkipWhite(s, 0);
    ln := Line(s[..i], [], []);
    assert s[0..i] == s[..i];
    while i < |s|
      invariant ReadTo(s, i, ln)
      decreases |s| - i
    {
      hide ReadTo;
      i, ln := ReadOn(s, i, ln);
    }
    assert s[..i] == s;
  }
}
