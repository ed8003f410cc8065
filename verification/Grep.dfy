/** The matcher of user/grep.c against the language its patterns denote. Strings are without
    their terminating NUL, so the end of a sequence plays its part. */
module Grep {

  /** A pattern item: one character, or any number of them; '.' stands for every character. */
  datatype Item = One(c: char) | Many(c: char)

  predicate Admits(c: char, x: char) {
    c == '.' || c == x
  }

  /** The items of a pattern. A `*` makes the character before it repeat; a final lone `$` is the
      end anchor and no item. */
  function Items(re: string): seq<Item> {
    if re == [] then []
    else if |re| >= 2 && re[1] == '*' then [Many(re[0])] + Items(re[2..])
    else if re == ['$'] then []
    else [One(re[0])] + Items(re[1..])
  }

  predicate Anchored(re: string) {
    if re == [] then false
    else if |re| >= 2 && re[1] == '*' then Anchored(re[2..])
    else if re == ['$'] then true
    else Anchored(re[1..])
  }

  // ---- The language ----

  ghost predicate PieceOk(item: Item, piece: string) {
    match item
    case One(c) => |piece| == 1 && Admits(c, piece[0])
    case Many(c) => forall i :: 0 <= i < |piece| ==> Admits(c, piece[i])
  }

  function Flatten(ps: seq<string>): string {
    if ps == [] then [] else ps[0] + Flatten(ps[1..])
  }

  ghost predicate Fits(items: seq<Item>, ps: seq<string>) {
    |ps| == |items| && forall i :: 0 <= i < |items| ==> PieceOk(items[i], ps[i])
  }

  /** A string belongs to a list of items when it cuts into one matching piece for each. */
  ghost predicate InLanguage(items: seq<Item>, s: string) {
    exists ps :: Fits(items, ps) && Flatten(ps) == s
  }

  /** The pattern matches a prefix of the text; all of it if the pattern is anchored. */
  ghost predicate MatchesAtStart(re: string, text: string) {
    exists j :: 0 <= j <= |text| && InLanguage(Items(re), text[..j]) && (Anchored(re) ==> j == |text|)
  }

  /** The pattern matches somewhere in the text; at its start if it begins with `^`. */
  ghost predicate Matches(re: string, text: string) {
    if re != [] && re[0] == '^' then MatchesAtStart(re[1..], text)
    else exists i :: 0 <= i <= |text| && MatchesAtStart(re, text[i..])
  }

  // ---- Unfolding the language one item at a time ----

  lemma EmptyLanguage(s: string)
    ensures InLanguage([], s) <==> s == []
  {
    if s == [] {
      assert Fits([], []) && Flatten([]) == s;
    }
  }

  lemma ConsLanguage(item: Item, rest: seq<Item>, s: string)
    ensures InLanguage([item] + rest, s) <==>
              exists k :: 0 <= k <= |s| && PieceOk(item, s[..k]) && InLanguage(rest, s[k..])
  {
    var items := [item] + rest;
    if InLanguage(items, s) {
      var ps :| Fits(items, ps) && Flatten(ps) == s;
      var k := |ps[0]|;
      assert Fits(rest, ps[1..]) by {
        assert forall i :: 0 <= i < |rest| ==> items[i + 1] == rest[i];
      }
      assert PieceOk(items[0], ps[0]);
      assert s[..k] == ps[0] && s[k..] == Flatten(ps[1..]);
    }
    if k :| 0 <= k <= |s| && PieceOk(item, s[..k]) && InLanguage(rest, s[k..]) {
      var qs :| Fits(rest, qs) && Flatten(qs) == s[k..];
      var ps := [s[..k]] + qs;
      assert ps[1..] == qs;
      assert Fits(items, ps);
      assert Flatten(ps) == s[..k] + s[k..] == s;
    }
  }

  lemma OneAtStart(re: string, text: string)
    requires re != [] && !(|re| >= 2 && re[1] == '*') && re != ['$']
    ensures MatchesAtStart(re, text) <==> text != [] && Admits(re[0], text[0]) && MatchesAtStart(re[1..], text[1..])
  {
    if MatchesAtStart(re, text) {
      var j :| 0 <= j <= |text| && InLanguage(Items(re), text[..j]) && (Anchored(re) ==> j == |text|);
      ConsLanguage(One(re[0]), Items(re[1..]), text[..j]);
      var k :| 0 <= k <= j && PieceOk(One(re[0]), text[..j][..k]) && InLanguage(Items(re[1..]), text[..j][k..]);
      assert text[..j][1..] == text[1..][..j - 1];
    }
    if text != [] && Admits(re[0], text[0]) && MatchesAtStart(re[1..], text[1..]) {
      var j :| 0 <= j <= |text[1..]| && InLanguage(Items(re[1..]), text[1..][..j]) &&
               (Anchored(re[1..]) ==> j == |text[1..]|);
      var s := text[..j + 1];
      assert s[1..] == text[1..][..j] && PieceOk(One(re[0]), s[..1]);
      ConsLanguage(One(re[0]), Items(re[1..]), s);
    }
  }

  /** Choosing how far the star reaches is choosing where the rest of the pattern starts. */
  lemma ManyAtStart(re: string, text: string)
    requires |re| >= 2 && re[1] == '*'
    ensures MatchesAtStart(re, text) <==>
              exists k :: 0 <= k <= |text| && PieceOk(Many(re[0]), text[..k]) && MatchesAtStart(re[2..], text[k..])
  {
    if MatchesAtStart(re, text) {
      var j :| 0 <= j <= |text| && InLanguage(Items(re), text[..j]) && (Anchored(re) ==> j == |text|);
      ConsLanguage(Many(re[0]), Items(re[2..]), text[..j]);
      var k :| 0 <= k <= j && PieceOk(Many(re[0]), text[..j][..k]) && InLanguage(Items(re[2..]), text[..j][k..]);
      assert text[..j][k..] == text[k..][..j - k] && text[..j][..k] == text[..k];
      assert MatchesAtStart(re[2..], text[k..]);
    }
    if k :| 0 <= k <= |text| && PieceOk(Many(re[0]), text[..k]) && MatchesAtStart(re[2..], text[k..]) {
      var j :| 0 <= j <= |text[k..]| && InLanguage(Items(re[2..]), text[k..][..j]) &&
               (Anchored(re[2..]) ==> j == |text[k..]|);
      var s := text[..k + j];
      assert s[k..] == text[k..][..j] && s[..k] == text[..k];
      ConsLanguage(Many(re[0]), Items(re[2..]), s);
    }
  }

  lemma EndAtStart(text: string)
    ensures MatchesAtStart(['$'], text) <==> text == []
  {
    forall j | 0 <= j <= |text|
      ensures InLanguage(Items(['$']), text[..j]) <==> j == 0
    {
      EmptyLanguage(text[..j]);
    }
    assert InLanguage(Items(['$']), text[..0]) && Anchored(['$']);
  }

  lemma NothingAtStart(text: string)
    ensures MatchesAtStart([], text)
  {
    EmptyLanguage(text[..0]);
  }

  // ---- The code ----

  /** match: search the text for the pattern. */
  method Match(re: string, text: string) returns (b: bool)
    ensures b <==> Matches(re, text)
  {
    if re != [] && re[0] == '^' {
      b := MatchHere(re[1..], text);
      return;
    }
    var i := 0;
    while true
      invariant 0 <= i <= |text|
      invariant forall j :: 0 <= j < i ==> !MatchesAtStart(re, text[j..])
      decreases |text| - i
    {
      b := MatchHere(re, text[i..]);
      if b {
        return;
      }
      if i == |text| {
        return false;
      }
      i := i + 1;
    }
  }

  /** matchhere: search for the pattern at the beginning of the text. */
  method MatchHere(re: string, text: string) returns (b: bool)
    ensures b <==> MatchesAtStart(re, text)
    decreases |re|, 0
  {
    if re == [] {
      NothingAtStart(text);
      return true;
    }
    if |re| >= 2 && re[1] == '*' {
      ManyAtStart(re, text);
      b := MatchStar(re[0], re[2..], text);
      return;
    }
    if re[0] == '$' && |re| == 1 {
      EndAtStart(text);
      return text == [];
    }
    OneAtStart(re, text);
    if text != [] && (re[0] == '.' || re[0] == text[0]) {
      b := MatchHere(re[1..], text[1..]);
      return;
    }
    return false;
  }

  /** matchstar: search for c* followed by the pattern, shortest run of c first. */
  method MatchStar(c: char, re: string, text: string) returns (b: bool)
    ensures b <==> exists k :: 0 <= k <= |text| && PieceOk(Many(c), text[..k]) && MatchesAtStart(re, text[k..])
    decreases |re|, 1
  {
    var i := 0;
    while true
      invariant 0 <= i <= |text|
      invariant PieceOk(Many(c), text[..i])
      invariant forall k :: 0 <= k < i ==> !MatchesAtStart(re, text[k..])
      decreases |text| - i
    {
      b := MatchHere(re, text[i..]);
      if b {
        return;
      }
      if !(i < |text| && (text[i] == c || c == '.')) {
        assert forall k :: i < k <= |text| ==> text[..k][i] == text[i];
        return false;
      }
      i := i + 1;
    }
  }
}
