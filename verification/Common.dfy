/** What several modules share. */
module Common {

  datatype Option<T> = None | Some(value: T)

  ghost predicate Distinct(s: seq<nat>) {
    forall i, j :: 0 <= i < j < |s| ==> s[i] != s[j]
  }

  ghost function Indices(n: nat): (r: set<nat>)
    ensures |r| == n && forall i: nat :: i in r <==> i < n
  {
    if n == 0 then {} else Indices(n - 1) + {n - 1}
  }

  lemma SubsetSize(s: set<nat>, t: set<nat>)
    requires s <= t
    ensures |s| <= |t|
  {
    assert t == s + (t - s);
  }

  lemma {:induction false} DistinctBound(s: seq<nat>, t: set<nat>)
    requires Distinct(s) && forall x :: x in s ==> x in t
    ensures |s| <= |t|
  {
    if s == [] {
    } else {
      var n := |s| - 1;
      forall x | x in s[..n] ensures x in t - {s[n]} {
        assert x in s;
        var i :| 0 <= i < n && s[..n][i] == x;
        assert s[i] != s[n];
      }
      DistinctBound(s[..n], t - {s[n]});
    }
  }
}
