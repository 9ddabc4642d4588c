/** Facts about sequences that several components use. */
module Sequences {

  function Sum(s: seq<nat>): nat {
    if s == [] then 0 else Sum(s[..|s| - 1]) + s[|s| - 1]
  }

  lemma {:induction false} SumConcat(a: seq<nat>, b: seq<nat>)
    ensures Sum(a + b) == Sum(a) + Sum(b)
  {
    if b == [] {
      assert a + b == a;
    } else {
      assert (a + b)[..|a + b| - 1] == a + b[..|b| - 1];
      SumConcat(a, b[..|b| - 1]);
    }
  }

  lemma SumAppend(a: seq<nat>, n: nat)
    ensures Sum(a + [n]) == Sum(a) + n
  {
    assert (a + [n])[..|a|] == a;
  }

  lemma SumPrefix(s: seq<nat>, k: nat)
    requires k < |s|
    ensures Sum(s[..k + 1]) == Sum(s[..k]) + s[k]
  {
    assert s[..k + 1] == s[..k] + [s[k]];
    SumAppend(s[..k], s[k]);
  }

  lemma SumCons(n: nat, b: seq<nat>)
    ensures Sum([n] + b) == n + Sum(b)
  {
    SumConcat([n], b);
    SumAppend([], n);
    assert [] + [n] == [n];
  }

  /** Behind a prefix with the whole sum there is nothing but zeroes. */
  lemma {:induction false} NothingBehind(s: seq<nat>, n: nat)
    requires n <= |s| && Sum(s[..n]) == Sum(s)
    ensures forall k :: n <= k < |s| ==> s[k] == 0
  {
    if n < |s| {
      var m := |s| - 1;
      assert s[..m][..n] == s[..n];
      SumConcat(s[..n], s[n..m]);
      assert s[..n] + s[n..m] == s[..m];
      NothingBehind(s[..m], n);
    }
  }

  lemma SliceOfSlice<T>(L: seq<T>, a: nat, b: nat, c: nat, d: nat)
    requires a <= b <= |L| && c <= d <= b - a
    ensures L[a..b][c..d] == L[a + c..a + d]
  {
    var X, Y := L[a..b][c..d], L[a + c..a + d];
    forall i | 0 <= i < |X| ensures X[i] == Y[i] {
      assert X[i] == L[a..b][c + i];
    }
  }

  lemma SliceJoin<T>(L: seq<T>, a: nat, b: nat, c: nat)
    requires a <= b <= c <= |L|
    ensures L[a..b] + L[b..c] == L[a..c]
  {}

  function Repeat<T>(x: T, n: nat): (s: seq<T>)
    ensures |s| == n && forall i :: 0 <= i < n ==> s[i] == x
  {
    if n == 0 then [] else Repeat(x, n - 1) + [x]
  }
}
