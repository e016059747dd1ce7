/** Facts about sequences that the proofs name where they use them. */
module Sequences {
  lemma Associative<A>(a: seq<A>, b: seq<A>, c: seq<A>)
    ensures a + (b + c) == (a + b) + c
  {
  }

  lemma Nothing<A>(a: seq<A>)
    ensures a + [] == a && [] + a == a
  {
  }

  lemma SubSlice<A>(s: seq<A>, i: nat, j: nat, k: nat, l: nat)
    requires i <= j <= |s| && k <= l <= j - i
    ensures s[i..j][k..l] == s[i + k..i + l]
  {
    var a, b := s[i..j][k..l], s[i + k..i + l];
    assert |a| == |b| && forall x | 0 <= x < l - k :: a[x] == b[x];
  }

  lemma SliceAt<A>(s: seq<A>, i: nat, j: nat, k: nat)
    requires i <= j <= |s| && k < j - i
    ensures s[i..j][k] == s[i + k]
  {
  }

  lemma SplitAt<A>(s: seq<A>, i: nat, j: nat, k: nat)
    requires i <= j <= k <= |s|
    ensures s[i..k] == s[i..j] + s[j..k]
  {
  }

  lemma Ends<A>(s: seq<A>, i: nat)
    requires i <= |s|
    ensures s[..i] == s[0..i] && s[i..] == s[i..|s|]
  {
  }

  lemma TakeJoin<A>(a: seq<A>, b: seq<A>, n: nat)
    requires |a| <= n <= |a| + |b|
    ensures (a + b)[..n] == a + b[..n - |a|]
  {
  }

  lemma DropJoin<A>(a: seq<A>, b: seq<A>, n: nat)
    requires |a| <= n <= |a| + |b|
    ensures (a + b)[n..] == b[n - |a|..]
  {
  }

  lemma RestOfJoin<A>(a: seq<A>, b: seq<A>)
    requires a != []
    ensures (a + b)[0] == a[0] && (a + b)[1..] == a[1..] + b
  {
  }
}
