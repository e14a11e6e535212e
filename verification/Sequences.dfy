/** Putting something into a sequence and taking something out, which most lists here come down to. */
module Sequences {

  ghost predicate Distinct<T>(s: seq<T>) {
    forall i, j | 0 <= i < j < |s| :: s[i] != s[j]
  }

  /** The sequence after `x` is put at position `p`. */
  ghost function Put<T>(s: seq<T>, p: nat, x: T): (r: seq<T>)
    requires p <= |s|
    ensures |r| == |s| + 1
  {
    s[..p] + [x] + s[p..]
  }

  /** The sequence after position `p` is taken out. */
  ghost function Take<T>(s: seq<T>, p: nat): (r: seq<T>)
    requires p < |s|
    ensures |r| == |s| - 1
  {
    s[..p] + s[p + 1..]
  }

  /** Where old position `k` is after an insertion at `p`. */
  function Shift(p: nat, k: nat): nat {
    if k < p then k else k + 1
  }

  lemma PutIndex<T>(s: seq<T>, p: nat, x: T)
    requires p <= |s|
    ensures Put(s, p, x)[p] == x
    ensures forall m | 0 <= m < |s| :: Put(s, p, x)[Shift(p, m)] == s[m]
    ensures forall m | 0 <= m <= |s| && m != p :: Put(s, p, x)[m] == s[if m < p then m else m - 1]
  {
  }

  lemma PutKeeps<T>(s: seq<T>, p: nat, x: T, m: nat)
    requires p <= |s| && m <= |s|
    ensures Put(s, p, x)[p] == x
    ensures m < |s| ==> Put(s, p, x)[Shift(p, m)] == s[m]
  {
  }

  lemma PutAt<T>(s: seq<T>, p: nat, x: T, a: nat)
    requires p <= |s| && a <= |s|
    ensures Put(s, p, x)[a] == if a == p then x else s[if a < p then a else a - 1]
  {
  }

  lemma TakeAt<T>(s: seq<T>, p: nat, a: nat)
    requires p < |s| && a + 1 < |s|
    ensures Take(s, p)[a] == s[if a < p then a else a + 1]
  {
  }

  lemma PutMembers<T>(s: seq<T>, p: nat, x: T)
    requires p <= |s|
    ensures forall y | y in Put(s, p, x) :: y in s || y == x
  {
  }

  lemma TakeMembers<T>(s: seq<T>, p: nat)
    requires p < |s|
    ensures forall y | y in Take(s, p) :: y in s
  {
  }

  lemma PutMultiset<T>(s: seq<T>, p: nat, x: T)
    requires p <= |s|
    ensures multiset(Put(s, p, x)) == multiset(s) + multiset{x}
  {
    assert s == s[..p] + s[p..];
  }

  lemma TakePut<T>(s: seq<T>, p: nat)
    requires p < |s|
    ensures Put(Take(s, p), p, s[p]) == s
  {
  }
}
