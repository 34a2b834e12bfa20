/** Sequence vocabulary shared by the proofs. */
module Sequences {

  function Last<T>(s: seq<T>): T
    requires s != []
  {
    s[|s| - 1]
  }

  function Front<T>(s: seq<T>): seq<T>
    requires s != []
  {
    s[..|s| - 1]
  }

  function Flatten<T>(rs: seq<seq<T>>): seq<T> {
    if rs == [] then [] else Flatten(Front(rs)) + Last(rs)
  }

  /** The index of the first element that meets the condition, or the length. */
  function FirstWhere<T>(s: seq<T>, condition: T -> bool): (k: nat)
    ensures k <= |s|
    ensures forall j :: 0 <= j < k ==> !condition(s[j])
    ensures k < |s| ==> condition(s[k])
  {
    if s == [] || condition(s[0]) then 0 else 1 + FirstWhere(s[1..], condition)
  }

  predicate Any<T>(s: seq<T>, condition: T -> bool) {
    exists i :: 0 <= i < |s| && condition(s[i])
  }

  lemma AnyTake<T>(s: seq<T>, i: nat, condition: T -> bool)
    requires i < |s|
    ensures Any(s[..i + 1], condition) <==> Any(s[..i], condition) || condition(s[i])
  {
    var shorter, longer := s[..i], s[..i + 1];
    assert longer[i] == s[i] && forall j :: 0 <= j < i ==> shorter[j] == longer[j];
  }

  lemma Associate<T>(a: seq<T>, b: seq<T>, c: seq<T>)
    ensures (a + b) + c == a + (b + c)
  {
  }

  lemma Split<T>(s: seq<T>, n: nat)
    requires n <= |s|
    ensures s == s[..n] + s[n..]
  {
  }

  lemma UnconsAppend<T>(s: seq<T>, t: seq<T>)
    requires s != []
    ensures [s[0]] + (s[1..] + t) == s + t
  {
  }

  /** Moving one element over from what is still to come to what is done. */
  lemma Shift<T>(all: seq<T>, done: seq<T>, x: T, more: seq<T>, rest: seq<T>)
    requires all == done + more && more == [x] + rest
    ensures all == (done + [x]) + rest
  {
  }

  lemma Peel<T>(s: seq<T>, i: nat)
    requires i < |s|
    ensures s[i..] == [s[i]] + s[i + 1..]
  {
  }

  lemma PeelSlice<T>(s: seq<T>, i: nat, k: nat)
    requires i < k <= |s|
    ensures s[i..k] == [s[i]] + s[i + 1..k]
  {
  }

  lemma SliceOfAppend<T>(a: seq<T>, b: seq<T>, n: nat, m: nat)
    requires |a| == n && |b| == m
    ensures (a + b)[..n] == a && (a + b)[n..n + m] == b
  {
  }

  lemma FourParts<T>(a: seq<T>, b: seq<T>, c: seq<T>, d: seq<T>, i: nat, j: nat, k: nat)
    requires |a| == i && |a| + |b| == j && |a| + |b| + |c| == k
    ensures var s := a + b + c + d; s[..i] == a && s[i..j] == b && s[j..k] == c && s[k..] == d
  {
  }

  lemma Snoc<T>(s: seq<T>)
    requires s != []
    ensures s == Front(s) + [Last(s)]
  {
  }

  lemma FrontOfAppend<T>(a: seq<T>, b: seq<T>)
    requires b != []
    ensures Front(a + b) == a + Front(b) && Last(a + b) == Last(b)
  {
  }

  lemma FrontOfSnoc<T>(s: seq<T>, x: T)
    ensures Front(s + [x]) == s && Last(s + [x]) == x
  {
  }

  lemma AppendNothing<T>(s: seq<T>)
    ensures s + [] == s && [] + s == s
  {
  }

  lemma TailOfAppend<T>(a: seq<T>, b: seq<T>)
    requires a != []
    ensures (a + b)[1..] == a[1..] + b && (a + b)[0] == a[0]
  {
  }

  lemma SliceOfDrop<T>(s: seq<T>, i: nat, lo: nat, hi: nat)
    requires lo <= hi && i + hi <= |s|
    ensures s[i..][lo..hi] == s[i + lo..i + hi]
  {
  }
}
