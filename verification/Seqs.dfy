/** Facts about sequences that hold for any elements. */
module Seqs {

  lemma Assoc<T>(a: seq<T>, b: seq<T>, c: seq<T>)
    ensures a + (b + c) == a + b + c
  {
  }

  /** Taking n elements of s over to what is in front of it. */
  lemma Regroup<T>(front: seq<T>, s: seq<T>, n: nat, t: seq<T>)
    requires n <= |s|
    ensures front + (s + t) == front + s[..n] + (s[n..] + t)
  {
  }

  lemma Tail<T>(x: T, s: seq<T>)
    ensures ([x] + s)[0] == x && ([x] + s)[1..] == s
  {
  }

  lemma TakeNext<T>(s: seq<T>, i: nat)
    requires i < |s|
    ensures s[..i] + [s[i]] == s[..i + 1]
  {
  }

  ghost predicate NoRepeats<T>(s: seq<T>) {
    forall i, j :: 0 <= i < j < |s| ==> s[i] != s[j]
  }
}
