/** Equalities of sequences that proofs in several modules name. Each is a lemma of its own, so that it is
    proved with no other terms in sight. */
module Sequences {

  lemma CutAt<T>(s: seq<T>, n: nat)
    requires n < |s|
    ensures s == s[..n] + ([s[n]] + s[n + 1..])
  {
  }

  /** Cutting twice: the part before `i`, `j` elements from there, and the rest. */
  lemma CutTwice<T>(s: seq<T>, i: nat, j: nat)
    requires i <= |s| && i + j <= |s|
    ensures s[..i] + s[i..][..j] + s[i..][j..] == s
  {
    assert s[i..][..j] + s[i..][j..] == s[i..];
  }

  /** Cutting inside the first of two sequences. */
  lemma CutFirst<T>(a: seq<T>, b: seq<T>, n: nat)
    requires n <= |a|
    ensures (a + b)[..n] == a[..n] && (a + b)[n..] == a[n..] + b
  {
  }

  lemma AfterPrefix<T>(s: seq<T>, prefix: seq<T>)
    requires prefix <= s
    ensures s == prefix + s[|prefix|..]
  {
  }

  lemma Associate<T>(a: seq<T>, b: seq<T>, c: seq<T>)
    ensures a + (b + c) == a + b + c
  {
  }

  lemma AssociateFour<T>(a: seq<T>, b: seq<T>, c: seq<T>, d: seq<T>)
    ensures a + (b + (c + d)) == a + (b + c) + d == a + b + c + d
  {
  }
}
