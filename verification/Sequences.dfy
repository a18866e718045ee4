/** Regrouping of concatenations, stated once so that proofs need not search for it. */
module Sequences {
  lemma Assoc<T>(a: seq<T>, b: seq<T>, c: seq<T>)
    ensures (a + b) + c == a + (b + c)
  {
  }

  lemma Assoc4<T>(a: seq<T>, b: seq<T>, c: seq<T>, d: seq<T>)
    ensures (a + b) + c + d == a + (b + c + d)
  {
  }

  lemma DropPrefix<T>(a: seq<T>, b: seq<T>)
    ensures (a + b)[|a|..] == b && (a + b)[..|a|] == a
  {
  }

  lemma DropMore<T>(s: seq<T>, i: nat, j: nat)
    requires i <= j <= |s|
    ensures s[i..][j - i..] == s[j..]
  {
  }

  lemma Nest<T>(a: seq<T>, b: seq<T>, c: seq<T>, d: seq<T>, e: seq<T>)
    ensures (a + (b + c) + d) + e == a + (b + (c + d + e))
  {
  }
}
