/** Regrouping of concatenations and slices of sequences, stated once so that larger proofs need not redo it. */
module Sequences {

  /** What is appended in two goes follows what came before it, however the parts are grouped. */
  lemma AppendAssoc<T>(a: seq<T>, b: seq<T>, c: seq<T>)
    ensures (a + b) + c == a + (b + c)
  {
  }

  /** Two more elements appended one at a time extend what came before by both. */
  lemma AppendTwo<T>(a: seq<T>, b: seq<T>, x: T, y: T)
    ensures ((a + b) + [x]) + [y] == a + (b + [x, y])
  {
  }

  /** A prefix of a prefix. */
  lemma TakeTake<T>(s: seq<T>, i: nat, n: nat)
    requires i <= n <= |s|
    ensures s[..n][..i] == s[..i] && (i < n ==> s[..n][i] == s[i])
  {
  }

  /** The prefix of full length is the whole sequence. */
  lemma TakeAll<T>(s: seq<T>)
    ensures s[..|s|] == s
  {
  }

  /** Dropping from a prefix gives a slice. */
  lemma TakeDrop<T>(s: seq<T>, i: nat, n: nat)
    requires i <= n <= |s|
    ensures s[..n][i..] == s[i..n]
  {
  }

  /** Dropping a prefix keeps the last element last. */
  lemma DropLast<T>(s: seq<T>, i: nat)
    requires i < |s|
    ensures s[i..] != [] && s[i..][..|s[i..]| - 1] == s[i..|s| - 1] && s[i..][|s[i..]| - 1] == s[|s| - 1]
  {
  }

  /** Four parts appended in any grouping. */
  lemma ConcatAssoc<T>(a: seq<T>, b: seq<T>, c: seq<T>, d: seq<T>)
    ensures (a + (b + c)) + d == a + (b + (c + d))
  {
  }
}
