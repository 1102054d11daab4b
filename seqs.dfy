// Facts about sequences that the walk and loop proofs use: associativity in
// one explicit step, duplicate-freedom of a concatenation, and subsequences.

module Seqs {

  lemma ConcatAssoc<T>(a: seq<T>, b: seq<T>, c: seq<T>)
    ensures (a + b) + c == a + (b + c)
  {
  }

  /** No element occurs twice. */
  predicate NoDuplicates<T(==)>(s: seq<T>)
  {
    forall i, j | 0 <= i < j < |s| :: s[i] != s[j]
  }

  /** Two duplicate-free sequences with no common element concatenate to one. */
  lemma NoDuplicatesAppend<T>(a: seq<T>, b: seq<T>)
    requires NoDuplicates(a) && NoDuplicates(b)
    requires forall x | x in a :: x !in b
    ensures NoDuplicates(a + b)
  {
    forall i, j | 0 <= i < j < |a + b|
      ensures (a + b)[i] != (a + b)[j]
    {
      if i < |a| && |a| <= j {
        assert (a + b)[i] == a[i] && a[i] in a;
        assert (a + b)[j] == b[j - |a|] && b[j - |a|] in b;
      }
    }
  }

  /** The elements of b whose flag in keep is set, in order. */
  function Select<T>(b: seq<T>, keep: seq<bool>): (r: seq<T>)
    requires |keep| == |b|
    ensures |r| <= |b|
  {
    if b == [] then [] else (if keep[0] then [b[0]] else []) + Select(b[1..], keep[1..])
  }

  /** a is b with some elements deleted: the rest keep their order and multiplicity. */
  ghost predicate IsSubsequence<T>(a: seq<T>, b: seq<T>)
  {
    exists keep: seq<bool> | |keep| == |b| :: a == Select(b, keep)
  }

  lemma {:induction false} SelectAppend<T>(b1: seq<T>, k1: seq<bool>, b2: seq<T>, k2: seq<bool>)
    requires |k1| == |b1| && |k2| == |b2|
    ensures Select(b1 + b2, k1 + k2) == Select(b1, k1) + Select(b2, k2)
    decreases |b1|
  {
    if b1 == [] {
      assert b1 + b2 == b2 && k1 + k2 == k2;
    } else {
      assert (b1 + b2)[1..] == b1[1..] + b2 && (k1 + k2)[1..] == k1[1..] + k2;
      SelectAppend(b1[1..], k1[1..], b2, k2);
      ConcatAssoc(if k1[0] then [b1[0]] else [], Select(b1[1..], k1[1..]), Select(b2, k2));
    }
  }

  /** Keeping nothing selects nothing. */
  lemma {:induction false} SelectNone<T>(b: seq<T>)
    ensures Select(b, seq(|b|, _ => false)) == []
    decreases |b|
  {
    if b != [] {
      assert seq(|b|, _ => false)[1..] == seq(|b| - 1, _ => false);
      SelectNone(b[1..]);
    }
  }

  /** Keeping everything selects everything. */
  lemma {:induction false} SelectAll<T>(b: seq<T>)
    ensures Select(b, seq(|b|, _ => true)) == b
    decreases |b|
  {
    if b != [] {
      assert seq(|b|, _ => true)[1..] == seq(|b| - 1, _ => true);
      SelectAll(b[1..]);
    }
  }

  lemma SubsequenceEmpty<T>(b: seq<T>)
    ensures IsSubsequence([], b)
  {
    SelectNone(b);
  }

  lemma SubsequenceRefl<T>(b: seq<T>)
    ensures IsSubsequence(b, b)
  {
    SelectAll(b);
  }

  /** Subsequences of consecutive parts concatenate to a subsequence of the whole. */
  lemma SubsequenceAppend<T>(a1: seq<T>, b1: seq<T>, a2: seq<T>, b2: seq<T>)
    requires IsSubsequence(a1, b1) && IsSubsequence(a2, b2)
    ensures IsSubsequence(a1 + a2, b1 + b2)
  {
    var k1: seq<bool> :| |k1| == |b1| && a1 == Select(b1, k1);
    var k2: seq<bool> :| |k2| == |b2| && a2 == Select(b2, k2);
    SelectAppend(b1, k1, b2, k2);
    assert |k1 + k2| == |b1 + b2|;
  }
}
