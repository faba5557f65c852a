/**
  Order-preserving subsequences: `a` is obtained from `b` by deleting some
  entries and keeping the rest in their original order.
 */
module Subsequences {

  /**
    Decided by greedy matching: the first entry of `a` is matched with its
    earliest occurrence in `b`. Matching earliest never loses a match that a
    later occurrence would allow, so this is exactly the subsequence relation.
   */
  ghost predicate IsSubseq<T>(a: seq<T>, b: seq<T>)
    decreases |b|
  {
    if |a| == 0 then true
    else if |b| == 0 then false
    else if a[0] == b[0] then IsSubseq(a[1..], b[1..])
    else IsSubseq(a, b[1..])
  }

  /** A subsequence holds nothing its super-sequence does not. */
  lemma {:induction false} SubseqElements<T>(a: seq<T>, b: seq<T>)
    requires IsSubseq(a, b)
    ensures forall x :: x in a ==> x in b
    decreases |b|
  {
    if |a| > 0 {
      if a[0] == b[0] {
        SubseqElements(a[1..], b[1..]);
        assert a == [a[0]] + a[1..];
      } else {
        SubseqElements(a, b[1..]);
      }
    }
  }

  /** Putting an entry in front of the super-sequence keeps the subsequence. */
  lemma {:induction false} SubseqCons<T>(a: seq<T>, b: seq<T>, x: T)
    requires IsSubseq(a, b)
    ensures IsSubseq(a, [x] + b)
    decreases |b|, 1
  {
    assert ([x] + b)[1..] == b;
    if |a| > 0 && a[0] == x {
      SubseqDropFirst(a, b);
    }
  }

  /** Dropping the first entry of a subsequence keeps it a subsequence. */
  lemma {:induction false} SubseqDropFirst<T>(a: seq<T>, b: seq<T>)
    requires IsSubseq(a, b) && |a| > 0
    ensures IsSubseq(a[1..], b)
    decreases |b|, 0
  {
    assert b == [b[0]] + b[1..];
    if a[0] == b[0] {
      SubseqCons(a[1..], b[1..], b[0]);
    } else {
      SubseqDropFirst(a, b[1..]);
      SubseqCons(a[1..], b[1..], b[0]);
    }
  }
}
