/**
  Lexicographic order on strings, as Rust's `Ord` for `str` defines it.

  Rust compares `str` values byte by byte over their UTF-8 encoding. UTF-8
  preserves code point order, so comparing the code points one by one (which
  is what Dafny's `<` on `char` does) gives the same order. A proper prefix
  sorts before every longer string that extends it.
 */
module LexOrder {

  /** Strict lexicographic order: `a` sorts strictly before `b`. */
  predicate Below(a: string, b: string)
    decreases |a|
  {
    if |b| == 0 then false
    else if |a| == 0 then true
    else if a[0] != b[0] then a[0] < b[0]
    else Below(a[1..], b[1..])
  }

  /** Non-strict order: `a` sorts before or is equal to `b`. */
  predicate NotAbove(a: string, b: string) {
    a == b || Below(a, b)
  }

  /** Ascending order, repetitions allowed (the state after a sort). */
  predicate Sorted(s: seq<string>) {
    forall i, j :: 0 <= i < j < |s| ==> NotAbove(s[i], s[j])
  }

  /** Strictly ascending order: sorted and without repetitions. */
  predicate StrictlySorted(s: seq<string>) {
    forall i, j :: 0 <= i < j < |s| ==> Below(s[i], s[j])
  }

  lemma {:induction false} BelowIrreflexive(a: string)
    ensures !Below(a, a)
    decreases |a|
  {
    if |a| > 0 {
      BelowIrreflexive(a[1..]);
    }
  }

  lemma {:induction false} BelowAsymmetric(a: string, b: string)
    ensures Below(a, b) ==> !Below(b, a)
    decreases |a|
  {
    if |a| > 0 && |b| > 0 && a[0] == b[0] {
      BelowAsymmetric(a[1..], b[1..]);
    }
  }

  lemma {:induction false} BelowTransitive(a: string, b: string, c: string)
    ensures Below(a, b) && Below(b, c) ==> Below(a, c)
    decreases |a|
  {
    if |a| > 0 && |b| > 0 && |c| > 0 && a[0] == b[0] && b[0] == c[0] {
      BelowTransitive(a[1..], b[1..], c[1..]);
    }
  }

  /** Any two distinct strings are ordered one way or the other. */
  lemma {:induction false} BelowTotal(a: string, b: string)
    ensures a == b || Below(a, b) || Below(b, a)
    decreases |a|
  {
    if |a| > 0 && |b| > 0 && a[0] == b[0] {
      BelowTotal(a[1..], b[1..]);
      if a[1..] == b[1..] {
        assert a == [a[0]] + a[1..] && b == [b[0]] + b[1..];
      }
    }
  }

  /** A proper prefix sorts strictly before the string it is a prefix of. */
  lemma {:induction false} ProperPrefixBelow(p: string, s: string)
    requires |p| < |s| && s[..|p|] == p
    ensures Below(p, s)
    decreases |p|
  {
    if |p| > 0 {
      assert p[0] == s[0];
      assert s[1..][..|p[1..]|] == p[1..];
      ProperPrefixBelow(p[1..], s[1..]);
    }
  }

  lemma NotAboveTransitive(a: string, b: string, c: string)
    ensures NotAbove(a, b) && NotAbove(b, c) ==> NotAbove(a, c)
  {
    BelowTransitive(a, b, c);
  }

  lemma BelowNotAboveTransitive(a: string, b: string, c: string)
    ensures Below(a, b) && NotAbove(b, c) ==> Below(a, c)
  {
    BelowTransitive(a, b, c);
  }

  /** Prefixing a strictly ascending sequence with a string below all of its entries. */
  lemma StrictlySortedCons(x: string, s: seq<string>)
    requires StrictlySorted(s)
    requires forall y :: y in s ==> Below(x, y)
    ensures StrictlySorted([x] + s)
  {
    forall i, j | 0 <= i < j < |[x] + s|
      ensures Below(([x] + s)[i], ([x] + s)[j])
    {
      if i == 0 {
        assert ([x] + s)[j] == s[j - 1];
        assert s[j - 1] in s;
      }
    }
  }

  /** Strict order between neighbours extends to strict order between all pairs. */
  lemma {:induction false} StrictlySortedFromNeighbours(s: seq<string>)
    requires forall i :: 0 <= i < |s| - 1 ==> Below(s[i], s[i + 1])
    ensures StrictlySorted(s)
    decreases |s|
  {
    if |s| > 1 {
      StrictlySortedFromNeighbours(s[1..]);
      forall y | y in s[1..]
        ensures Below(s[0], y)
      {
        var j :| 0 <= j < |s[1..]| && s[1..][j] == y;
        if j > 0 {
          BelowTransitive(s[0], s[1], y);
        }
      }
      StrictlySortedCons(s[0], s[1..]);
      assert s == [s[0]] + s[1..];
    }
  }

  /** In a strictly ascending sequence, an entry below the one at `i` sits before `i`. */
  lemma StrictlySortedEarlier(s: seq<string>, i: int, x: string)
    requires StrictlySorted(s)
    requires 0 <= i < |s| && x in s && Below(x, s[i])
    ensures exists j :: 0 <= j < i && s[j] == x
  {
    var j :| 0 <= j < |s| && s[j] == x;
    if j >= i {
      BelowIrreflexive(x);
      BelowAsymmetric(x, s[i]);
      assert false;
    }
  }

  /**
    A strictly ascending sequence is determined by its elements: two of them
    holding the same strings are equal. This is why every correct sort
    followed by removal of repeats gives one and the same result.
   */
  lemma {:induction false} StrictlySortedUnique(a: seq<string>, b: seq<string>)
    requires StrictlySorted(a) && StrictlySorted(b)
    requires forall x :: x in a <==> x in b
    ensures a == b
    decreases |a|
  {
    assert |a| == 0 <==> |b| == 0 by {
      if |a| > 0 { assert a[0] in a; }
      if |b| > 0 { assert b[0] in b; }
    }
    if |a| > 0 {
      assert a[0] in b;
      assert b[0] in a;
      if a[0] != b[0] {
        var i :| 0 <= i < |a| && a[i] == b[0];
        var j :| 0 <= j < |b| && b[j] == a[0];
        assert i > 0 && j > 0;
        assert Below(a[0], b[0]) && Below(b[0], a[0]);
        BelowAsymmetric(a[0], b[0]);
        assert false;
      }
      forall x
        ensures x in a[1..] <==> x in b[1..]
      {
        if x in a[1..] {
          var i :| 1 <= i < |a| && a[i] == x;
          BelowIrreflexive(x);
          assert x in b;
          assert x != b[0];
        }
        if x in b[1..] {
          var j :| 1 <= j < |b| && b[j] == x;
          BelowIrreflexive(x);
          assert x in a;
          assert x != a[0];
        }
      }
      StrictlySortedUnique(a[1..], b[1..]);
      assert a == [a[0]] + a[1..] && b == [b[0]] + b[1..];
    }
  }
}
