/**
  The two library steps the tree-variant builder finishes with: sorting a
  vector of strings (`sort_unstable`) and removing consecutive repeats
  (`dedup`). The sort is written here as an insertion sort; for strings any
  correct sort yields the same sequence, since equal strings cannot be told
  apart.
 */
module Sorting {
  import opened LexOrder

  /** Inserts `x` into the ascending sequence `s`, before the first entry not below it. */
  function Insert(x: string, s: seq<string>): (r: seq<string>)
    requires Sorted(s)
    ensures Sorted(r)
    ensures multiset(r) == multiset(s) + multiset{x}
    ensures forall y :: y in r <==> y in s || y == x
    decreases |s|
  {
    if |s| == 0 then [x]
    else if !Below(s[0], x) then
      BelowTotal(s[0], x);
      assert forall j :: 0 <= j < |s| ==> NotAbove(x, s[j]) by {
        forall j | 0 <= j < |s| {
          NotAboveTransitive(x, s[0], s[j]);
        }
      }
      [x] + s
    else
      assert s == [s[0]] + s[1..];
      var rest := Insert(x, s[1..]);
      assert forall y :: y in rest ==> NotAbove(s[0], y);
      [s[0]] + rest
  }

  /** Ascending permutation of `s` (Rust's `sort_unstable` on strings). */
  function Sort(s: seq<string>): (r: seq<string>)
    ensures Sorted(r)
    ensures multiset(r) == multiset(s)
    ensures forall y :: y in r <==> y in s
    decreases |s|
  {
    if |s| == 0 then []
    else
      assert s == [s[0]] + s[1..];
      Insert(s[0], Sort(s[1..]))
  }

  /**
    Removes every entry equal to the one before it (Rust's `Vec::dedup`).
    On an ascending input the result is strictly ascending.
   */
  function Dedup(s: seq<string>): (r: seq<string>)
    ensures forall y :: y in r <==> y in s
    ensures forall i :: 0 <= i < |r| - 1 ==> r[i] != r[i + 1]
    ensures |r| <= |s|
    ensures |s| > 0 ==> |r| > 0 && r[0] == s[0]
    ensures Sorted(s) ==> StrictlySorted(r)
    decreases |s|
  {
    if |s| <= 1 then s
    else
      assert s == [s[0]] + s[1..];
      var rest := Dedup(s[1..]);
      if s[0] == s[1] then rest
      else
        assert Sorted(s) ==> forall y :: y in rest ==> Below(s[0], y) by {
          if Sorted(s) {
            forall y | y in rest
              ensures Below(s[0], y)
            {
              var j :| 1 <= j < |s| && s[j] == y;
              BelowNotAboveTransitive(s[0], s[1], y);
            }
          }
        }
        [s[0]] + rest
  }
}
