/**
  Topic names and their ancestor paths.

  A topic is a string in which `/` separates nesting levels. Its ancestor
  paths (parents) are the topic cut off just before each of its separators,
  listed root-first. The helper that computes them in the repository,
  `get_all_parents` in src/topic.rs, is not part of this model; `Parents`
  below fixes its behaviour on every string, including the edge cases the
  repository's tests leave open:
    - the empty topic has no parents;
    - a leading separator yields the empty string as a parent (`"/a"` has
      parent `""`);
    - a trailing separator yields the topic without it (`"a/"` has parent `"a"`);
    - a doubled separator yields a parent ending in a separator
      (`"a//b"` has parents `"a"` and `"a/"`).
  So a topic with n separators always has exactly n parents, and nothing
  is normalised or rejected.
 */
module Topic {
  import opened LexOrder

  const Separator: char := '/'

  /** `p` is `t` truncated just before one of `t`'s separators. */
  predicate IsParent(p: string, t: string) {
    |p| < |t| && t[..|p|] == p && t[|p|] == Separator
  }

  /** The ancestor paths of `t`, root-first; `t` itself is not among them. */
  function Parents(t: string): (r: seq<string>)
    ensures forall p :: p in r <==> IsParent(p, t)
    ensures forall i, j :: 0 <= i < j < |r| ==> |r[i]| < |r[j]|
    decreases |t|
  {
    if |t| == 0 then []
    else
      var n := |t| - 1;
      assert t == t[..n] + [t[n]];
      var init := Parents(t[..n]);
      assert forall p :: IsParent(p, t) <==> IsParent(p, t[..n]) || (p == t[..n] && t[n] == Separator) by {
        forall p
          ensures IsParent(p, t) <==> IsParent(p, t[..n]) || (p == t[..n] && t[n] == Separator)
        {
          if |p| < n {
            assert t[..n][..|p|] == t[..|p|];
          }
        }
      }
      assert forall i :: 0 <= i < |init| ==> |init[i]| < n by {
        forall i | 0 <= i < |init|
          ensures |init[i]| < n
        {
          assert init[i] in init;
        }
      }
      if t[n] == Separator then init + [t[..n]] else init
  }

  /** Appending one character adds a parent exactly when that character is a separator. */
  lemma ParentsSnoc(t: string, c: char)
    ensures Parents(t + [c]) == if c == Separator then Parents(t) + [t] else Parents(t)
  {
    assert (t + [c])[..|t|] == t;
  }

  /** A topic with n separators has exactly n parents. */
  lemma {:induction false} ParentsCount(t: string)
    ensures |Parents(t)| == multiset(t)[Separator]
    decreases |t|
  {
    if |t| > 0 {
      var n := |t| - 1;
      assert t == t[..n] + [t[n]];
      ParentsSnoc(t[..n], t[n]);
      ParentsCount(t[..n]);
    }
  }

  /** Appending a segment below `t` adds `t` itself as the last, deepest parent. */
  lemma {:induction false} ParentsAddSegment(t: string, segment: string)
    requires Separator !in segment
    ensures Parents(t + [Separator] + segment) == Parents(t) + [t]
    decreases |segment|
  {
    if |segment| == 0 {
      assert t + [Separator] + segment == t + [Separator];
      ParentsSnoc(t, Separator);
    } else {
      var n := |segment| - 1;
      assert t + [Separator] + segment == (t + [Separator] + segment[..n]) + [segment[n]];
      assert segment[n] in segment;
      ParentsSnoc(t + [Separator] + segment[..n], segment[n]);
      ParentsAddSegment(t, segment[..n]);
    }
  }

  /** A topic without separators is a root-level node: it has no parents. */
  lemma RootLevelIffNoSeparator(t: string)
    ensures Parents(t) == [] <==> Separator !in t
  {
    if Separator in t {
      var i :| 0 <= i < |t| && t[i] == Separator;
      assert IsParent(t[..i], t);
    }
    if Parents(t) != [] {
      assert IsParent(Parents(t)[0], t);
    }
  }

  /** The parents of a parent of `t` are parents of `t` themselves. */
  lemma ParentTransitive(p: string, q: string, t: string)
    requires IsParent(p, q) && IsParent(q, t)
    ensures IsParent(p, t)
  {
    assert t[..|q|][..|p|] == t[..|p|];
  }

  /** Every parent of `t` sorts strictly before `t`. */
  lemma ParentBelow(p: string, t: string)
    requires IsParent(p, t)
    ensures Below(p, t)
  {
    ProperPrefixBelow(p, t);
  }

  /** The empty topic has no parents; a leading separator yields the empty parent. */
  lemma ParentsLeadingSeparator()
    ensures Parents("") == []
    ensures Parents("/") == [""]
    ensures Parents("/a") == [""]
  {
    assert "/" == "" + ['/'];
    ParentsSnoc("", '/');
    assert "/a" == "/" + ['a'];
    ParentsSnoc("/", 'a');
  }

  /** A trailing or doubled separator yields a parent ending where that separator starts. */
  lemma ParentsTrailingSeparator()
    ensures Parents("a/") == ["a"]
    ensures Parents("a//b") == ["a", "a/"]
  {
    assert Parents("a/") == ["a"] by {
      ParentsOfRootLevel();
      assert "a/" == "a" + ['/'];
      ParentsSnoc("a", '/');
    }
    assert Parents("a//") == ["a", "a/"] by {
      assert "a//" == "a/" + ['/'];
      ParentsSnoc("a/", '/');
    }
    assert "a//b" == "a//" + ['b'];
    ParentsSnoc("a//", 'b');
  }

  /** A root-level topic has no parents. */
  lemma ParentsOfRootLevel()
    ensures Parents("a") == []
  {
    assert "a" == "" + ['a'];
    ParentsSnoc("", 'a');
  }

  lemma ParentsOfTwoLevels()
    ensures Parents("foo/bar") == ["foo"]
  {
    RootLevelIffNoSeparator("foo");
    assert "foo/" == "foo" + ['/'];
    ParentsSnoc("foo", '/');
    assert "foo/b" == "foo/" + ['b'];
    ParentsSnoc("foo/", 'b');
    assert "foo/ba" == "foo/b" + ['a'];
    ParentsSnoc("foo/b", 'a');
    assert "foo/bar" == "foo/ba" + ['r'];
    ParentsSnoc("foo/ba", 'r');
  }

  lemma ParentsOfThreeLevels()
    ensures Parents("a/b/c") == ["a", "a/b"]
  {
    ParentsOfRootLevel();
    assert "a/" == "a" + ['/'];
    ParentsSnoc("a", '/');
    assert "a/b" == "a/" + ['b'];
    ParentsSnoc("a/", 'b');
    assert "a/b/" == "a/b" + ['/'];
    ParentsSnoc("a/b", '/');
    assert "a/b/c" == "a/b/" + ['c'];
    ParentsSnoc("a/b/", 'c');
  }
}
