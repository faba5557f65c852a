/**
  The concrete cases the repository's unit tests pin down, proved about the
  model: four builder cases and four filter cases over a fixed ten-node tree.
 */
module TopicViewExamples {
  import opened LexOrder
  import opened Topic
  import opened TopicView
  import opened TopicViewProperties

  /** The fixed tree the filter tests run on, already built and sorted. */
  const AllExamples: seq<string> :=
    ["a", "a/b", "a/b/c", "a/d", "e", "e/f", "e/f/g", "e/f/g/h", "e/f/g/h/i", "e/j"]

  lemma AllExamplesStrictlySorted()
    ensures StrictlySorted(AllExamples)
  {
    var s := AllExamples;
    assert Below(s[0], s[1]) && Below(s[1], s[2]) && Below(s[2], s[3]);
    assert Below(s[3], s[4]) && Below(s[4], s[5]) && Below(s[5], s[6]);
    assert Below(s[6], s[7]) && Below(s[7], s[8]) && Below(s[8], s[9]);
    StrictlySortedFromNeighbours(s);
  }

  /** The fixture is the subtree under `a` followed by the subtree under `e`. */
  const UnderA: seq<string> := ["a", "a/b", "a/b/c", "a/d"]
  const UnderE: seq<string> := ["e", "e/f", "e/f/g", "e/f/g/h", "e/f/g/h/i", "e/j"]

  lemma AllExamplesSplit()
    ensures AllExamples == UnderA + UnderE
  {
  }

  // Which example nodes are visible, for any opened set.

  lemma VisibilityOfRoots(openedSet: set<string>)
    ensures IsTopicOpened(openedSet, "a") && IsTopicOpened(openedSet, "e")
  {
    RootLevelAlwaysVisible(openedSet, "a");
    RootLevelAlwaysVisible(openedSet, "e");
  }

  lemma VisibilityOfDepthOne(openedSet: set<string>)
    ensures IsTopicOpened(openedSet, "a/b") <==> "a" in openedSet
    ensures IsTopicOpened(openedSet, "a/d") <==> "a" in openedSet
    ensures IsTopicOpened(openedSet, "e/f") <==> "e" in openedSet
    ensures IsTopicOpened(openedSet, "e/j") <==> "e" in openedSet
  {
    VisibilityOfRoots(openedSet);
    assert "a/b" == "a" + [Separator] + "b";
    ChildVisibleIff(openedSet, "a", "b");
    assert "a/d" == "a" + [Separator] + "d";
    ChildVisibleIff(openedSet, "a", "d");
    assert "e/f" == "e" + [Separator] + "f";
    ChildVisibleIff(openedSet, "e", "f");
    assert "e/j" == "e" + [Separator] + "j";
    ChildVisibleIff(openedSet, "e", "j");
  }

  lemma VisibilityOfABC(openedSet: set<string>)
    ensures IsTopicOpened(openedSet, "a/b/c") <==> "a" in openedSet && "a/b" in openedSet
  {
    VisibilityOfDepthOne(openedSet);
    assert "a/b/c" == "a/b" + [Separator] + "c";
    ChildVisibleIff(openedSet, "a/b", "c");
  }

  lemma VisibilityOfEFG(openedSet: set<string>)
    ensures IsTopicOpened(openedSet, "e/f/g") <==> "e" in openedSet && "e/f" in openedSet
  {
    VisibilityOfDepthOne(openedSet);
    assert "e/f/g" == "e/f" + [Separator] + "g";
    ChildVisibleIff(openedSet, "e/f", "g");
  }

  lemma VisibilityOfEFGH(openedSet: set<string>)
    ensures IsTopicOpened(openedSet, "e/f/g/h")
        <==> "e" in openedSet && "e/f" in openedSet && "e/f/g" in openedSet
  {
    VisibilityOfEFG(openedSet);
    assert "e/f/g/h" == "e/f/g" + [Separator] + "h";
    ChildVisibleIff(openedSet, "e/f/g", "h");
  }

  lemma VisibilityOfEFGHI(openedSet: set<string>)
    ensures IsTopicOpened(openedSet, "e/f/g/h/i")
        <==> "e" in openedSet && "e/f" in openedSet && "e/f/g" in openedSet && "e/f/g/h" in openedSet
  {
    VisibilityOfEFGH(openedSet);
    assert "e/f/g/h/i" == "e/f/g/h" + [Separator] + "i";
    ChildVisibleIff(openedSet, "e/f/g/h", "i");
  }

  /** A visible entry at position `k` is kept in front of the filtered rest. */
  lemma FilterTake(all: seq<string>, openedSet: set<string>, k: int)
    requires 0 <= k < |all| && IsTopicOpened(openedSet, all[k])
    ensures FilterTopicsByOpened(all[k..], openedSet)
         == [all[k]] + FilterTopicsByOpened(all[k + 1..], openedSet)
  {
    assert all[k..][1..] == all[k + 1..];
  }

  /** A hidden entry at position `k` is dropped. */
  lemma FilterSkip(all: seq<string>, openedSet: set<string>, k: int)
    requires 0 <= k < |all| && !IsTopicOpened(openedSet, all[k])
    ensures FilterTopicsByOpened(all[k..], openedSet) == FilterTopicsByOpened(all[k + 1..], openedSet)
  {
    assert all[k..][1..] == all[k + 1..];
  }

  /** With `a` closed, only `a` itself is shown from its subtree. */
  lemma FilterUnderAClosed(openedSet: set<string>)
    requires "a" !in openedSet
    ensures FilterTopicsByOpened(UnderA, openedSet) == ["a"]
  {
    var s := UnderA;
    VisibilityOfDepthOne(openedSet);
    VisibilityOfABC(openedSet);
    assert s[4..] == [];
    FilterSkip(s, openedSet, 3);
    FilterSkip(s, openedSet, 2);
    FilterSkip(s, openedSet, 1);
    FilterTake(s, openedSet, 0);
    assert s[0..] == s;
  }

  /** With `a` opened but `a/b` closed, the children of `a` appear but not the grandchild. */
  lemma FilterUnderAOpened(openedSet: set<string>)
    requires "a" in openedSet && "a/b" !in openedSet
    ensures FilterTopicsByOpened(UnderA, openedSet) == ["a", "a/b", "a/d"]
  {
    var s := UnderA;
    VisibilityOfDepthOne(openedSet);
    VisibilityOfABC(openedSet);
    assert s[4..] == [];
    FilterTake(s, openedSet, 3);
    FilterSkip(s, openedSet, 2);
    FilterTake(s, openedSet, 1);
    FilterTake(s, openedSet, 0);
    assert s[0..] == s;
  }

  /** With `e` closed, only `e` itself is shown from its subtree. */
  lemma FilterUnderEClosed(openedSet: set<string>)
    requires "e" !in openedSet
    ensures FilterTopicsByOpened(UnderE, openedSet) == ["e"]
  {
    var s := UnderE;
    VisibilityOfDepthOne(openedSet);
    VisibilityOfEFG(openedSet);
    VisibilityOfEFGH(openedSet);
    VisibilityOfEFGHI(openedSet);
    assert s[6..] == [];
    FilterSkip(s, openedSet, 5);
    FilterSkip(s, openedSet, 4);
    FilterSkip(s, openedSet, 3);
    FilterSkip(s, openedSet, 2);
    FilterSkip(s, openedSet, 1);
    FilterTake(s, openedSet, 0);
    assert s[0..] == s;
  }

  /** Nothing opened: only the top level is shown. */
  lemma FilterShowsOnlyTopLevel()
    ensures FilterTopicsByOpened(AllExamples, {}) == ["a", "e"]
  {
    AllExamplesSplit();
    FilterAppend(UnderA, UnderE, {});
    FilterUnderAClosed({});
    FilterUnderEClosed({});
  }

  /** Opening `a` shows its children, but not its grandchild below the closed `a/b`. */
  lemma FilterShowsSome()
    ensures FilterTopicsByOpened(AllExamples, {"a"}) == ["a", "a/b", "a/d", "e"]
  {
    AllExamplesSplit();
    FilterAppend(UnderA, UnderE, {"a"});
    FilterUnderAOpened({"a"});
    FilterUnderEClosed({"a"});
  }

  /** Opening `a/b` alone shows nothing new: its parent `a` is still closed. */
  lemma FilterNeedsAllParentsOpened()
    ensures FilterTopicsByOpened(AllExamples, {"a/b"}) == ["a", "e"]
  {
    AllExamplesSplit();
    FilterAppend(UnderA, UnderE, {"a/b"});
    FilterUnderAClosed({"a/b"});
    FilterUnderEClosed({"a/b"});
  }

  /** The opened set of the last example: every inner node of the fixture. */
  const InnerNodes: set<string> := {"a", "a/b", "e", "e/f", "e/f/g", "e/f/g/h"}

  /** With `a` and `a/b` opened, the whole subtree under `a` is shown. */
  lemma FilterUnderAAllOpened(openedSet: set<string>)
    requires "a" in openedSet && "a/b" in openedSet
    ensures FilterTopicsByOpened(UnderA, openedSet) == UnderA
  {
    var s := UnderA;
    VisibilityOfRoots(openedSet);
    VisibilityOfDepthOne(openedSet);
    VisibilityOfABC(openedSet);
    assert s[4..] == [];
    FilterTake(s, openedSet, 3);
    FilterTake(s, openedSet, 2);
    FilterTake(s, openedSet, 1);
    FilterTake(s, openedSet, 0);
    assert s[0..] == s;
  }

  /** With every inner node under `e` opened, the whole subtree under `e` is shown. */
  lemma FilterUnderEAllOpened(openedSet: set<string>)
    requires "e" in openedSet && "e/f" in openedSet && "e/f/g" in openedSet && "e/f/g/h" in openedSet
    ensures FilterTopicsByOpened(UnderE, openedSet) == UnderE
  {
    var s := UnderE;
    VisibilityOfRoots(openedSet);
    VisibilityOfDepthOne(openedSet);
    VisibilityOfEFG(openedSet);
    VisibilityOfEFGH(openedSet);
    VisibilityOfEFGHI(openedSet);
    assert s[6..] == [];
    FilterTake(s, openedSet, 5);
    FilterTake(s, openedSet, 4);
    FilterTake(s, openedSet, 3);
    FilterTake(s, openedSet, 2);
    FilterTake(s, openedSet, 1);
    FilterTake(s, openedSet, 0);
    assert s[0..] == s;
  }

  /** Opening every inner node shows the whole fixture. */
  lemma FilterShowsAll()
    ensures FilterTopicsByOpened(AllExamples, InnerNodes) == AllExamples
  {
    AllExamplesSplit();
    FilterAppend(UnderA, UnderE, InnerNodes);
    FilterUnderAAllOpened(InnerNodes);
    FilterUnderEAllOpened(InnerNodes);
  }

  /** A built tree is fixed by which nodes it holds. */
  lemma BuildIs(existing: seq<string>, expected: seq<string>)
    requires StrictlySorted(expected)
    requires forall x :: IsNode(x, existing) <==> x in expected
    ensures BuildAllTreeVariants(existing) == expected
  {
    StrictlySortedUnique(BuildAllTreeVariants(existing), expected);
  }

  /** No observed topics, no tree. */
  lemma BuildEmpty()
    ensures BuildAllTreeVariants([]) == []
  {
    BuildIs([], []);
  }

  /** A root-level topic is a tree of one node. */
  lemma BuildShortestPath()
    ensures BuildAllTreeVariants(["foo"]) == ["foo"]
  {
    RootLevelIffNoSeparator("foo");
    forall x
      ensures IsNode(x, ["foo"]) <==> x in ["foo"]
    {
      if x == "foo" {
        assert "foo" in ["foo"];
      }
      if IsNode(x, ["foo"]) {
        assert !IsParent(x, "foo");
      }
    }
    BuildIs(["foo"], ["foo"]);
  }

  /** A two-level topic brings its synthetic parent node with it. */
  lemma BuildPathGetsSplit()
    ensures BuildAllTreeVariants(["foo/bar"]) == ["foo", "foo/bar"]
  {
    var existing := ["foo/bar"];
    var expected := ["foo", "foo/bar"];
    ParentsOfTwoLevels();
    forall x
      ensures IsNode(x, existing) <==> x in expected
    {
      if x in expected {
        assert "foo/bar" in existing;
        assert x == "foo" ==> IsParent(x, "foo/bar");
      }
    }
    StrictlySortedFromNeighbours(expected);
    BuildIs(existing, expected);
  }

  lemma ParentsOfSharedPrefixTopics()
    ensures Parents("a/b") == ["a"] && Parents("a/d") == ["a"]
    ensures Parents("a/b/c") == ["a", "a/b"]
  {
    RootLevelIffNoSeparator("a");
    assert "a/b" == "a" + [Separator] + "b";
    ParentsAddSegment("a", "b");
    assert "a/d" == "a" + [Separator] + "d";
    ParentsAddSegment("a", "d");
    assert "a/b/c" == "a/b" + [Separator] + "c";
    ParentsAddSegment("a/b", "c");
  }

  lemma SharedPrefixNodes()
    ensures forall x :: IsNode(x, ["a/b", "a/b/c", "a/d"]) <==> x in ["a", "a/b", "a/b/c", "a/d"]
  {
    var existing := ["a/b", "a/b/c", "a/d"];
    var expected := ["a", "a/b", "a/b/c", "a/d"];
    ParentsOfSharedPrefixTopics();
    forall x | x in expected
      ensures IsNode(x, existing)
    {
      if x == "a" {
        assert "a/b" in existing && x in Parents("a/b");
      } else {
        assert x in existing;
      }
    }
    forall x | IsNode(x, existing)
      ensures x in expected
    {
      var t :| t in existing && (x == t || IsParent(x, t));
      if t == "a/b" {
        assert x == t || x in Parents("a/b");
      } else if t == "a/b/c" {
        assert x == t || x in Parents("a/b/c");
      } else {
        assert x == t || x in Parents("a/d");
      }
    }
  }

  lemma SharedPrefixNodesSorted()
    ensures StrictlySorted(["a", "a/b", "a/b/c", "a/d"])
  {
    StrictlySortedFromNeighbours(["a", "a/b", "a/b/c", "a/d"]);
  }

  /** Overlapping topics share their common ancestors, each listed once. */
  lemma BuildDoesNotDuplicate()
    ensures BuildAllTreeVariants(["a/b", "a/b/c", "a/d"]) == ["a", "a/b", "a/b/c", "a/d"]
  {
    SharedPrefixNodes();
    SharedPrefixNodesSorted();
    BuildIs(["a/b", "a/b/c", "a/d"], ["a", "a/b", "a/b/c", "a/d"]);
  }

  lemma ParentsOfEF()
    ensures Parents("e/f") == ["e"] && Parents("e/j") == ["e"]
  {
    RootLevelIffNoSeparator("e");
    assert "e/f" == "e" + [Separator] + "f";
    ParentsAddSegment("e", "f");
    assert "e/j" == "e" + [Separator] + "j";
    ParentsAddSegment("e", "j");
  }

  lemma ParentsOfEFG()
    ensures Parents("e/f/g") == ["e", "e/f"]
  {
    ParentsOfEF();
    assert "e/f/g" == "e/f" + [Separator] + "g";
    ParentsAddSegment("e/f", "g");
  }

  lemma ParentsOfEFGH()
    ensures Parents("e/f/g/h") == ["e", "e/f", "e/f/g"]
  {
    ParentsOfEFG();
    assert "e/f/g/h" == "e/f/g" + [Separator] + "h";
    ParentsAddSegment("e/f/g", "h");
  }

  lemma ParentsOfEFGHI()
    ensures Parents("e/f/g/h/i") == ["e", "e/f", "e/f/g", "e/f/g/h"]
  {
    ParentsOfEFGH();
    assert "e/f/g/h/i" == "e/f/g/h" + [Separator] + "i";
    ParentsAddSegment("e/f/g/h", "i");
  }

  /** Every parent of an entry under `a` is an entry under `a`. */
  lemma UnderAClosedUnderParents()
    ensures forall t, p :: t in UnderA && IsParent(p, t) ==> p in UnderA
  {
    ParentsOfRootLevel();
    ParentsOfSharedPrefixTopics();
    forall t, p | t in UnderA && IsParent(p, t)
      ensures p in UnderA
    {
      assert p in Parents(t);
    }
  }

  /** Every parent of an entry under `e` is an entry under `e`. */
  lemma UnderEClosedUnderParents()
    ensures forall t, p :: t in UnderE && IsParent(p, t) ==> p in UnderE
  {
    RootLevelIffNoSeparator("e");
    ParentsOfEF();
    ParentsOfEFG();
    ParentsOfEFGH();
    ParentsOfEFGHI();
    forall t, p | t in UnderE && IsParent(p, t)
      ensures p in UnderE
    {
      assert p in Parents(t);
    }
  }

  /** Every parent of a fixture entry is itself a fixture entry. */
  lemma AllExamplesClosedUnderParents()
    ensures forall t, p :: t in AllExamples && IsParent(p, t) ==> p in AllExamples
  {
    AllExamplesSplit();
    UnderAClosedUnderParents();
    UnderEClosedUnderParents();
  }

  /**
    The fixture is exactly what the builder makes of it: strictly ascending
    and closed under parents, so the filter vectors above are also vectors
    of the shown rows.
   */
  lemma AllExamplesIsBuilt()
    ensures BuildAllTreeVariants(AllExamples) == AllExamples
  {
    AllExamplesStrictlySorted();
    AllExamplesClosedUnderParents();
    assert forall x :: IsNode(x, AllExamples) <==> x in AllExamples;
    BuildIs(AllExamples, AllExamples);
  }

  /** Showing the fixture's topics filters the fixture itself. */
  lemma ShownOfAllExamples(openedSet: set<string>)
    ensures GetShownTopics(AllExamples, openedSet) == FilterTopicsByOpened(AllExamples, openedSet)
  {
    AllExamplesIsBuilt();
  }

  /** With both roots closed, the fixture's topics show as its two roots. */
  lemma ShownWithRootsClosed(openedSet: set<string>)
    requires "a" !in openedSet && "e" !in openedSet
    ensures GetShownTopics(AllExamples, openedSet) == ["a", "e"]
  {
    ShownOfAllExamples(openedSet);
    AllExamplesSplit();
    FilterAppend(UnderA, UnderE, openedSet);
    FilterUnderAClosed(openedSet);
    FilterUnderEClosed(openedSet);
  }

  /** With `a` opened alone among the inner nodes, its children show as well. */
  lemma ShownWithOnlyAOpened(openedSet: set<string>)
    requires "a" in openedSet && "a/b" !in openedSet && "e" !in openedSet
    ensures GetShownTopics(AllExamples, openedSet) == ["a", "a/b", "a/d", "e"]
  {
    ShownOfAllExamples(openedSet);
    AllExamplesSplit();
    FilterAppend(UnderA, UnderE, openedSet);
    FilterUnderAOpened(openedSet);
    FilterUnderEClosed(openedSet);
  }

  /** With every inner node opened, the fixture's topics show in full. */
  lemma ShownWithInnerNodesOpened(openedSet: set<string>)
    requires InnerNodes <= openedSet
    ensures GetShownTopics(AllExamples, openedSet) == AllExamples
  {
    ShownOfAllExamples(openedSet);
    AllExamplesSplit();
    FilterAppend(UnderA, UnderE, openedSet);
    FilterUnderAAllOpened(openedSet);
    FilterUnderEAllOpened(openedSet);
  }
}
