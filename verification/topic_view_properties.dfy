/**
  Properties relating several calls of the view engine: the builder's
  output depends only on the set of observed topics, visibility is monotone
  in the opened set, and the visible rows never show a node without its
  parent.
 */
module TopicViewProperties {
  import opened LexOrder
  import opened Subsequences
  import opened Topic
  import opened TopicView

  /** The filter keeps every visible entry as many times as it occurs and drops all others. */
  lemma {:induction false} FilterCounts(all: seq<string>, openedSet: set<string>, x: string)
    ensures multiset(FilterTopicsByOpened(all, openedSet))[x]
         == if IsTopicOpened(openedSet, x) then multiset(all)[x] else 0
    decreases |all|
  {
    if |all| > 0 {
      assert all == [all[0]] + all[1..];
      FilterCounts(all[1..], openedSet, x);
    }
  }

  /**
    Reordering or repeating the observed topics does not change the built
    tree: only the set of topics matters.
   */
  lemma BuildDependsOnlyOnSet(e1: seq<string>, e2: seq<string>)
    requires forall t :: t in e1 <==> t in e2
    ensures BuildAllTreeVariants(e1) == BuildAllTreeVariants(e2)
  {
    var r1, r2 := BuildAllTreeVariants(e1), BuildAllTreeVariants(e2);
    forall x
      ensures x in r1 <==> x in r2
    {
      if x in r1 {
        assert IsNode(x, e1);
        var t :| t in e1 && (x == t || IsParent(x, t));
        assert t in e2;
      }
      if x in r2 {
        assert IsNode(x, e2);
        var t :| t in e2 && (x == t || IsParent(x, t));
        assert t in e1;
      }
    }
    StrictlySortedUnique(r1, r2);
  }

  /** Feeding the built tree back into the builder returns it unchanged. */
  lemma BuildIdempotent(existing: seq<string>)
    ensures BuildAllTreeVariants(BuildAllTreeVariants(existing)) == BuildAllTreeVariants(existing)
  {
    var r := BuildAllTreeVariants(existing);
    var rr := BuildAllTreeVariants(r);
    forall x
      ensures x in rr <==> x in r
    {
      if x in rr {
        assert IsNode(x, r);
        var y :| y in r && (x == y || IsParent(x, y));
        if x != y {
          assert IsNode(y, existing);
          var t :| t in existing && (y == t || IsParent(y, t));
          if y != t {
            ParentTransitive(x, y, t);
          }
        }
      }
    }
    StrictlySortedUnique(rr, r);
  }

  /** Every parent of a visible row is itself a visible row. */
  lemma ParentOfShownIsShown(existing: seq<string>, openedSet: set<string>, x: string, p: string)
    requires x in GetShownTopics(existing, openedSet)
    requires IsParent(p, x)
    ensures p in GetShownTopics(existing, openedSet)
  {
    assert IsNode(p, existing) by {
      var t :| t in existing && (x == t || IsParent(x, t));
      if x != t {
        ParentTransitive(p, x, t);
      }
    }
    assert IsTopicOpened(openedSet, p) by {
      forall q | IsParent(q, p)
        ensures q in openedSet
      {
        ParentTransitive(q, p, x);
      }
    }
  }

  /**
    Every parent of a visible row is shown earlier in the list: the view
    never shows a node without its parent above it.
   */
  lemma ShownParentsPrecede(existing: seq<string>, openedSet: set<string>)
    ensures var r := GetShownTopics(existing, openedSet);
      forall i, p :: 0 <= i < |r| && IsParent(p, r[i]) ==> exists j :: 0 <= j < i && r[j] == p
  {
    var r := GetShownTopics(existing, openedSet);
    forall i, p | 0 <= i < |r| && IsParent(p, r[i])
      ensures exists j :: 0 <= j < i && r[j] == p
    {
      ParentOfShownIsShown(existing, openedSet, r[i], p);
      ParentBelow(p, r[i]);
      StrictlySortedEarlier(r, i, p);
    }
  }

  /** A root-level topic is visible whatever is opened. */
  lemma RootLevelAlwaysVisible(openedSet: set<string>, topic: string)
    requires Separator !in topic
    ensures IsTopicOpened(openedSet, topic)
  {
    RootLevelIffNoSeparator(topic);
  }

  /** A child node is visible exactly when its parent is visible and opened. */
  lemma ChildVisibleIff(openedSet: set<string>, parent: string, segment: string)
    requires Separator !in segment
    ensures IsTopicOpened(openedSet, parent + [Separator] + segment)
        <==> IsTopicOpened(openedSet, parent) && parent in openedSet
  {
    var child := parent + [Separator] + segment;
    ParentsAddSegment(parent, segment);
    assert forall p :: IsParent(p, child) <==> IsParent(p, parent) || p == parent by {
      assert forall p :: p in Parents(child) <==> p in Parents(parent) || p == parent;
    }
  }

  /** Opening more nodes never hides a topic. */
  lemma IsTopicOpenedMonotone(o1: set<string>, o2: set<string>, topic: string)
    requires o1 <= o2
    ensures IsTopicOpened(o1, topic) ==> IsTopicOpened(o2, topic)
  {
  }

  /** Opening more nodes only adds rows: the old rows are a subsequence of the new ones. */
  lemma {:induction false} FilterMonotone(all: seq<string>, o1: set<string>, o2: set<string>)
    requires o1 <= o2
    ensures IsSubseq(FilterTopicsByOpened(all, o1), FilterTopicsByOpened(all, o2))
    decreases |all|
  {
    if |all| > 0 {
      var f1 := FilterTopicsByOpened(all[1..], o1);
      var f2 := FilterTopicsByOpened(all[1..], o2);
      FilterMonotone(all[1..], o1, o2);
      IsTopicOpenedMonotone(o1, o2, all[0]);
      if IsTopicOpened(o1, all[0]) {
        assert ([all[0]] + f1)[1..] == f1;
        assert ([all[0]] + f2)[1..] == f2;
      } else if IsTopicOpened(o2, all[0]) {
        SubseqCons(f1, f2, all[0]);
      }
    }
  }

  /** Expanding nodes in the view never removes a row, and keeps the rows' order. */
  lemma ShownMonotone(existing: seq<string>, o1: set<string>, o2: set<string>)
    requires o1 <= o2
    ensures IsSubseq(GetShownTopics(existing, o1), GetShownTopics(existing, o2))
  {
    FilterMonotone(BuildAllTreeVariants(existing), o1, o2);
  }

  /** With nothing opened, exactly the root-level entries (no separator) are visible. */
  lemma NothingOpenedShowsRootLevel(all: seq<string>)
    ensures forall x :: x in FilterTopicsByOpened(all, {}) <==> x in all && Separator !in x
  {
    FilterMembers(all, {});
    forall x
      ensures IsTopicOpened({}, x) <==> Separator !in x
    {
      RootLevelIffNoSeparator(x);
      if Parents(x) != [] {
        assert IsParent(Parents(x)[0], x);
      }
    }
  }

  /** When every entry is visible, nothing is filtered out. */
  lemma {:induction false} FilterAllVisible(all: seq<string>, openedSet: set<string>)
    requires forall x :: x in all ==> IsTopicOpened(openedSet, x)
    ensures FilterTopicsByOpened(all, openedSet) == all
    decreases |all|
  {
    if |all| > 0 {
      assert all[0] in all;
      FilterAllVisible(all[1..], openedSet);
      assert all == [all[0]] + all[1..];
    }
  }

  /** Each entry is kept or dropped on its own: filtering distributes over concatenation. */
  lemma {:induction false} FilterAppend(a: seq<string>, b: seq<string>, openedSet: set<string>)
    ensures FilterTopicsByOpened(a + b, openedSet)
         == FilterTopicsByOpened(a, openedSet) + FilterTopicsByOpened(b, openedSet)
    decreases |a|
  {
    if |a| > 0 {
      assert (a + b)[1..] == a[1..] + b;
      FilterAppend(a[1..], b, openedSet);
      if IsTopicOpened(openedSet, a[0]) {
        assert [a[0]] + (FilterTopicsByOpened(a[1..], openedSet) + FilterTopicsByOpened(b, openedSet))
            == ([a[0]] + FilterTopicsByOpened(a[1..], openedSet)) + FilterTopicsByOpened(b, openedSet);
      }
    } else {
      assert a + b == b;
    }
  }

  /**
    Opening a node that is not itself visible changes nothing: its
    descendants still have a closed ancestor.
   */
  lemma {:induction false} OpeningHiddenNodeHasNoEffect(all: seq<string>, openedSet: set<string>, p: string)
    requires !IsTopicOpened(openedSet, p)
    ensures FilterTopicsByOpened(all, openedSet + {p}) == FilterTopicsByOpened(all, openedSet)
    decreases |all|
  {
    if |all| > 0 {
      var x := all[0];
      if IsTopicOpened(openedSet + {p}, x) {
        var q :| IsParent(q, p) && q !in openedSet;
        if IsParent(p, x) {
          ParentTransitive(q, p, x);
        }
      }
      OpeningHiddenNodeHasNoEffect(all[1..], openedSet, p);
    }
  }
}
