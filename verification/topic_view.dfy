/**
  The topic-tree view engine: from a flat list of observed topics, build
  every node of the topic tree (the topics and all of their ancestor paths),
  then keep the nodes the user can see given the set of expanded ("opened")
  nodes. A node is visible exactly when all of its ancestors are opened, so
  root-level nodes are always visible.
 */
module TopicView {
  import opened LexOrder
  import opened Subsequences
  import opened Sorting
  import opened Topic

  /** `x` is a node of the tree over `topics`: one of the topics or a parent of one. */
  ghost predicate IsNode(x: string, topics: seq<string>) {
    exists t :: t in topics && (x == t || IsParent(x, t))
  }

  /**
    Everything the builder's loop pushes, in push order: for each topic,
    its parents root-first and then the topic itself.
   */
  function Collect(existing: seq<string>): (r: seq<string>)
    ensures forall x :: x in r <==> IsNode(x, existing)
    decreases |existing|
  {
    if |existing| == 0 then []
    else
      var n := |existing| - 1;
      var last := existing[n];
      assert existing == existing[..n] + [last];
      assert forall x :: IsNode(x, existing) <==> IsNode(x, existing[..n]) || x == last || IsParent(x, last) by {
        forall x
          ensures IsNode(x, existing) <==> IsNode(x, existing[..n]) || x == last || IsParent(x, last)
        {
          if IsNode(x, existing) {
            var t :| t in existing && (x == t || IsParent(x, t));
            if t != last {
              assert t in existing[..n];
            }
          }
          assert last in existing;
          if IsNode(x, existing[..n]) {
            var t :| t in existing[..n] && (x == t || IsParent(x, t));
            assert t in existing;
          }
        }
      }
      Collect(existing[..n]) + Parents(last) + [last]
  }

  /**
    All nodes of the tree over `existing`, each once, in ascending order
    (`build_all_tree_variants`). Complete: every topic and every parent of a
    topic is present. Sound: nothing else is.
   */
  function BuildAllTreeVariants(existing: seq<string>): (r: seq<string>)
    ensures StrictlySorted(r)
    ensures forall t :: t in existing ==> t in r
    ensures forall t, p :: t in existing && IsParent(p, t) ==> p in r
    ensures forall x :: x in r ==> IsNode(x, existing)
  {
    var r := Dedup(Sort(Collect(existing)));
    assert forall t, p :: t in existing && IsParent(p, t) ==> IsNode(p, existing);
    r
  }

  /** True when every element of `paths` is in `opened` (the iterator's `all`). */
  function AllOpened(paths: seq<string>, openedSet: set<string>): (b: bool)
    ensures b <==> forall i :: 0 <= i < |paths| ==> paths[i] in openedSet
    decreases |paths|
  {
    if |paths| == 0 then true
    else paths[0] in openedSet && AllOpened(paths[1..], openedSet)
  }

  /** A topic is visible when every one of its ancestor paths is opened (`is_topic_opened`). */
  function IsTopicOpened(openedSet: set<string>, topic: string): (b: bool)
    ensures b <==> forall p :: IsParent(p, topic) ==> p in openedSet
  {
    var ps := Parents(topic);
    assert forall p :: IsParent(p, topic) <==> exists i :: 0 <= i < |ps| && ps[i] == p;
    AllOpened(ps, openedSet)
  }

  /**
    The visible entries of `all`, in their original order
    (`filter_topics_by_opened`): every visible entry is kept, as often as it
    occurs, and nothing else is.
   */
  function FilterTopicsByOpened(all: seq<string>, openedSet: set<string>): (r: seq<string>)
    ensures IsSubseq(r, all)
    decreases |all|
  {
    if |all| == 0 then []
    else
      assert all == [all[0]] + all[1..];
      var rest := FilterTopicsByOpened(all[1..], openedSet);
      if IsTopicOpened(openedSet, all[0]) then
        assert ([all[0]] + rest)[1..] == rest;
        [all[0]] + rest
      else
        SubseqCons(rest, all[1..], all[0]);
        rest
  }

  /** An entry survives the filter exactly when it is in the input and visible. */
  lemma {:induction false} FilterMembers(all: seq<string>, openedSet: set<string>)
    ensures forall x :: x in FilterTopicsByOpened(all, openedSet) <==> x in all && IsTopicOpened(openedSet, x)
    decreases |all|
  {
    if |all| > 0 {
      FilterMembers(all[1..], openedSet);
      assert all == [all[0]] + all[1..];
    }
  }

  /** Filtering a strictly ascending sequence leaves it strictly ascending. */
  lemma {:induction false} FilterKeepsStrictOrder(all: seq<string>, openedSet: set<string>)
    requires StrictlySorted(all)
    ensures StrictlySorted(FilterTopicsByOpened(all, openedSet))
    decreases |all|
  {
    if |all| > 0 {
      var rest := FilterTopicsByOpened(all[1..], openedSet);
      FilterKeepsStrictOrder(all[1..], openedSet);
      if IsTopicOpened(openedSet, all[0]) {
        forall y | y in rest
          ensures Below(all[0], y)
        {
          SubseqElements(rest, all[1..]);
        }
        StrictlySortedCons(all[0], rest);
      }
    }
  }

  /**
    The rows to render for the observed topics `existing` under the opened
    set `openedSet` (`get_shown_topics`): exactly the visible tree nodes, each
    once, ascending.
   */
  function GetShownTopics(existing: seq<string>, openedSet: set<string>): (r: seq<string>)
    ensures StrictlySorted(r)
    ensures forall x :: x in r <==> IsNode(x, existing) && IsTopicOpened(openedSet, x)
    ensures IsSubseq(r, BuildAllTreeVariants(existing))
  {
    FilterKeepsStrictOrder(BuildAllTreeVariants(existing), openedSet);
    FilterMembers(BuildAllTreeVariants(existing), openedSet);
    FilterTopicsByOpened(BuildAllTreeVariants(existing), openedSet)
  }
}
