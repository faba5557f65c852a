# Topic-tree view engine of mqttui, in Dafny

mqttui shows the MQTT topics it has seen as a tree that the user can
expand and collapse. The engine behind this view lives in
`src/topic_view.rs` and has four parts:

- `build_all_tree_variants` turns the flat list of observed topics into
  every node of the topic tree. The nodes are the topics plus all of their
  ancestor paths, sorted and each listed once.
- `is_topic_opened` decides whether a node is visible. A node is visible
  when every one of its ancestors is in the set of expanded ("opened")
  nodes.
- `filter_topics_by_opened` keeps the visible nodes, in order.
- `get_shown_topics` chains the builder and the filter.

The model is split into these modules:

- `LexOrder` holds Rust's ordering of `str` and sortedness.
- `Subsequences` defines order-preserving subsequences.
- `Sorting` holds `sort_unstable` and `Vec::dedup`.
- `Topic` holds topics and their ancestor paths.
- `TopicView` holds the four operations.
- `TopicViewProperties` holds the properties that relate several calls.
- `TopicViewExamples` holds the unit-test vectors and the `ALL_EXAMPLES`
  fixture.

Strings are `seq<char>` and the opened set is a mathematical `set<string>`.
Rust orders `str` by its UTF-8 bytes, which is the same as ordering by code
point. `LexOrder.Below` is that order written out, one character at a time.

Ancestor paths come from `get_all_parents` in `src/topic.rs`, and
src/topic.rs is not part of this model. `Topic.Parents` defines them as the
topic cut off just before each `/`, listed root-first. The repository's
tests fix only the ordinary cases, so the model fixes a policy for the
edge cases:

- the empty topic has no parents;
- `"/a"` has the parent `""`;
- `"a/"` has the parent `"a"`;
- `"a//b"` has the parents `"a"` and `"a/"`.

In general, a topic with n separators has n parents. The lemmas
`Topic.ParentsLeadingSeparator`, `Topic.ParentsTrailingSeparator` and
`Topic.ParentsCount` state this policy.

## Model

| member | source | states |
|---|---|---|
| LexOrder.Below | src/topic_view.rs:20 | the order `sort_unstable` uses on strings: the first differing character decides, and a proper prefix sorts first |
| LexOrder.BelowTotal | src/topic_view.rs:20 | any two different strings are ordered one way or the other, so sorting is determined |
| LexOrder.BelowTransitive | src/topic_view.rs:20 | the string order is transitive |
| LexOrder.BelowIrreflexive | src/topic_view.rs:20 | no string sorts before itself |
| LexOrder.BelowAsymmetric | src/topic_view.rs:20 | two strings never sort before each other |
| LexOrder.StrictlySortedUnique | src/topic_view.rs:20-21 | two strictly ascending sequences with the same elements are equal, so the result does not depend on which sort algorithm is used |
| Sorting.Sort | src/topic_view.rs:20 | the result is ascending, is a permutation of the input (equal multisets) and holds the same elements |
| Sorting.Insert | src/topic_view.rs:20 | inserting into an ascending sequence keeps it ascending and adds exactly one occurrence of the new entry |
| Sorting.Dedup | src/topic_view.rs:21 | no two neighbours are equal, the same elements remain, the first entry is kept, and an ascending input becomes strictly ascending |
| Topic.Parents | src/topic_view.rs:13-15 | a string is in the list exactly when it is the topic cut off before one of its separators; the list runs root-first, with strictly growing lengths |
| Topic.ParentsCount | src/topic_view.rs:13-15 | a topic has exactly as many parents as it has separators |
| Topic.ParentsAddSegment | src/topic_view.rs:13-15 | adding a segment below a topic adds that topic as the last, deepest parent |
| Topic.RootLevelIffNoSeparator | src/topic_view.rs:38-43 | a topic has no parents exactly when it contains no separator |
| Topic.ParentTransitive | src/topic_view.rs:13-15 | a parent of a parent is a parent |
| Topic.ParentBelow | src/topic_view.rs:13-21 | every parent sorts strictly before its topic |
| Topic.ParentsLeadingSeparator | src/topic_view.rs:13-15 | the empty topic has no parents; `"/"` and `"/a"` have the single parent `""` |
| Topic.ParentsTrailingSeparator | src/topic_view.rs:13-15 | `"a/"` has the parent `"a"`; `"a//b"` has the parents `"a"` and `"a/"` |
| Topic.ParentsOfRootLevel | src/topic_view.rs:86-95 | `"a"` has no parents, so it is visible with nothing opened |
| Topic.ParentsOfTwoLevels | src/topic_view.rs:58-63 | `"foo/bar"` has the single parent `"foo"` |
| Topic.ParentsOfThreeLevels | src/topic_view.rs:65-70 | `"a/b/c"` has the parents `"a"` and `"a/b"`, root-first |
| TopicView.Collect | src/topic_view.rs:10-18 | the builder's loop pushes exactly the observed topics and their parents |
| TopicView.BuildAllTreeVariants | src/topic_view.rs:9-24 | the result is strictly ascending and complete (every topic and every parent of a topic is in it); it is also sound (everything in it is a topic or a parent of one) |
| TopicView.AllOpened | src/topic_view.rs:40-42 | true exactly when every listed path is in the opened set |
| TopicView.IsTopicOpened | src/topic_view.rs:38-43 | a topic is visible exactly when every one of its parents is opened |
| TopicView.FilterTopicsByOpened | src/topic_view.rs:26-36 | the result is an order-preserving subsequence of the input |
| TopicView.FilterMembers | src/topic_view.rs:26-36 | a string is in the result exactly when it is in the input and visible |
| TopicView.FilterKeepsStrictOrder | src/topic_view.rs:26-36 | filtering a strictly ascending sequence leaves it strictly ascending |
| TopicView.GetShownTopics | src/topic_view.rs:4-7 | the rows are strictly ascending, a subsequence of the built tree, and are exactly the tree nodes that are visible |
| TopicViewProperties.FilterCounts | src/topic_view.rs:26-36 | every visible entry is kept as many times as it occurs, and hidden entries are dropped entirely |
| TopicViewProperties.FilterAppend | src/topic_view.rs:29-33 | each entry is kept or dropped on its own: filtering a concatenation concatenates the filtered parts |
| TopicViewProperties.FilterAllVisible | src/topic_view.rs:26-36 | when every entry is visible, the filter returns its input unchanged |
| TopicViewProperties.BuildDependsOnlyOnSet | src/topic_view.rs:9-24 | reordering or repeating the observed topics yields the identical tree |
| TopicViewProperties.BuildIdempotent | src/topic_view.rs:9-24 | building the tree of a built tree changes nothing |
| TopicViewProperties.ParentOfShownIsShown | src/topic_view.rs:4-7 | every parent of a shown row is itself shown |
| TopicViewProperties.ShownParentsPrecede | src/topic_view.rs:4-7 | every parent of a shown row appears earlier in the rows |
| TopicViewProperties.RootLevelAlwaysVisible | src/topic_view.rs:38-43 | a topic without a separator is visible whatever is opened |
| TopicViewProperties.ChildVisibleIff | src/topic_view.rs:38-43 | a child is visible exactly when its parent is both visible and opened |
| TopicViewProperties.IsTopicOpenedMonotone | src/topic_view.rs:38-43 | opening more nodes never hides a topic |
| TopicViewProperties.FilterMonotone | src/topic_view.rs:26-43 | with a larger opened set, the old filter result is a subsequence of the new one |
| TopicViewProperties.ShownMonotone | src/topic_view.rs:4-7 | expanding nodes only adds rows, and keeps the old rows in their order |
| TopicViewProperties.NothingOpenedShowsRootLevel | src/topic_view.rs:86-95 | with nothing opened, exactly the entries without a separator survive |
| TopicViewProperties.OpeningHiddenNodeHasNoEffect | src/topic_view.rs:38-43 | opening a node that is itself hidden leaves the filter result unchanged |
| TopicViewExamples.BuildEmpty | src/topic_view.rs:45-49 | no observed topics give an empty tree |
| TopicViewExamples.BuildShortestPath | src/topic_view.rs:51-56 | `["foo"]` builds `["foo"]` |
| TopicViewExamples.BuildPathGetsSplit | src/topic_view.rs:58-63 | `["foo/bar"]` builds `["foo", "foo/bar"]` |
| TopicViewExamples.BuildDoesNotDuplicate | src/topic_view.rs:65-70 | `["a/b", "a/b/c", "a/d"]` builds `["a", "a/b", "a/b/c", "a/d"]`, with the shared ancestors listed once |
| TopicViewExamples.AllExamplesStrictlySorted | src/topic_view.rs:72-84 | the fixture is strictly ascending |
| TopicViewExamples.AllExamplesIsBuilt | src/topic_view.rs:72-84 | building the tree of the fixture's topics returns the fixture unchanged, so the fixture is a genuine output of the builder |
| TopicViewExamples.ShownOfAllExamples | src/topic_view.rs:4-7 | for every opened set, the rows shown for the fixture's topics are the filtered fixture |
| TopicViewExamples.ShownWithRootsClosed | src/topic_view.rs:86-119 | for any opened set without `a` and `e`, the fixture's topics show as `["a", "e"]` |
| TopicViewExamples.ShownWithOnlyAOpened | src/topic_view.rs:97-107 | for any opened set with `a` but without `a/b` and `e`, the fixture's topics show as `["a", "a/b", "a/d", "e"]` |
| TopicViewExamples.ShownWithInnerNodesOpened | src/topic_view.rs:121-137 | for any opened set holding every inner node, all of the fixture's topics show |
| TopicViewExamples.FilterShowsOnlyTopLevel | src/topic_view.rs:86-95 | with nothing opened, the fixture filters to `["a", "e"]` |
| TopicViewExamples.FilterShowsSome | src/topic_view.rs:97-107 | with `{"a"}` opened, the fixture filters to `["a", "a/b", "a/d", "e"]` |
| TopicViewExamples.FilterNeedsAllParentsOpened | src/topic_view.rs:109-119 | with only `{"a/b"}` opened, the fixture still filters to `["a", "e"]` |
| TopicViewExamples.FilterShowsAll | src/topic_view.rs:121-137 | with every inner node opened, the fixture filters to itself |
| TopicViewExamples.FilterUnderAClosed | src/topic_view.rs:86-119 | for any opened set without `a`, only `a` is shown from the subtree under `a` |
| TopicViewExamples.FilterUnderAOpened | src/topic_view.rs:97-107 | for any opened set with `a` but without `a/b`, the subtree under `a` shows `a`, `a/b` and `a/d` |
| TopicViewExamples.FilterUnderAAllOpened | src/topic_view.rs:121-137 | for any opened set holding `a` and `a/b`, the whole subtree under `a` is shown |
| TopicViewExamples.FilterUnderEAllOpened | src/topic_view.rs:121-137 | for any opened set holding `e`, `e/f`, `e/f/g` and `e/f/g/h`, the whole subtree under `e` is shown |
| TopicViewExamples.FilterUnderEClosed | src/topic_view.rs:86-119 | for any opened set without `e`, only `e` is shown from the subtree under `e` |

## Left out

- `src/main.rs` is not modelled. It covers command-line parsing, building the MQTT client, transport and TLS choice, the random client id and keep-alive, and it is all I/O.
- src/topic.rs is not part of this model. `Topic.Parents` stands in for its `get_all_parents`, with the separator policy given above.
- Rust lifetimes and borrowing are left out. Borrowed `&str` values and owned `String` values are both plain strings here.
- `HashSet` hashing is left out. The opened set is a mathematical set, so only membership matters.
- Sorting.Sort: `sort_unstable` is modelled as an insertion sort. `LexOrder.StrictlySortedUnique` shows that any correct sort followed by `dedup` gives the same result.
- The sorted order is not claimed to be a pre-order of the tree. A sibling such as `"a-c"` sorts between `"a"` and `"a/b"`, and the code promises no such thing. The model only proves that parents come before their children.
- The unit tests for the fixture filter with `is_topic_opened` directly, rather than calling `filter_topics_by_opened`. The examples state their expected results about `TopicView.FilterTopicsByOpened`, which keeps exactly the same entries in the same order.
- Terminal rendering and the concurrent loop that collects topics from the broker are left out, because they are I/O.
