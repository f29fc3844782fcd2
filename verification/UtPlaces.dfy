/** How the nodes of the test database stand for the places of a run, before and after the lists are merged. */
module UtPlaces {
  import opened Basics
  import opened UtList
  import opened UtCircles
  import opened UtAssert
  import opened UtRun

  type TestNode = Node<Entry>

  /** Where the nodes are; a list does not mention the head it hangs on, nor the merged list the default head. */
  datatype NodePlace = SeparateNodes(groups: seq<seq<TestNode>>)
    | MergedNodes(done: seq<TestNode>, ahead: seq<TestNode>)

  function ItemOf(n: TestNode, late: set<TestNode>): Item {
    match n.data
    case None => Head(n.tag)
    case Some(entry) => Reg(entry, n in late)
  }

  function Items(nodes: seq<TestNode>, late: set<TestNode>): (r: seq<Item>)
    ensures |r| == |nodes|
  {
    seq(|nodes|, i requires 0 <= i < |nodes| => ItemOf(nodes[i], late))
  }

  function PlaceOf(p: NodePlace, late: set<TestNode>): Place {
    match p
    case SeparateNodes(groups) => Separate(seq(|groups|, g requires 0 <= g < |groups| => Items(groups[g], late)))
    case MergedNodes(done, ahead) => Merged(Items(done, late), Items(ahead, late))
  }

  /** The circles that a place stands for. */
  ghost predicate Links(circles: Circles<Entry>, tags: seq<TestNode>, p: NodePlace) {
    && Partition(circles, tags) && |tags| == GROUP_MAX
    && match p
       case SeparateNodes(groups) =>
         |groups| == GROUP_MAX && forall g :: 0 <= g < GROUP_MAX ==> circles[tags[g]] == [tags[g]] + groups[g]
       case MergedNodes(done, ahead) =>
         forall n :: n in circles ==> circles[n] == [tags[GROUP_DEFAULT]] + (done + ahead)
  }

  // ----- Adding a node -----

  ghost function InsertNode(nodes: seq<TestNode>, h: TestNode, node: TestNode): seq<TestNode> {
    if h in nodes then
      var (a, b) := Around(nodes, h);
      a + [node] + [h] + b
    else nodes
  }

  ghost function Grown(p: NodePlace, tags: seq<TestNode>, group: nat, node: TestNode): NodePlace
    requires group < |tags| && (p.SeparateNodes? ==> group < |p.groups|)
  {
    match p
    case SeparateNodes(groups) => SeparateNodes(groups[group := groups[group] + [node]])
    case MergedNodes(done, ahead) =>
      if group == GROUP_DEFAULT then MergedNodes(done, ahead + [node])
      else if tags[group] in ahead then MergedNodes(done, InsertNode(ahead, tags[group], node))
      else MergedNodes(InsertNode(done, tags[group], node), ahead)
  }

  ghost function GrownLate(p: NodePlace, tags: seq<TestNode>, group: nat, node: TestNode,
                           late: set<TestNode>): set<TestNode>
    requires group < |tags|
  {
    if p.MergedNodes? && group != GROUP_DEFAULT && tags[group] !in p.ahead then late + {node} else late
  }

  lemma InsertedAtFront(h: TestNode, rest: seq<TestNode>, node: TestNode)
    ensures [] + [h] + rest == [h] + rest
    ensures Inserted([], h, rest, node) == [h] + (rest + [node])
  {
  }

  lemma InsertedInside(d: TestNode, x: seq<TestNode>, a: seq<TestNode>, h: TestNode, b: seq<TestNode>, y: seq<TestNode>,
                       node: TestNode)
    ensures [d] + x + a + [h] + (b + y) == [d] + (x + (a + [h] + b) + y)
    ensures Inserted([d] + x + a, h, b + y, node) == [d] + (x + (a + [node] + [h] + b) + y)
  {
  }

  /** The ring that goes with a group: its own, or the one all groups share. */
  ghost function RingFor(p: NodePlace, tags: seq<TestNode>, group: nat): seq<TestNode>
    requires group < |tags| && (p.SeparateNodes? ==> group < |p.groups|)
  {
    match p
    case SeparateNodes(groups) => [tags[group]] + groups[group]
    case MergedNodes(done, ahead) => [tags[GROUP_DEFAULT]] + (done + ahead)
  }

  /** Where a new node goes: the parts of the group's ring before and after the group's head. */
  ghost function Gap(p: NodePlace, tags: seq<TestNode>, group: nat): (seq<TestNode>, seq<TestNode>)
    requires group < |tags| && (p.SeparateNodes? ==> group < |p.groups|)
    requires p.MergedNodes? && group != GROUP_DEFAULT ==> tags[group] in p.done || tags[group] in p.ahead
  {
    match p
    case SeparateNodes(groups) => ([], groups[group])
    case MergedNodes(done, ahead) =>
      var h, d := tags[group], tags[GROUP_DEFAULT];
      if group == GROUP_DEFAULT then ([], done + ahead)
      else if h in ahead then ([d] + done + Around(ahead, h).0, Around(ahead, h).1 + [])
      else ([d] + [] + Around(done, h).0, Around(done, h).1 + ahead)
  }

  lemma GapFits(p: NodePlace, tags: seq<TestNode>, group: nat, node: TestNode)
    requires |tags| == GROUP_MAX && group < GROUP_MAX && (p.SeparateNodes? ==> |p.groups| == GROUP_MAX)
    requires p.MergedNodes? && group != GROUP_DEFAULT ==> tags[group] in p.done || tags[group] in p.ahead
    ensures var (before, after) := Gap(p, tags, group);
      && RingFor(p, tags, group) == before + [tags[group]] + after
      && RingFor(Grown(p, tags, group, node), tags, group) == Inserted(before, tags[group], after, node)
  {
    hide Inserted;
    var h, d := tags[group], tags[GROUP_DEFAULT];
    if p.SeparateNodes? {
      InsertedAtFront(h, p.groups[group], node);
    } else if group == GROUP_DEFAULT {
      InsertedAtFront(h, p.done + p.ahead, node);
      assert p.done + (p.ahead + [node]) == p.done + p.ahead + [node];
    } else if h in p.ahead {
      var (a, b) := Around(p.ahead, h);
      InsertedInside(d, p.done, a, h, b, [], node);
      assert p.done + (a + [h] + b) + [] == p.done + p.ahead;
      assert p.done + (a + [node] + [h] + b) + [] == p.done + InsertNode(p.ahead, h, node);
    } else {
      var (a, b) := Around(p.done, h);
      InsertedInside(d, [], a, h, b, p.ahead, node);
      assert [] + (a + [h] + b) + p.ahead == p.done + p.ahead;
      assert [] + (a + [node] + [h] + b) + p.ahead == InsertNode(p.done, h, node) + p.ahead;
    }
  }

  // ----- The circles afterwards -----

  lemma GroupRingsDiffer(circles: Circles<Entry>, tags: seq<TestNode>, p: NodePlace, g: nat, h: nat)
    requires Links(circles, tags, p) && p.SeparateNodes? && g < GROUP_MAX && h < GROUP_MAX && g != h
    ensures tags[h] !in [tags[g]] + p.groups[g]
    ensures tags[h] in circles && tags[h].data == None
  {
    assert tags[g] in circles && tags[h] in circles;
    var a, b := circles[tags[g]], circles[tags[h]];
    assert a[0] == tags[g] && b[0] == tags[h] && tags[g].tag != tags[h].tag;
    assert tags[h] in a ==> b == a;
  }

  lemma GrownLinks(circles: Circles<Entry>, tags: seq<TestNode>, p: NodePlace, group: nat, node: TestNode)
    requires Links(circles, tags, p) && group < GROUP_MAX && node.data != None
    requires Partition(Relinked(circles, RingFor(Grown(p, tags, group, node), tags, group)), tags)
    requires var ring := RingFor(Grown(p, tags, group, node), tags, group);
             (forall n :: n in RingFor(p, tags, group) ==> n in ring) && node in ring
    ensures Links(Relinked(circles, RingFor(Grown(p, tags, group, node), tags, group)), tags,
      Grown(p, tags, group, node))
  {
    hide Partition, Inserted;
    var q := Grown(p, tags, group, node);
    var ring := RingFor(q, tags, group);
    var c := Relinked(circles, ring);
    if p.SeparateNodes? {
      assert ring == [tags[group]] + p.groups[group] + [node];
      forall g | 0 <= g < GROUP_MAX ensures tags[g] in c && c[tags[g]] == [tags[g]] + q.groups[g] {
        TagInCircle(c, tags, g);
        if g != group {
          GroupRingsDiffer(circles, tags, p, group, g);
        }
      }
    } else {
      forall n | n in c ensures c[n] == ring {
        if n !in ring {
          SelfInCircle(circles, tags, n);
        }
      }
    }
  }

  lemma SelfInCircle(circles: Circles<Entry>, tags: seq<TestNode>, n: TestNode)
    requires Partition(circles, tags) && n in circles
    ensures n in circles[n]
  {
  }

  // ----- The place afterwards -----

  /** Nodes without data are heads, and a head is known by its tag. */
  ghost predicate HeadsByTag(nodes: seq<TestNode>, tags: seq<TestNode>) {
    && (forall t :: 0 <= t < |tags| ==> tags[t].data == None && tags[t].tag == t)
    && (forall n :: n in nodes && n.data == None ==> n in tags)
  }

  lemma {:induction false} InsertBeforeFirstHead(x: seq<Item>, group: nat, y: seq<Item>, item: Item)
    requires Head(group) !in x
    ensures InsertBeforeHead(x + [Head(group)] + y, group, item) == x + [item] + [Head(group)] + y
    decreases |x|
  {
    var s := x + [Head(group)] + y;
    if x == [] {
      assert s[0] == Head(group);
      assert [item] + s == x + [item] + [Head(group)] + y;
    } else {
      assert s[1..] == x[1..] + [Head(group)] + y;
      InsertBeforeFirstHead(x[1..], group, y, item);
    }
  }

  lemma {:induction false} NoHeadNoChange(items: seq<Item>, group: nat, item: Item)
    requires Head(group) !in items
    ensures InsertBeforeHead(items, group, item) == items
    decreases |items|
  {
    if items != [] {
      NoHeadNoChange(items[1..], group, item);
    }
  }

  lemma HeadInItems(nodes: seq<TestNode>, tags: seq<TestNode>, group: nat, late: set<TestNode>)
    requires HeadsByTag(nodes, tags) && group < |tags|
    ensures tags[group] in nodes <==> Head(group) in Items(nodes, late)
  {
    var items := Items(nodes, late);
    if Head(group) in items {
      var k :| 0 <= k < |items| && items[k] == Head(group);
      assert nodes[k] in tags;
    }
    if tags[group] in nodes {
      var k :| 0 <= k < |nodes| && nodes[k] == tags[group];
      assert items[k] == Head(group);
    }
  }

  lemma InsertNodeItems(nodes: seq<TestNode>, tags: seq<TestNode>, group: nat, node: TestNode, late: set<TestNode>)
    requires HeadsByTag(nodes, tags) && group < |tags|
    ensures Items(InsertNode(nodes, tags[group], node), late)
         == InsertBeforeHead(Items(nodes, late), group, ItemOf(node, late))
    ensures tags[group] in nodes <==> Head(group) in Items(nodes, late)
  {
    var h := tags[group];
    HeadInItems(nodes, tags, group, late);
    if h in nodes {
      var (a, b) := Around(nodes, h);
      assert forall n :: n in a ==> n in nodes;
      HeadInItems(a, tags, group, late);
      hide HeadsByTag, Around;
      var x, y := Items(a, late), Items(b, late);
      assert Items(nodes, late) == x + [Head(group)] + y;
      assert Items(a + [node] + [h] + b, late) == x + [ItemOf(node, late)] + [Head(group)] + y;
      InsertBeforeFirstHead(x, group, y, ItemOf(node, late));
    } else {
      NoHeadNoChange(Items(nodes, late), group, ItemOf(node, late));
    }
  }

  lemma LateElsewhere(nodes: seq<TestNode>, late: set<TestNode>, node: TestNode)
    requires node !in nodes
    ensures Items(nodes, late + {node}) == Items(nodes, late)
  {
  }

  lemma GrownMerged(done: seq<TestNode>, ahead: seq<TestNode>, tags: seq<TestNode>, late: set<TestNode>,
                    group: nat, node: TestNode, entry: Entry)
    requires HeadsByTag(done, tags) && HeadsByTag(ahead, tags) && group < |tags| == GROUP_MAX
    requires node !in done && node !in ahead && node !in late && node.data == Some(entry)
    ensures var p := MergedNodes(done, ahead);
      && PlaceOf(Grown(p, tags, group, node), GrownLate(p, tags, group, node, late))
        == Insert(PlaceOf(p, late), entry, group)
      && (Late(PlaceOf(p, late), group) <==> GrownLate(p, tags, group, node, late) != late)
  {
    InsertNodeItems(ahead, tags, group, node, late);
    InsertNodeItems(done, tags, group, node, late + {node});
    LateElsewhere(done, late, node);
    LateElsewhere(ahead, late, node);
    assert Items(ahead + [node], late) == Items(ahead, late) + [ItemOf(node, late)];
  }

  lemma GrownSeparate(groups: seq<seq<TestNode>>, tags: seq<TestNode>, late: set<TestNode>,
                      group: nat, node: TestNode, entry: Entry)
    requires group < |tags| == |groups| == GROUP_MAX && node !in late && node.data == Some(entry)
    ensures var p := SeparateNodes(groups);
      PlaceOf(Grown(p, tags, group, node), late) == Insert(PlaceOf(p, late), entry, group)
  {
    var p, q := SeparateNodes(groups), SeparateNodes(groups[group := groups[group] + [node]]);
    assert Items(groups[group] + [node], late) == Items(groups[group], late) + [ItemOf(node, late)];
    assert PlaceOf(q, late).groups
      == PlaceOf(p, late).groups[group := Items(groups[group], late) + [ItemOf(node, late)]];
  }

  // ----- Both together -----

  lemma GroupHeads(circles: Circles<Entry>, tags: seq<TestNode>, p: NodePlace)
    requires Links(circles, tags, p)
    ensures |tags| == GROUP_MAX && Partition(circles, tags)
  {
  }

  /** What a place says about its list: which nodes it mentions, where the heads are, and the ring of every group. */
  lemma PlaceFacts(circles: Circles<Entry>, tags: seq<TestNode>, p: NodePlace, group: nat)
    requires Links(circles, tags, p) && group < GROUP_MAX
    ensures |tags| == GROUP_MAX && (p.SeparateNodes? ==> |p.groups| == GROUP_MAX)
    ensures tags[group] in circles && circles[tags[group]] == RingFor(p, tags, group)
    ensures p.MergedNodes? && group != GROUP_DEFAULT ==> tags[group] in p.done || tags[group] in p.ahead
    ensures forall n :: n in RingFor(p, tags, group) ==> n in circles
  {
    TagInCircle(circles, tags, group);
    if p.MergedNodes? && group != GROUP_DEFAULT {
      assert tags[group].tag != tags[GROUP_DEFAULT].tag;
      assert tags[group] in [tags[GROUP_DEFAULT]] + (p.done + p.ahead);
    }
  }

  lemma MergedFacts(circles: Circles<Entry>, tags: seq<TestNode>, p: NodePlace)
    requires Links(circles, tags, p) && p.MergedNodes?
    ensures HeadsByTag(p.done, tags) && HeadsByTag(p.ahead, tags)
    ensures forall n :: n in p.done || n in p.ahead ==> n in circles
  {
    PlaceFacts(circles, tags, p, GROUP_DEFAULT);
    assert forall n :: n in p.done || n in p.ahead ==> n in [tags[GROUP_DEFAULT]] + (p.done + p.ahead);
  }

  /** Adding a node to the list, at the gap of its group, is inserting its item into the place. */
  lemma AddingIsInserting(circles: Circles<Entry>, tags: seq<TestNode>, p: NodePlace, late: set<TestNode>,
                          group: nat, node: TestNode, entry: Entry, before: seq<TestNode>, after: seq<TestNode>)
    requires Links(circles, tags, p) && group < GROUP_MAX && late <= circles.Keys
    requires node !in circles && node.data == Some(entry)
    requires RingFor(p, tags, group) == before + [tags[group]] + after
    requires RingFor(Grown(p, tags, group, node), tags, group) == Inserted(before, tags[group], after, node)
    requires Partition(Relinked(circles, Inserted(before, tags[group], after, node)), tags)
    ensures Links(Relinked(circles, Inserted(before, tags[group], after, node)), tags, Grown(p, tags, group, node))
    ensures PlaceOf(Grown(p, tags, group, node), GrownLate(p, tags, group, node, late))
      == Insert(PlaceOf(p, late), entry, group)
  {
    hide Partition, PlaceOf, Inserted, Insert;
    InsertedNodes(before, tags[group], after, node);
    GrownLinks(circles, tags, p, group, node);
    match p
    case SeparateNodes(groups) =>
      GrownSeparate(groups, tags, late, group, node, entry);
    case MergedNodes(done, ahead) =>
      MergedFacts(circles, tags, p);
      GrownMerged(done, ahead, tags, late, group, node, entry);
  }

  // ----- The cursor -----

  /** Adding nodes leaves the node under the cursor, the last one behind it, where it is. */
  ghost predicate KeepsCursor(p: NodePlace, q: NodePlace) {
    && p.MergedNodes? == q.MergedNodes?
    && (p.MergedNodes? && p.done != [] ==> q.done != [] && q.done[|q.done| - 1] == p.done[|p.done| - 1])
  }

  lemma GrownKeepsCursor(p: NodePlace, tags: seq<TestNode>, group: nat, node: TestNode)
    requires group < |tags| && (p.SeparateNodes? ==> group < |p.groups|)
    ensures KeepsCursor(p, Grown(p, tags, group, node))
  {
    if p.MergedNodes? && tags[group] in p.done {
      var (a, b) := Around(p.done, tags[group]);
      assert (a + [node] + [tags[group]] + b)[|a| + 1..] == [tags[group]] + b;
    }
  }

  /** The node after the cursor. */
  lemma NextOfCursor(circles: Circles<Entry>, tags: seq<TestNode>, p: NodePlace)
    requires Links(circles, tags, p) && p.MergedNodes?
    requires forall n :: n in circles ==> Ring(circles[n])
    ensures var cursor := if p.done == [] then tags[GROUP_DEFAULT] else p.done[|p.done| - 1];
      cursor.live && cursor.next == (if p.ahead == [] then tags[GROUP_DEFAULT] else p.ahead[0])
  {
    PlaceFacts(circles, tags, p, GROUP_DEFAULT);
    var ring := RingFor(p, tags, GROUP_DEFAULT);
    assert Ring(ring);
    Neighbours(ring, |p.done|);
    assert ring[|p.done|].live;
  }
}
