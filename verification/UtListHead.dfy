/** A list of UT Assert: an array of tag heads and the rings of data nodes that hang on them. */
module UtListHead {
  import opened Basics
  import opened UtList
  import opened UtCircles

  class ListHead<T> {
    const tags: seq<Node<T>>
    ghost var circles: Circles<T>

    ghost predicate Valid()
      reads this, circles.Keys
    {
      Partition(circles, tags) && forall n :: n in circles ==> Ring(circles[n])
    }

    lemma ValidPartition()
      requires Valid()
      ensures Partition(circles, tags)
    {
    }

    /** What every operation keeps: all nodes are allocated, and next and prev undo each other on them. */
    lemma LinksAreInverse(n: Node<T>)
      requires Valid() && n in circles
      ensures n.live && n.next in circles && n.prev in circles
      ensures n.next.prev == n && n.prev.next == n
    {
      var s := circles[n];
      assert n in s && Ring(s);
      var i :| 0 <= i < |s| && s[i] == n;
      InverseLinks(s, i);
      Neighbours(s, i);
    }

    /** An empty group for every tag. */
    constructor Create(numTags: nat)
      ensures Valid() && fresh(circles.Keys) && |tags| == numTags
      ensures forall t :: 0 <= t < numTags ==> circles[tags[t]] == [tags[t]]
      ensures forall n :: n in circles ==> n in tags
    {
      var heads: seq<Node<T>> := [];
      var i := 0;
      while i < numTags
        invariant |heads| == i <= numTags
        invariant forall k :: 0 <= k < i ==> fresh(heads[k]) && heads[k].data == None && heads[k].tag == k
        invariant forall k :: 0 <= k < i ==> Ring([heads[k]])
      {
        var tagHead := new Node<T>(None, i);
        heads := heads + [tagHead];
        i := i + 1;
      }
      tags := heads;
      circles := map n | n in heads :: [n];
    }

    /** Links a new data node right before a tag's head, wherever that head is linked. */
    method InsertBeforeHead(tag: nat, newNode: Node<T>, ghost before: seq<Node<T>>, ghost after: seq<Node<T>>)
      requires Valid() && tag < |tags| && newNode !in circles && newNode.live && newNode.data != None
      requires tags[tag] in circles && circles[tags[tag]] == before + [tags[tag]] + after
      modifies this`circles, circles.Keys, newNode
      ensures Valid()
      ensures circles == Relinked(old(circles), Inserted(before, tags[tag], after, newNode))
    {
      hide Ring, Partition, Relinked, Inserted;
      var tagHead := tags[tag];
      ghost var was := circles;
      ghost var s := Inserted(before, tagHead, after, newNode);
      BeforeRelinking(was, tags, tag, before, after, newNode);
      circles := Relinked(was, s);
      label Linking:
      InsertBefore(tagHead, newNode, before, after);
      forall n | n in was && n !in s ensures Ring(was[n]) {
        OtherCircles(was, tags, tagHead, n);
        assert old@Linking(Ring(was[n]));
      }
      RelinkedRings(was, s);
    }

    /** Appends to the group of one tag; a tag the list does not have is ignored. */
    method Add(data: T, tag: nat, ghost before: seq<Node<T>>, ghost after: seq<Node<T>>) returns (ghost node: Node?<T>)
      requires Valid()
      requires tag < |tags| ==> tags[tag] in circles && circles[tags[tag]] == before + [tags[tag]] + after
      modifies this`circles, circles.Keys
      ensures Valid()
      ensures tag >= |tags| ==> node == null && circles == old(circles)
      ensures tag < |tags| ==>
        && fresh(node) && node.data == Some(data) && node.tag == tag
        && circles == Relinked(old(circles), Inserted(before, tags[tag], after, node))
    {
      hide Ring, Partition, Relinked, Inserted;
      node := null;
      if tag < |tags| {
        var newNode := new Node(Some(data), tag);
        node := newNode;
        InsertBeforeHead(tag, newNode, before, after);
      }
    }

    /**
     * Exchanges the tails of two tag heads, wherever they are linked: heads on different rings join their rings, heads
     * on one ring take it apart.
     */
    method MergeTags(tag1: nat, tag2: nat)
      requires Valid() && tag1 < |tags| && tag2 < |tags|
      modifies this`circles, circles.Keys
      ensures Mergeable(old(circles), tags, tags[tag1], tags[tag2])
      ensures Valid() && circles.Keys == old(circles.Keys)
      ensures circles == TailsExchanged(old(circles), tags[tag1], tags[tag2])
    {
      hide Ring, Partition, MergeParts, TailsExchanged, MayMerge;
      ghost var was := circles;
      var tagHead1, tagHead2 := tags[tag1], tags[tag2];
      HeadsAreMergeable(was, tags, tag1, tag2);
      BeforeMerging(was, tags, tagHead1, tagHead2);
      ghost var rest1, rest2 := MergeParts(was, tagHead1, tagHead2).0, MergeParts(was, tagHead1, tagHead2).1;
      circles := TailsExchanged(was, tagHead1, tagHead2);
      label Linking:
      Merge(tagHead1, tagHead2, rest1, rest2);
      forall n | n in was && n !in was[tagHead1] && n !in was[tagHead2] ensures Ring(was[n]) {
        OtherCircles(was, tags, tagHead1, n);
        OtherCircles(was, tags, tagHead2, n);
        assert old@Linking(Ring(was[n]));
      }
      ExchangedRings(was, tags, tagHead1, tagHead2);
    }

    /** Empties what still hangs on one tag head; circles without that head stay as they are. */
    method ResetTag(i: nat)
      requires Partition(circles, tags) && i < |tags| && (Ring(circles[tags[i]]) || Emptied(circles[tags[i]]))
      modifies set n | n in circles && n in circles[tags[i]]
      ensures Emptied(circles[tags[i]])
    {
      hide Ring, Partition;
      TagInCircle(circles, tags, i);
      ghost var rest := RestAt(circles, tags, i);
      label Resetting:
      Reset(tags[i], rest);
      SelfLoop(tags[i]);
      forall n | n in circles[tags[i]] ensures Retired(n) {
        assert n !in [tags[i]] + rest ==> old@Resetting(Retired(n));
      }
    }

    /** Empties every ring through its tag heads, then frees the block the tag heads live in. */
    method Destroy()
      requires Valid()
      modifies circles.Keys
      ensures forall n :: n in circles ==> n.next == n && n.prev == n && !n.live
    {
      hide Ring, Partition, Emptied;
      ValidPartition();
      var i := 0;
      while i < |tags|
        invariant 0 <= i <= |tags|
        invariant forall n :: n in circles ==> Ring(circles[n]) || Emptied(circles[n])
        invariant forall t :: 0 <= t < i ==> TagCircleIn(circles, tags, t) && Emptied(circles[tags[t]])
      {
        TagInCircle(circles, tags, i);
        label Resetting:
        ResetTag(i);
        forall n | n in circles ensures Ring(circles[n]) || Emptied(circles[n])
        {
          CircleOrOther(circles, tags, tags[i], n);
          assert old@Resetting(Ring(circles[n]) || Emptied(circles[n]));
        }
        forall t | 0 <= t < i + 1 ensures TagCircleIn(circles, tags, t) && Emptied(circles[tags[t]]) {
          TagInCircle(circles, tags, t);
          CircleOrOther(circles, tags, tags[i], tags[t]);
          assert t < i ==> old@Resetting(Emptied(circles[tags[t]]));
        }
        i := i + 1;
      }
      AllEmptied(circles, tags);
      TagsAreNodes(circles, tags);
      assert forall t :: 0 <= t < |tags| ==> tags[t].live;
      forall t | 0 <= t < |tags| {
        tags[t].live := false;
      }
    }
  }

  // ----- A list from its creation to its end -----

  /** What user code does with a list; UtList_Merge is given two of its heads. */
  datatype ListOp<T> = AddOp(data: T, tag: nat) | MergeOp(tag1: nat, tag2: nat)

  predicate HasHeads<T>(op: ListOp<T>, numTags: nat) {
    op.MergeOp? ==> op.tag1 < numTags && op.tag2 < numTags
  }

  function WithOp<T>(additions: seq<(T, nat)>, op: ListOp<T>, numTags: nat): seq<(T, nat)> {
    if op.AddOp? && op.tag < numTags then additions + [(op.data, op.tag)] else additions
  }

  /** The additions that find their tag, with the tag, in the order of the operations. */
  function Additions<T>(ops: seq<ListOp<T>>, numTags: nat): seq<(T, nat)>
    decreases |ops|
  {
    if ops == [] then [] else WithOp(Additions(ops[..|ops| - 1], numTags), ops[|ops| - 1], numTags)
  }

  /** One node for every addition, each with its data, and no other nodes but the tag heads. */
  ghost predicate Holds<T>(list: ListHead<T>, additions: seq<(T, nat)>, added: seq<Node<T>>)
    reads list
  {
    && |added| == |additions| && Distinct(added)
    && (forall k :: 0 <= k < |added| ==> added[k].data == Some(additions[k].0) && added[k].tag == additions[k].1)
    && (forall n :: n in added ==> n in list.circles)
    && (forall n :: n in list.tags ==> n in list.circles)
    && (forall n :: n in list.circles ==> n in list.tags || n in added)
  }

  /** One operation; an addition that finds its tag yields its node. */
  method PerformOp<T>(list: ListHead<T>, op: ListOp<T>, ghost added: seq<Node<T>>, ghost additions: seq<(T, nat)>)
    returns (ghost grown: seq<Node<T>>)
    requires list.Valid() && HasHeads(op, |list.tags|) && Holds(list, additions, added)
    modifies list`circles, list.circles.Keys
    ensures list.Valid() && fresh(list.circles.Keys - old(list.circles.Keys))
    ensures Holds(list, WithOp(additions, op, |list.tags|), grown)
  {
    hide ListHead.Valid, TailsExchanged, Inserted;
    grown := added;
    match op
    case AddOp(data, tag) =>
      ghost var before, after := [], [];
      if tag < |list.tags| {
        list.ValidPartition();
        TagInCircle(list.circles, list.tags, tag);
        ghost var (b, a) := Around(list.circles[list.tags[tag]], list.tags[tag]);
        before, after := b, a;
        TagHeadCircle(list.circles, list.tags, tag, before, after);
      }
      ghost var node := list.Add(data, tag, before, after);
      if tag < |list.tags| {
        InsertedNodes(before, list.tags[tag], after, node);
        grown := added + [node];
      }
    case MergeOp(tag1, tag2) =>
      list.MergeTags(tag1, tag2);
  }

  /**
   * After any additions and merges, whether they join rings or take them apart, destroying the list frees every node it
   * ever held: the heads, and the one node of every addition. No node is freed twice, since freeing demands a live
   * node.
   */
  method UseList<T>(numTags: nat, ops: seq<ListOp<T>>) returns (list: ListHead<T>, ghost added: seq<Node<T>>)
    requires forall k :: 0 <= k < |ops| ==> HasHeads(ops[k], numTags)
    ensures fresh(list) && fresh(list.circles.Keys) && |list.tags| == numTags
    ensures Holds(list, Additions(ops, numTags), added)
    ensures forall n :: n in list.circles ==> n.next == n && n.prev == n && !n.live
  {
    hide ListHead.Valid, Holds, WithOp;
    list := new ListHead.Create(numTags);
    added := [];
    NothingAdded(list);
    var i := 0;
    while i < |ops|
      invariant 0 <= i <= |ops| && list.Valid() && fresh(list) && fresh(list.circles.Keys) && |list.tags| == numTags
      invariant Holds(list, Additions(ops[..i], numTags), added)
    {
      assert ops[..i + 1][..i] == ops[..i];
      added := PerformOp(list, ops[i], added, Additions(ops[..i], numTags));
      i := i + 1;
    }
    assert ops[..i] == ops;
    list.Destroy();
  }

  lemma NothingAdded<T>(list: ListHead<T>)
    requires list.Valid() && forall n :: n in list.circles ==> n in list.tags
    ensures Holds(list, [], [])
  {
  }
}
