/** The circular doubly linked lists of UT Assert: nodes, rings of nodes and the operations that rewrite their links. */
module UtList {
  import opened Basics

  /**
   * A list node. A tag head (sentinel) carries no data. The ghost field records whether the node's memory is still
   * allocated: every operation demands it of each node it touches, and freeing a node takes it away for good.
   */
  class Node<T> {
    var next: Node<T>
    var prev: Node<T>
    const data: Option<T>
    const tag: nat
    ghost var live: bool

    constructor (data: Option<T>, tag: nat)
      ensures this.data == data && this.tag == tag
      ensures next == this && prev == this && live
    {
      this.data, this.tag := data, tag;
      next, prev, live := this, this, true;
    }

    /** free(): the node must not have been freed before. */
    method Free()
      requires live
      modifies this`live
      ensures !live
    {
      live := false;
    }
  }

  // ----- Rings -----

  ghost predicate Distinct<A>(s: seq<A>) {
    forall i, j :: 0 <= i < j < |s| ==> s[i] != s[j]
  }

  ghost predicate Disjoint<A>(a: seq<A>, b: seq<A>) {
    forall i, j :: 0 <= i < |a| && 0 <= j < |b| ==> a[i] != b[j]
  }

  /** Live nodes linked in order, each to its neighbours in both directions; what the two ends link to is left open. */
  ghost predicate Chain<T>(s: seq<Node<T>>)
    reads s
  {
    && |s| > 0
    && Distinct(s)
    && (forall i {:trigger s[i].live} :: 0 <= i < |s| ==> s[i].live)
    && (forall i {:trigger s[i].next} :: 0 <= i < |s| - 1 ==> s[i].next == s[i + 1])
    && (forall i {:trigger s[i].prev} :: 0 < i < |s| ==> s[i].prev == s[i - 1])
  }

  /** A chain whose ends are linked to each other: next and prev are each other's inverse all the way round. */
  ghost predicate Ring<T>(s: seq<Node<T>>)
    reads s
  {
    Chain(s) && s[|s| - 1].next == s[0] && s[0].prev == s[|s| - 1]
  }

  lemma DistinctParts<A>(a: seq<A>, b: seq<A>)
    ensures Distinct(a + b) <==> Distinct(a) && Distinct(b) && Disjoint(a, b)
  {
    var s := a + b;
    if Distinct(s) {
      assert forall i :: 0 <= i < |a| ==> a[i] == s[i];
      assert forall j :: 0 <= j < |b| ==> b[j] == s[|a| + j];
    }
  }

  lemma Join<T>(a: seq<Node<T>>, b: seq<Node<T>>)
    requires |a| > 0 && |b| > 0
    ensures Chain(a + b) <==>
      Chain(a) && Chain(b) && Disjoint(a, b) && a[|a| - 1].next == b[0] && b[0].prev == a[|a| - 1]
  {
    var s := a + b;
    DistinctParts(a, b);
    assert forall i :: 0 <= i < |a| ==> s[i] == a[i];
    assert forall j :: 0 <= j < |b| ==> s[|a| + j] == b[j];
    if Chain(s) {
      assert s[|a| - 1].next == s[|a|] && s[|a|].prev == s[|a| - 1];
      forall j | 0 <= j < |b|
        ensures b[j].live && (j < |b| - 1 ==> b[j].next == b[j + 1]) && (j > 0 ==> b[j].prev == b[j - 1])
      {
        assert s[|a| + j].live && (j < |b| - 1 ==> s[|a| + j].next == s[|a| + j + 1]);
        assert j > 0 ==> s[|a| + j].prev == s[|a| + j - 1];
      }
      forall i | 0 <= i < |a|
        ensures a[i].live && (i < |a| - 1 ==> a[i].next == a[i + 1]) && (i > 0 ==> a[i].prev == a[i - 1])
      {
        assert s[i].live && (i < |a| - 1 ==> s[i].next == s[i + 1]) && (i > 0 ==> s[i].prev == s[i - 1]);
      }
    }
  }

  /** A ring may be read from any of its nodes. */
  lemma Rotate<T>(a: seq<Node<T>>, b: seq<Node<T>>)
    requires Ring(a + b)
    ensures Ring(b + a)
  {
    if a == [] || b == [] {
      assert b + a == a + b;
    } else {
      Join(a, b);
      Join(b, a);
    }
  }

  // ----- Operations on links -----

  predicate IsEmpty<T>(tagHead: Node<T>)
    reads tagHead
  {
    tagHead.next == tagHead
  }

  /** A ring with a node added before one of its nodes; a ring read from that node has the place at its end. */
  ghost function Inserted<T>(before: seq<Node<T>>, existing: Node<T>, after: seq<Node<T>>,
                             newNode: Node<T>): seq<Node<T>> {
    if before == [] then [existing] + after + [newNode] else before + [newNode] + [existing] + after
  }

  lemma ReadFrom<T>(before: seq<Node<T>>, existing: Node<T>, after: seq<Node<T>>)
    requires Ring(before + [existing] + after)
    ensures Ring([existing] + (after + before))
  {
    assert before + [existing] + after == before + ([existing] + after);
    Rotate(before, [existing] + after);
    assert [existing] + after + before == [existing] + (after + before);
  }

  lemma InsertedFrom<T>(before: seq<Node<T>>, existing: Node<T>, after: seq<Node<T>>, newNode: Node<T>)
    requires Ring([existing] + (after + before) + [newNode])
    ensures Ring(Inserted(before, existing, after, newNode))
  {
    var r := [existing] + (after + before) + [newNode];
    if before == [] {
      assert r == Inserted(before, existing, after, newNode);
    } else {
      assert r == ([existing] + after) + (before + [newNode]);
      Rotate([existing] + after, before + [newNode]);
      assert (before + [newNode]) + ([existing] + after) == Inserted(before, existing, after, newNode);
    }
  }

  method InsertBefore<T>(existing: Node<T>, newNode: Node<T>, ghost before: seq<Node<T>>, ghost after: seq<Node<T>>)
    requires Ring(before + [existing] + after) && newNode.live && newNode !in before + [existing] + after
    modifies existing, existing.prev, newNode
    ensures Ring(Inserted(before, existing, after, newNode))
  {
    ReadFrom(before, existing, after);
    ghost var s := [existing] + (after + before);
    newNode.next := existing;
    newNode.prev := existing.prev;
    newNode.prev.next := newNode;
    newNode.next.prev := newNode;
    assert Chain(s);
    Join(s, [newNode]);
    InsertedFrom(before, existing, after, newNode);
  }

  method InsertAfter<T>(existing: Node<T>, newNode: Node<T>, ghost rest: seq<Node<T>>)
    requires Ring([existing] + rest) && newNode.live && newNode !in [existing] + rest
    modifies existing, existing.next, newNode
    ensures Ring([existing, newNode] + rest)
  {
    ghost var s := [existing] + rest;
    if rest != [] {
      Join([existing], rest);
    }
    newNode.next := existing.next;
    newNode.prev := existing;
    newNode.prev.next := newNode;
    newNode.next.prev := newNode;
    Join([existing], [newNode]);
    if rest != [] {
      assert Chain(rest);
      Join([existing, newNode], rest);
    }
    assert [existing] + [newNode] == [existing, newNode];
  }

  method Extract<T>(existing: Node<T>, ghost rest: seq<Node<T>>)
    requires Ring([existing] + rest)
    modifies existing, existing.next, existing.prev
    ensures Ring([existing])
    ensures rest != [] ==> Ring(rest)
  {
    if rest != [] {
      Join([existing], rest);
    }
    existing.next.prev := existing.prev;
    existing.prev.next := existing.next;
    existing.next := existing;
    existing.prev := existing;
    assert rest != [] ==> Chain(rest);
  }

  /** Two rings read from their heads, one ring with a second head in it, or one head given twice. */
  ghost predicate MayMerge<T>(tagHead1: Node<T>, tagHead2: Node<T>, rest1: seq<Node<T>>, rest2: seq<Node<T>>)
    reads [tagHead1] + rest1, [tagHead2] + rest2
  {
    var a, b := [tagHead1] + rest1, [tagHead2] + rest2;
    if tagHead1 == tagHead2 then rest1 == rest2 && Ring(a)
    else Ring(a + b) || (Ring(a) && Ring(b) && Disjoint(a, b))
  }

  /** Exchanges the tails of two heads: two rings become one, one ring becomes two, and a head alone changes nothing. */
  method Merge<T>(tagHead1: Node<T>, tagHead2: Node<T>, ghost rest1: seq<Node<T>>, ghost rest2: seq<Node<T>>)
    requires MayMerge(tagHead1, tagHead2, rest1, rest2)
    modifies tagHead1, tagHead2, tagHead1.prev, tagHead2.prev
    ensures var a, b := [tagHead1] + rest1, [tagHead2] + rest2;
            if tagHead1 == tagHead2 || old(Ring(a + b)) then Ring(a) && Ring(b) else Ring(a + b)
  {
    ghost var a, b := [tagHead1] + rest1, [tagHead2] + rest2;
    if tagHead1 != tagHead2 {
      Join(a, b);
      assert Chain(a) && Chain(b) && Disjoint(a, b);
    }
    ghost var joined := tagHead1 == tagHead2 || Ring(a + b);
    var tail1 := tagHead1.prev;
    var tail2 := tagHead2.prev;
    assert tagHead1 != tagHead2 ==>
      if joined then tail1 == b[|b| - 1] && tail2 == a[|a| - 1] else tail1 == a[|a| - 1] && tail2 == b[|b| - 1];
    tail1.next := tagHead2;
    tail2.next := tagHead1;
    tagHead1.prev := tail2;
    tagHead2.prev := tail1;
    assert Chain(a) && Chain(b);
    if tagHead1 != tagHead2 {
      Join(a, b);
    }
  }

  /** A second merge of the same two heads puts every link of both rings back. */
  method MergeTwice<T>(tagHead1: Node<T>, tagHead2: Node<T>, ghost rest1: seq<Node<T>>, ghost rest2: seq<Node<T>>)
    requires var a, b := [tagHead1] + rest1, [tagHead2] + rest2;
             Ring(a) && Ring(b) && Disjoint(a, b)
    modifies [tagHead1] + rest1, [tagHead2] + rest2
    ensures forall n :: n in [tagHead1] + rest1 || n in [tagHead2] + rest2 ==>
              n.next == old(n.next) && n.prev == old(n.prev) && n.live == old(n.live)
  {
    ghost var a, b := [tagHead1] + rest1, [tagHead2] + rest2;
    assert tagHead1.prev in a && tagHead2.prev in b;
    Join(a, b);
    Merge(tagHead1, tagHead2, rest1, rest2);
    assert (a + b)[|a|] == tagHead2;
    Join(a, b);
    Merge(tagHead1, tagHead2, rest1, rest2);
    RingDeterminesLinks(a);
    RingDeterminesLinks(b);
  }

  twostate lemma RingDeterminesLinks<T>(s: seq<Node<T>>)
    requires old(Ring(s)) && Ring(s)
    ensures forall n :: n in s ==> n.next == old(n.next) && n.prev == old(n.prev) && n.live == old(n.live)
  {
    forall i | 0 <= i < |s|
      ensures s[i].next == old(s[i].next) && s[i].prev == old(s[i].prev) && s[i].live == old(s[i].live)
    {
      assert i < |s| - 1 ==> s[i].next == s[i + 1] && old(s[i].next) == s[i + 1];
      assert i > 0 ==> s[i].prev == s[i - 1] && old(s[i].prev) == s[i - 1];
      assert old(s[i].live) && s[i].live;
    }
  }

  /** Takes a node out of its ring and frees it if it holds data; a tag head is only taken out. */
  method DeleteNode<T>(node: Node<T>, ghost before: seq<Node<T>>, ghost after: seq<Node<T>>)
    requires Ring(before + [node] + after)
    modifies node, node.next, node.prev
    ensures Retired(node)
    ensures before + after != [] ==> Ring(before + after)
  {
    ghost var rest := after + before;
    assert before + [node] + after == before + ([node] + after);
    Rotate(before, [node] + after);
    assert [node] + after + before == [node] + rest;
    DistinctParts([node], rest);
    Extract(node, rest);
    if node.data != None {
      node.Free();
    }
    if rest != [] {
      assert Ring(rest);
      Rotate(after, before);
    }
  }

  lemma Neighbours<T>(s: seq<Node<T>>, i: nat)
    requires Ring(s) && i < |s|
    ensures s[i].next in s && s[i].prev in s
    ensures s[i].next == s[if i + 1 < |s| then i + 1 else 0]
  {
    assert i + 1 < |s| ==> s[i].next == s[i + 1];
    assert i > 0 ==> s[i].prev == s[i - 1];
  }

  /** Next and prev are each other's inverse on every node of a ring. */
  lemma InverseLinks<T>(s: seq<Node<T>>, i: nat)
    requires Ring(s) && i < |s|
    ensures s[i].live && s[i].next.prev == s[i] && s[i].prev.next == s[i]
  {
    var next, prev := if i + 1 < |s| then i + 1 else 0, if i > 0 then i - 1 else |s| - 1;
    assert s[i].live && s[next].prev == s[i] && s[prev].next == s[i];
    assert i + 1 < |s| ==> s[i].next == s[i + 1];
    assert i > 0 ==> s[i].prev == s[i - 1];
  }

  /** What is left of a node taken out of a ring: its links are its own, and it is freed exactly if it holds data. */
  ghost predicate Retired<T>(n: Node<T>)
    reads n
  {
    n.next == n && n.prev == n && (n.live <==> n.data == None)
  }

  /** Empties a ring through one of its tag heads; other tag heads caught in the ring are set loose, not freed. */
  method Reset<T>(tagHead: Node<T>, ghost rest: seq<Node<T>>)
    requires Ring([tagHead] + rest)
    modifies [tagHead] + rest
    ensures Ring([tagHead])
    ensures forall n :: n in rest ==> Retired(n)
  {
    hide Ring, Distinct;
    ghost var done, ahead := [], rest;
    while !IsEmpty(tagHead)
      invariant rest == done + ahead
      invariant Ring([tagHead] + ahead)
      invariant forall n :: n in [tagHead] + ahead ==> n !in done && n in [tagHead] + rest
      invariant forall n :: n in done ==> Retired(n)
      decreases |ahead|
    {
      ghost var node, after := RestOfRing(tagHead, ahead);
      assert node in [tagHead] + rest && node.next in [tagHead] + rest && node.prev in [tagHead] + rest;
      DeleteNode(tagHead.next, [tagHead], after);
      done, ahead := done + [node], after;
    }
    LastOfRing(tagHead, ahead);
    assert rest == done && [tagHead] + ahead == [tagHead];
  }

  lemma RestOfRing<T>(tagHead: Node<T>, ahead: seq<Node<T>>) returns (node: Node<T>, after: seq<Node<T>>)
    requires Ring([tagHead] + ahead) && tagHead.next != tagHead
    ensures node == tagHead.next && ahead == [node] + after && node !in [tagHead] + after
    ensures [tagHead] + ahead == [tagHead] + [node] + after
    ensures node in [tagHead] + ahead && node.next in [tagHead] + ahead && node.prev == tagHead
  {
    var s := [tagHead] + ahead;
    Neighbours(s, 0);
    assert s[1] == ahead[0] == tagHead.next;
    Neighbours(s, 1);
    node, after := ahead[0], ahead[1..];
    assert s == [tagHead] + ([node] + after);
    DistinctParts([tagHead], [node] + after);
    DistinctParts([node], after);
    assert tagHead in [tagHead] && node in [node];
  }

  lemma LastOfRing<T>(tagHead: Node<T>, ahead: seq<Node<T>>)
    requires Ring([tagHead] + ahead)
    ensures tagHead.next == tagHead ==> ahead == []
  {
    var s := [tagHead] + ahead;
    Neighbours(s, 0);
    if ahead != [] {
      assert s[0] != s[1];
    }
  }
}
