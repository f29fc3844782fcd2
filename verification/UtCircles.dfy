/** Which node of a list is linked into which circle, and how that map changes when circles are relinked. */
module UtCircles {
  import opened Basics
  import opened UtList

  /** For every node, the circle it is linked into, written down from some node on. */
  type Circles<!T> = map<Node<T>, seq<Node<T>>>

  /** The circles partition the nodes, every circle has a tag head, and only tag heads are without data. */
  ghost predicate Partition<T>(circles: Circles<T>, tags: seq<Node<T>>) {
    && (forall n, m :: n in circles && m in circles[n] ==> m in circles && circles[m] == circles[n])
    && (forall n :: n in circles ==> n in circles[n] && HasTagHead(circles[n], tags))
    && (forall n :: n in circles && n.data == None ==> n in tags)
    && (forall t :: 0 <= t < |tags| ==> tags[t].data == None && tags[t].tag == t && tags[t] in circles)
  }

  ghost predicate HasTagHead<T>(r: seq<Node<T>>, tags: seq<Node<T>>) {
    exists t :: 0 <= t < |tags| && tags[t] in r
  }

  /** The nodes of one circle have been linked into a new one; all other circles stay. */
  ghost function Relinked<T>(circles: Circles<T>, ring: seq<Node<T>>): Circles<T> {
    map n | n in circles.Keys + (set m | m in ring) :: if n in ring then ring else circles[n]
  }

  lemma RelinkedRings<T>(circles: Circles<T>, s: seq<Node<T>>)
    requires Ring(s) && forall n :: n in circles && n !in s ==> Ring(circles[n])
    ensures forall n :: n in Relinked(circles, s) ==> Ring(Relinked(circles, s)[n])
  {
  }

  lemma InsertedNodes<T>(before: seq<Node<T>>, existing: Node<T>, after: seq<Node<T>>, newNode: Node<T>)
    ensures forall n :: n in Inserted(before, existing, after, newNode) <==>
                        n in before + [existing] + after || n == newNode
  {
  }

  lemma TagHeadCircle<T>(circles: Circles<T>, tags: seq<Node<T>>, tag: nat, before: seq<Node<T>>, after: seq<Node<T>>)
    requires Partition(circles, tags) && tag < |tags|
    requires tags[tag] in circles ==> circles[tags[tag]] == before + [tags[tag]] + after
    ensures tags[tag] in circles && tags[tag].data == None && tags[tag].tag == tag
    ensures var r := before + [tags[tag]] + after; r[|before|] == tags[tag] && forall n :: n in r ==> n in circles
  {
  }

  /** Circles with a node outside r share nothing with r. */
  lemma OtherCircles<T>(circles: Circles<T>, tags: seq<Node<T>>, h: Node<T>, n: Node<T>)
    requires Partition(circles, tags) && h in circles && n in circles && n !in circles[h]
    ensures forall m :: m in circles[n] ==> m in circles && m !in circles[h] && circles[m] == circles[n]
  {
    assert forall m :: m in circles[h] ==> m in circles && circles[m] == circles[h];
    assert forall m :: m in circles[n] ==> m in circles && circles[m] == circles[n];
  }

  /** Relinking one circle, with one data node more, keeps the partition. */
  lemma RelinkedPartition<T>(circles: Circles<T>, tags: seq<Node<T>>, tagHead: Node<T>, s: seq<Node<T>>,
                             newNode: Node<T>)
    requires Partition(circles, tags) && tagHead in tags && tagHead in circles
    requires newNode !in circles && newNode.data != None
    requires forall n :: n in s <==> n in circles[tagHead] || n == newNode
    ensures Partition(Relinked(circles, s), tags)
  {
    var c := Relinked(circles, s);
    forall n | n in c
      ensures n in c[n] && HasTagHead(c[n], tags) && (n.data == None ==> n in tags)
      ensures forall m :: m in c[n] ==> m in c && c[m] == c[n]
    {
      if n in s {
        var t :| 0 <= t < |tags| && tags[t] == tagHead;
        assert tags[t] in s;
        assert n != newNode ==> n in circles;
      } else {
        OtherCircles(circles, tags, tagHead, n);
        assert forall m :: m in circles[n] ==> m !in s;
      }
    }
    forall t | 0 <= t < |tags| ensures tags[t] in c {
      assert tags[t] in circles;
    }
  }

  lemma BeforeRelinking<T>(circles: Circles<T>, tags: seq<Node<T>>, tag: nat,
                           before: seq<Node<T>>, after: seq<Node<T>>, newNode: Node<T>)
    requires Partition(circles, tags) && tag < |tags| && newNode !in circles && newNode.data != None
    requires tags[tag] in circles && circles[tags[tag]] == before + [tags[tag]] + after
    requires forall n :: n in circles ==> Ring(circles[n])
    ensures var h := tags[tag];
      && Ring(before + [h] + after) && newNode !in before + [h] + after
      && h.prev in circles && h.prev in circles[h] && h in circles[h] && h.data == None
    ensures Partition(Relinked(circles, Inserted(before, tags[tag], after, newNode)), tags)
    ensures forall n :: n in circles[tags[tag]] ==> n in Inserted(before, tags[tag], after, newNode)
  {
    hide Ring, Partition, Relinked;
    TagHeadCircle(circles, tags, tag, before, after);
    Neighbours(before + [tags[tag]] + after, |before|);
    InsertedNodes(before, tags[tag], after, newNode);
    RelinkedPartition(circles, tags, tags[tag], Inserted(before, tags[tag], after, newNode), newNode);
  }

  // ----- Merging -----

  /** What comes before and after the first occurrence of an element. */
  ghost function Around<A>(s: seq<A>, x: A): (r: (seq<A>, seq<A>))
    requires x in s
    ensures s == r.0 + [x] + r.1 && x !in r.0
    decreases |s|
  {
    if s[0] == x then ([], s[1..])
    else
      var (a, b) := Around(s[1..], x);
      ([s[0]] + a, b)
  }

  /** The rest of a circle, read from one of its nodes on. */
  ghost function RestFrom<T>(circle: seq<Node<T>>, h: Node<T>): seq<Node<T>>
    requires h in circle
  {
    Around(circle, h).1 + Around(circle, h).0
  }

  /** The parts that a merge of two heads works on: the circle of each, or the two arcs of the circle they share. */
  ghost function MergeParts<T>(circles: Circles<T>, h1: Node<T>, h2: Node<T>): (seq<Node<T>>, seq<Node<T>>)
    requires h1 in circles && h1 in circles[h1] && h2 in circles && h2 in circles[h2]
  {
    var rest := RestFrom(circles[h1], h1);
    if h1 != h2 && h2 in rest then Around(rest, h2) else (rest, RestFrom(circles[h2], h2))
  }

  /** The nodes of one circle have been linked into two. */
  ghost function Divided<T>(circles: Circles<T>, a: seq<Node<T>>, b: seq<Node<T>>): Circles<T> {
    map n | n in circles :: if n in a then a else if n in b then b else circles[n]
  }

  /** The circles after a merge: two circles become one, a circle with both heads becomes two. */
  ghost function TailsExchanged<T>(circles: Circles<T>, h1: Node<T>, h2: Node<T>): Circles<T>
    requires h1 in circles && h1 in circles[h1] && h2 in circles && h2 in circles[h2]
  {
    var (rest1, rest2) := MergeParts(circles, h1, h2);
    if h1 == h2 then circles
    else if h2 in circles[h1] then Divided(circles, [h1] + rest1, [h2] + rest2)
    else Relinked(circles, [h1] + rest1 + ([h2] + rest2))
  }

  /** Merging two circles that both start at their heads. */
  lemma ExchangedFromHeads<T>(circles: Circles<T>, h1: Node<T>, h2: Node<T>, rest1: seq<Node<T>>, rest2: seq<Node<T>>)
    requires h1 in circles && circles[h1] == [h1] + rest1 && h2 in circles && circles[h2] == [h2] + rest2
    requires h2 !in circles[h1]
    ensures h1 in circles[h1] && h2 in circles[h2]
    ensures TailsExchanged(circles, h1, h2) == Relinked(circles, [h1] + rest1 + ([h2] + rest2))
  {
    hide Relinked;
    assert circles[h1][1..] == rest1 && circles[h2][1..] == rest2;
    assert circles[h1][0] == h1 && circles[h2][0] == h2;
    assert rest1 + [] == rest1 && rest2 + [] == rest2;
  }

  lemma RingFrom<T>(circle: seq<Node<T>>, h: Node<T>)
    requires h in circle
    ensures Ring([h] + RestFrom(circle, h)) <==> Ring(circle)
    ensures forall n :: n in [h] + RestFrom(circle, h) <==> n in circle
  {
    hide Ring;
    var (before, after) := Around(circle, h);
    assert [h] + (after + before) == [h] + after + before;
    if Ring(circle) {
      ReadFrom(before, h, after);
    }
    if Ring([h] + (after + before)) {
      Rotate([h] + after, before);
      assert before + ([h] + after) == circle;
    }
  }

  /** The nodes that a merge touches are those of the circles of the two heads. */
  ghost predicate CoversBoth<T>(circles: Circles<T>, h1: Node<T>, h2: Node<T>, rest1: seq<Node<T>>, rest2: seq<Node<T>>)
    requires h1 in circles && h2 in circles
  {
    && (forall n :: n in circles[h1] ==> n in circles && (n in [h1] + rest1 || n in [h2] + rest2))
    && (forall n :: n in circles[h2] ==> n in circles && (n in [h1] + rest1 || n in [h2] + rest2))
    && (forall n :: n in [h1] + rest1 ==> n in circles[h1] || n in circles[h2])
    && (forall n :: n in [h2] + rest2 ==> n in circles[h1] || n in circles[h2])
  }

  ghost predicate Mergeable<T>(circles: Circles<T>, tags: seq<Node<T>>, h1: Node<T>, h2: Node<T>) {
    && Partition(circles, tags)
    && h1 in circles && h1 in circles[h1] && h1 in tags
    && h2 in circles && h2 in circles[h2] && h2 in tags
  }

  lemma HeadsAreMergeable<T>(circles: Circles<T>, tags: seq<Node<T>>, tag1: nat, tag2: nat)
    requires Partition(circles, tags) && tag1 < |tags| && tag2 < |tags|
    ensures Mergeable(circles, tags, tags[tag1], tags[tag2])
  {
    TagInCircle(circles, tags, tag1);
    TagInCircle(circles, tags, tag2);
  }

  /** A head merged with itself. */
  lemma BeforeMergingSame<T>(circles: Circles<T>, tags: seq<Node<T>>, h: Node<T>)
    requires Mergeable(circles, tags, h, h) && Ring(circles[h])
    ensures var (rest1, rest2) := MergeParts(circles, h, h);
            MayMerge(h, h, rest1, rest2) && CoversBoth(circles, h, h, rest1, rest2)
  {
    hide Ring, RestFrom;
    RingFrom(circles[h], h);
    OneCircle(circles, tags, h);
    assert Ring([h] + RestFrom(circles[h], h));
    assert MayMerge(h, h, RestFrom(circles[h], h), RestFrom(circles[h], h));
  }

  /** Two circles, about to become one. */
  lemma BeforeMergingApart<T>(circles: Circles<T>, tags: seq<Node<T>>, h1: Node<T>, h2: Node<T>)
    requires Mergeable(circles, tags, h1, h2) && Ring(circles[h1]) && Ring(circles[h2]) && h2 !in circles[h1]
    ensures var (rest1, rest2) := MergeParts(circles, h1, h2);
      && MayMerge(h1, h2, rest1, rest2) && !Ring([h1] + rest1 + ([h2] + rest2))
      && CoversBoth(circles, h1, h2, rest1, rest2)
    ensures Partition(TailsExchanged(circles, h1, h2), tags)
  {
    hide Ring, RestFrom, Partition, Relinked, Disjoint;
    var (rest1, rest2) := MergeParts(circles, h1, h2);
    RingFrom(circles[h1], h1);
    RingFrom(circles[h2], h2);
    OneCircle(circles, tags, h1);
    OneCircle(circles, tags, h2);
    OtherCircles(circles, tags, h1, h2);
    NothingShared([h1] + rest1, [h2] + rest2);
    NotYetJoined([h1] + rest1, [h2] + rest2);
    MergedPartition(circles, tags, h1, h2, [h1] + rest1 + ([h2] + rest2));
  }

  /** One circle with both heads in it, about to come apart. */
  lemma BeforeMergingWithin<T>(circles: Circles<T>, tags: seq<Node<T>>, h1: Node<T>, h2: Node<T>)
    requires Mergeable(circles, tags, h1, h2) && Ring(circles[h1]) && h1 != h2 && h2 in circles[h1]
    ensures var (rest1, rest2) := MergeParts(circles, h1, h2);
      && MayMerge(h1, h2, rest1, rest2) && Ring([h1] + rest1 + ([h2] + rest2))
      && CoversBoth(circles, h1, h2, rest1, rest2)
    ensures Partition(TailsExchanged(circles, h1, h2), tags)
  {
    hide Ring, RestFrom, Partition, Relinked;
    var (rest1, rest2) := MergeParts(circles, h1, h2);
    RingFrom(circles[h1], h1);
    OneCircle(circles, tags, h1);
    assert [h1] + rest1 + ([h2] + rest2) == [h1] + RestFrom(circles[h1], h1);
    SplitPartition(circles, tags, h1, h2, [h1] + rest1, [h2] + rest2);
  }

  /** What a merge demands, and that it leaves a partition. */
  lemma BeforeMerging<T>(circles: Circles<T>, tags: seq<Node<T>>, h1: Node<T>, h2: Node<T>)
    requires Mergeable(circles, tags, h1, h2) && forall n :: n in circles ==> Ring(circles[n])
    ensures var (rest1, rest2) := MergeParts(circles, h1, h2);
      && MayMerge(h1, h2, rest1, rest2) && CoversBoth(circles, h1, h2, rest1, rest2)
      && (h1 != h2 ==> (Ring([h1] + rest1 + ([h2] + rest2)) <==> h2 in circles[h1]))
    ensures Partition(TailsExchanged(circles, h1, h2), tags)
    ensures h1.prev in circles && h1.prev in circles[h1] && h2.prev in circles && h2.prev in circles[h2]
  {
    hide Ring, Partition, MayMerge, MergeParts, CoversBoth, Relinked, Divided;
    HeadNeighbours(circles, tags, h1);
    HeadNeighbours(circles, tags, h2);
    if h1 == h2 {
      BeforeMergingSame(circles, tags, h1);
    } else if h2 in circles[h1] {
      BeforeMergingWithin(circles, tags, h1, h2);
    } else {
      BeforeMergingApart(circles, tags, h1, h2);
    }
  }

  lemma HeadNeighbours<T>(circles: Circles<T>, tags: seq<Node<T>>, h: Node<T>)
    requires Partition(circles, tags) && h in circles && h in circles[h] && Ring(circles[h])
    ensures h.prev in circles && h.prev in circles[h]
  {
    hide Ring;
    var i :| 0 <= i < |circles[h]| && circles[h][i] == h;
    Neighbours(circles[h], i);
    OneCircle(circles, tags, h);
  }

  lemma OneCircle<T>(circles: Circles<T>, tags: seq<Node<T>>, h: Node<T>)
    requires Partition(circles, tags) && h in circles
    ensures forall n :: n in circles[h] ==> n in circles && circles[n] == circles[h]
  {
  }

  /** Rings that are rebuilt from their parts, and rings that a merge does not touch. */
  lemma ExchangedRings<T>(circles: Circles<T>, tags: seq<Node<T>>, h1: Node<T>, h2: Node<T>)
    requires Mergeable(circles, tags, h1, h2)
    requires forall n :: n in circles && n !in circles[h1] && n !in circles[h2] ==> Ring(circles[n])
    requires var (rest1, rest2) := MergeParts(circles, h1, h2);
      && CoversBoth(circles, h1, h2, rest1, rest2)
      && if h1 == h2 || h2 in circles[h1] then Ring([h1] + rest1) && Ring([h2] + rest2)
         else Ring([h1] + rest1 + ([h2] + rest2))
    ensures TailsExchanged(circles, h1, h2).Keys == circles.Keys
    ensures forall n :: n in TailsExchanged(circles, h1, h2) ==> Ring(TailsExchanged(circles, h1, h2)[n])
  {
    hide Ring, RestFrom;
    OneCircle(circles, tags, h1);
    if h1 == h2 {
      RingFrom(circles[h1], h1);
    } else if h2 in circles[h1] {
      OneCircle(circles, tags, h2);
    }
  }

  lemma NotYetJoined<T>(a: seq<Node<T>>, b: seq<Node<T>>)
    requires Ring(a) && Ring(b) && Disjoint(a, b)
    ensures !Ring(a + b)
  {
    Join(a, b);
    Neighbours(a, |a| - 1);
  }

  lemma NothingShared<A>(a: seq<A>, b: seq<A>)
    requires forall x :: x in a ==> x !in b
    ensures Disjoint(a, b)
  {
    forall i, j | 0 <= i < |a| && 0 <= j < |b| ensures a[i] != b[j] {
      assert a[i] in a && b[j] in b;
    }
  }

  lemma MergedPartition<T>(circles: Circles<T>, tags: seq<Node<T>>, h1: Node<T>, h2: Node<T>, s: seq<Node<T>>)
    requires Partition(circles, tags) && h1 in circles && h2 in circles && h1 in tags && h1 in s
    requires forall n :: n in s <==> n in circles[h1] || n in circles[h2]
    ensures Partition(Relinked(circles, s), tags)
  {
    var c := Relinked(circles, s);
    InTags(h1, s, tags);
    assert forall n :: n in s ==> n in circles;
    forall n | n in c && n !in s
      ensures n in c[n] && HasTagHead(c[n], tags) && forall m :: m in c[n] ==> m in c && c[m] == c[n]
    {
      OtherCircles(circles, tags, h1, n);
      OtherCircles(circles, tags, h2, n);
    }
    assert forall n :: n in s ==> n in c && c[n] == s;
    assert forall t :: 0 <= t < |tags| ==> tags[t] in circles && tags[t] in c;
  }

  /** What a partition says about one node. */
  ghost predicate NodeFits<T>(circles: Circles<T>, tags: seq<Node<T>>, n: Node<T>) {
    && n in circles && n in circles[n] && HasTagHead(circles[n], tags) && (n.data == None ==> n in tags)
    && forall m :: m in circles[n] ==> m in circles && circles[m] == circles[n]
  }

  lemma AllNodesFit<T>(circles: Circles<T>, tags: seq<Node<T>>)
    requires forall n :: n in circles ==> NodeFits(circles, tags, n)
    requires forall t :: 0 <= t < |tags| ==> tags[t].data == None && tags[t].tag == t && tags[t] in circles
    ensures Partition(circles, tags)
  {
  }

  lemma SplitPartition<T>(circles: Circles<T>, tags: seq<Node<T>>, h1: Node<T>, h2: Node<T>, a: seq<Node<T>>,
                          b: seq<Node<T>>)
    requires Partition(circles, tags) && h1 in circles && h1 in tags && h2 in tags && h1 in a && h2 in b
    requires Ring(a + b) && forall n :: n in a + b <==> n in circles[h1]
    ensures Partition(Divided(circles, a, b), tags)
  {
    hide Ring, HasTagHead, NodeFits;
    var c := Divided(circles, a, b);
    assert forall n :: n in a || n in b <==> n in a + b;
    ArcsAreDisjoint(a, b);
    InTags(h1, a, tags);
    InTags(h2, b, tags);
    forall n | n in c ensures NodeFits(c, tags, n) {
      DividedNode(circles, tags, h1, a, b, n);
    }
    TagsAreNodes(circles, tags);
    AllNodesFit(c, tags);
  }

  lemma DividedNode<T>(circles: Circles<T>, tags: seq<Node<T>>, h: Node<T>, a: seq<Node<T>>, b: seq<Node<T>>,
                       n: Node<T>)
    requires Partition(circles, tags) && h in circles && HasTagHead(a, tags) && HasTagHead(b, tags) && n in circles
    requires forall m :: m in circles[h] <==> m in a || m in b
    requires forall m :: m in a ==> m !in b
    ensures NodeFits(Divided(circles, a, b), tags, n)
  {
    hide HasTagHead;
    OneCircle(circles, tags, h);
    if n !in a && n !in b {
      OtherCircles(circles, tags, h, n);
    }
  }

  lemma InTags<T>(h: Node<T>, circle: seq<Node<T>>, tags: seq<Node<T>>)
    requires h in tags && h in circle
    ensures HasTagHead(circle, tags)
  {
    var t :| 0 <= t < |tags| && tags[t] == h;
  }

  lemma ArcsAreDisjoint<T>(a: seq<Node<T>>, b: seq<Node<T>>)
    requires Ring(a + b)
    ensures forall n :: n in a ==> n !in b
  {
    DistinctParts(a, b);
  }

  // ----- Emptying circles -----

  ghost predicate Emptied<T>(circle: seq<Node<T>>)
    reads circle
  {
    forall n :: n in circle ==> Retired(n)
  }

  /** What still hangs on a tag head: the rest of its circle, or nothing if that was emptied through another head. */
  lemma RestAt<T>(circles: Circles<T>, tags: seq<Node<T>>, tag: nat) returns (rest: seq<Node<T>>)
    requires Partition(circles, tags) && tag < |tags|
    requires Ring(circles[tags[tag]]) || Emptied(circles[tags[tag]])
    ensures Ring([tags[tag]] + rest)
    ensures forall n :: n in [tags[tag]] + rest ==> n in circles && n in circles[tags[tag]]
    ensures forall n :: n in circles[tags[tag]] && n !in [tags[tag]] + rest ==> Retired(n)
  {
    hide Ring, Partition;
    var h := tags[tag];
    TagInCircle(circles, tags, tag);
    var circle := circles[h];
    if Ring(circle) {
      var k :| 0 <= k < |circle| && circle[k] == h;
      assert circle == circle[..k] + [h] + circle[k + 1..];
      ReadFrom(circle[..k], h, circle[k + 1..]);
      rest := circle[k + 1..] + circle[..k];
    } else {
      rest := [];
      SelfLoop(h);
    }
  }

  lemma TagInCircle<T>(circles: Circles<T>, tags: seq<Node<T>>, tag: nat)
    requires Partition(circles, tags) && tag < |tags|
    ensures var h := tags[tag];
      && h in circles && h in circles[h] && h.data == None
      && forall n :: n in circles[h] ==> n in circles
  {
  }

  lemma SelfLoop<T>(h: Node<T>)
    requires h.data == None
    ensures Ring([h]) <==> Retired(h)
    ensures [h] + [] == [h]
  {
  }

  lemma AllEmptied<T>(circles: Circles<T>, tags: seq<Node<T>>)
    requires Partition(circles, tags)
    requires forall t :: 0 <= t < |tags| ==> Emptied(circles[tags[t]])
    ensures forall n :: n in circles ==> Retired(n)
  {
    forall n | n in circles ensures Retired(n) {
      var t :| 0 <= t < |tags| && tags[t] in circles[n];
      assert circles[tags[t]] == circles[n];
    }
  }

  predicate TagCircleIn<T>(circles: Circles<T>, tags: seq<Node<T>>, tag: nat) {
    tag < |tags| && tags[tag] in circles
  }

  lemma TagsAreNodes<T>(circles: Circles<T>, tags: seq<Node<T>>)
    requires Partition(circles, tags)
    ensures forall t :: 0 <= t < |tags| ==> tags[t] in circles && tags[t].data == None
    ensures forall n :: n in circles && n.data == None ==> n in tags
  {
  }

  /** A node's circle is that of h, or has no node in common with it. */
  lemma CircleOrOther<T>(circles: Circles<T>, tags: seq<Node<T>>, h: Node<T>, n: Node<T>)
    requires Partition(circles, tags) && h in circles && n in circles
    ensures circles[n] == circles[h] || forall m :: m in circles[n] ==> m in circles && m !in circles[h]
  {
    if n !in circles[h] {
      OtherCircles(circles, tags, h, n);
    }
  }
}
