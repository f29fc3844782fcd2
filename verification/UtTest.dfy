/** The unit-test executive on the heap: registration, the run over the merged list, and the end of the database. */
module UtTest {
  import opened Basics
  import opened UtList
  import opened UtCircles
  import opened UtListHead
  import opened UtAssert
  import opened UtRun
  import opened UtRunProperties
  import opened UtCalls
  import opened UtPlaces
  import UtNames

  class Runner {
    const dataBase: ListHead<Entry>
    const counters: Counters
    var executedCount: nat
    var exitCode: int
    /** What the user's functions will do when called, one list of actions a call. */
    var calls: seq<Script>

    ghost var place: NodePlace
    ghost var late: set<TestNode>
    ghost var run: Run

    ghost predicate Valid()
      reads this, dataBase, dataBase.circles.Keys, counters
    {
      && dataBase.Valid() && Links(dataBase.circles, dataBase.tags, place) && late <= dataBase.circles.Keys
      && counters.Valid() && run.tally == counters.State()
      && run.place == PlaceOf(place, late)
      && run.executedCount == executedCount
      && run.calls == calls
    }

    /** Nodes are added to the list and none is taken away. */
    twostate predicate Grows(nodes: set<TestNode>)
      reads this, dataBase
    {
      nodes <= dataBase.circles.Keys && fresh(dataBase.circles.Keys - nodes)
    }

    /** UtTest_EarlyInit. */
    constructor EarlyInit(calls: seq<Script>)
      ensures Valid() && run == Initial(calls) && place.SeparateNodes?
      ensures fresh(dataBase) && fresh(counters) && fresh(dataBase.circles.Keys)
    {
      var db := new ListHead<Entry>.Create(GROUP_MAX);
      dataBase := db;
      counters := new Counters();
      executedCount, exitCode := 0, OS_SUCCESS;
      this.calls := calls;
      place, late := SeparateNodes([[], [], [], []]), {};
      run := Initial(calls);
      new;
      EmptyPlace(late);
      EmptyLinks(dataBase.circles, dataBase.tags);
    }

    /** UtList_Add on the database: a data node is linked in where the place of the run has the item inserted. */
    method AddNode(entry: Entry, group: nat)
      requires dataBase.Valid() && Links(dataBase.circles, dataBase.tags, place) && late <= dataBase.circles.Keys
      modifies this`place, this`late, dataBase, dataBase.circles.Keys
      ensures dataBase.Valid() && Links(dataBase.circles, dataBase.tags, place) && late <= dataBase.circles.Keys
      ensures PlaceOf(place, late) == Insert(PlaceOf(old(place), old(late)), entry, group)
      ensures Grows(old(dataBase.circles.Keys)) && KeepsCursor(old(place), place)
    {
      hide ListHead.Valid, KeepsCursor, Links, Partition, Relinked, Inserted, PlaceOf, Grown, GrownLate, GroupGap;
      ghost var circles, tags := dataBase.circles, dataBase.tags;
      ghost var before, after := [], [];
      GroupHeads(circles, tags, place);
      if group < GROUP_MAX {
        before, after := GroupGap(circles, tags, place, group).0, GroupGap(circles, tags, place, group).1;
      }
      ghost var node := dataBase.Add(entry, group, before, after);
      if group < GROUP_MAX {
        dataBase.ValidPartition();
        GroupAdded(circles, dataBase.circles, tags, place, late, group, node, entry, before, after);
        late := GrownLate(place, tags, group, node, late);
        place := Grown(place, tags, group, node);
      } else {
        SameCursor(place);
      }
    }

    /** UtTest_AddCommon; a name that is too long for its field is cut. */
    method AddCommon(test: Fn, setup: Fn, teardown: Fn, testName: Option<string>, group: nat)
      requires Valid()
      modifies this`place, this`late, this`run, dataBase, dataBase.circles.Keys
      ensures Valid() && run == Registered(old(run), Entry(test, setup, teardown, StoredName(testName)), group)
      ensures Grows(old(dataBase.circles.Keys)) && KeepsCursor(old(place), place)
    {
      hide ListHead.Valid, KeepsCursor, Links, PlaceOf, Registered;
      var name: TestName := "";
      if testName != None {
        var s := testName.value;
        name := if |s| < TEST_NAME_SIZE then s else s[..TEST_NAME_SIZE - 1];
      }
      var entry := Entry(test, setup, teardown, name);
      AddNode(entry, group);
      InsertedIn(run, entry, group);
      run := Registered(run, entry, group);
    }

    method Add(test: Fn, setup: Fn, teardown: Fn, testName: Option<string>)
      requires Valid()
      modifies this`place, this`late, this`run, dataBase, dataBase.circles.Keys
      ensures Valid() && run == Registered(old(run), Entry(test, setup, teardown, StoredName(testName)), GROUP_TEST)
      ensures Grows(old(dataBase.circles.Keys)) && KeepsCursor(old(place), place)
    {
      AddCommon(test, setup, teardown, testName, GROUP_TEST);
    }

    method AddSetup(setup: Fn, testName: Option<string>)
      requires Valid()
      modifies this`place, this`late, this`run, dataBase, dataBase.circles.Keys
      ensures Valid() && run == Registered(old(run), Entry(0, setup, 0, StoredName(testName)), GROUP_SETUP)
      ensures Grows(old(dataBase.circles.Keys)) && KeepsCursor(old(place), place)
    {
      AddCommon(0, setup, 0, testName, GROUP_SETUP);
    }

    method AddTeardown(teardown: Fn, testName: Option<string>)
      requires Valid()
      modifies this`place, this`late, this`run, dataBase, dataBase.circles.Keys
      ensures Valid() && run == Registered(old(run), Entry(0, 0, teardown, StoredName(testName)), GROUP_TEARDOWN)
      ensures Grows(old(dataBase.circles.Keys)) && KeepsCursor(old(place), place)
    {
      AddCommon(0, 0, teardown, testName, GROUP_TEARDOWN);
    }

    /** UtTest_AddSubTest: the name is made of both names, and cut once more when it is stored. */
    method AddSubTest(test: Fn, setup: Fn, teardown: Fn, groupName: string, testName: string)
      requires Valid() && '\0' !in groupName && '\0' !in testName
      modifies this`place, this`late, this`run, dataBase, dataBase.circles.Keys
      ensures var name := StoredName(Some(UtNames.SubTestName(groupName, testName)));
        Valid() && run == Registered(old(run), Entry(test, setup, teardown, name), GROUP_TEST)
      ensures Grows(old(dataBase.circles.Keys)) && KeepsCursor(old(place), place)
    {
      hide Runner.Valid, KeepsCursor, Registered, StoredName, UtNames.SubTestName;
      var completeTestName := UtNames.CompleteTestName(groupName, testName);
      AddCommon(test, setup, teardown, Some(completeTestName), GROUP_TEST);
    }

    lemma TallyIsValid()
      requires Valid()
      ensures run.tally.Valid()
    {
    }

    /** One action of user code. */
    method Perform(action: Action)
      requires Valid()
      modifies this`place, this`late, this`run, dataBase, dataBase.circles.Keys, counters
      ensures Valid() && run == Act(old(run), action)
      ensures Grows(old(dataBase.circles.Keys)) && KeepsCursor(old(place), place)
    {
      hide Links, ListHead.Valid, KeepsCursor, PlaceOf;
      SameCursor(place);
      match action
      case Register(entry, group) =>
        AddCommon(entry.test, entry.setup, entry.teardown, Some(entry.name), group);
      case AssertTrue(pass) =>
        var _ := counters.AssertEx(pass, counters.context);
        run := Checked(run, Check(pass, run.tally.context));
      case AssertAs(pass, caseType) =>
        var _ := counters.AssertEx(pass, caseType);
        run := Checked(run, Check(pass, caseType));
    }

    /** User code in control: the actions of one call, or of the user's set-up function. */
    method PerformAll(actions: seq<Action>)
      requires Valid()
      modifies this`place, this`late, this`run, dataBase, dataBase.circles.Keys, counters
      ensures Valid() && run == ActAll(old(run), actions)
      ensures Grows(old(dataBase.circles.Keys)) && KeepsCursor(old(place), place)
    {
      hide Runner.Valid, KeepsCursor, Act;
      SameCursor(place);
      TallyIsValid();
      var k := 0;
      while k < |actions|
        invariant 0 <= k <= |actions| && Valid() && run.tally.Valid()
        invariant ActAll(run, actions[k..]) == ActAll(old(run), actions)
        invariant Grows(old(dataBase.circles.Keys)) && KeepsCursor(old(place), place)
      {
        ghost var before := place;
        Perform(actions[k]);
        TallyIsValid();
        CursorStays(old(place), before, place);
        assert actions[k..][1..] == actions[k + 1..];
        k := k + 1;
      }
    }

    /** Sets the context and calls one of the user's functions in it, unless the pointer is NULL. */
    method CallFn(context: nat, fn: Fn)
      requires Valid()
      modifies this, dataBase, dataBase.circles.Keys, counters
      ensures Valid() && run == Call(InContext(old(run), context), fn) && exitCode == old(exitCode)
      ensures Grows(old(dataBase.circles.Keys)) && KeepsCursor(old(place), place)
    {
      hide Links, ListHead.Valid, KeepsCursor, PlaceOf, ActAll, NextCall, CallsAfter;
      SameCursor(place);
      counters.SetContext(context);
      run := InContext(run, context);
      if fn != 0 {
        var actions := NextCall(calls, fn);
        calls := CallsAfter(calls, fn);
        run := Dispatched(run, fn);
        PerformAll(actions);
      }
    }

    method BeginTest(ghost entries: seq<Entry>)
      requires Valid()
      modifies this`run, counters
      ensures Valid() && run == BeginSegment(old(run).(visited := old(run).visited + entries))
    {
      hide Links, ListHead.Valid, PlaceOf;
      counters.BeginTest();
      run := BeginSegment(run.(visited := run.visited + entries));
    }

    method EndTest()
      requires Valid()
      modifies this`run, counters
      ensures Valid() && run == EndSegment(old(run))
    {
      hide Links, ListHead.Valid, PlaceOf;
      counters.EndTest();
      run := EndSegment(run);
    }

    method CountTest(test: Fn)
      requires Valid()
      modifies this`run, this`executedCount
      ensures Valid() && run == Counted(old(run), test)
    {
      hide Links, ListHead.Valid, PlaceOf;
      run := Counted(run, test);
      if test != 0 {
        executedCount := (executedCount + 1) % UINT32;
      }
    }

    /** One entry, as the loop of UtTest_Run executes it. */
    method Execute(entry: Entry)
      requires Valid()
      modifies this, dataBase, dataBase.circles.Keys, counters
      ensures Valid() && run == RunEntry(old(run), entry) && exitCode == old(exitCode)
      ensures Grows(old(dataBase.circles.Keys)) && KeepsCursor(old(place), place)
    {
      hide Runner.Valid, KeepsCursor, Call, BeginSegment, EndSegment, InContext, Counted;
      ghost var p0 := place;
      BeginTest([entry]);
      CallFn(TSF, entry.setup);
      ghost var p1 := place;
      CallFn(FAILURE, entry.test);
      ghost var p2 := place;
      CountTest(entry.test);
      CallFn(TTF, entry.teardown);
      EndTest();
      CursorStays(p0, p1, p2);
      CursorStays(p0, p2, place);
    }

    /** The user's own set-up function, wrapped in a segment. */
    method Setup(actions: seq<Action>)
      requires Valid() && place.SeparateNodes?
      modifies this, dataBase, dataBase.circles.Keys, counters
      ensures Valid() && run == EndSegment(ActAll(BeginSegment(old(run)), actions)) && place.SeparateNodes?
      ensures Grows(old(dataBase.circles.Keys))
    {
      hide Runner.Valid, ActAll, EndSegment;
      assert run.visited + [] == run.visited;
      BeginTest([]);
      PerformAll(actions);
      EndTest();
    }

    /** Merges the list of one more group into the default one. */
    method MergeGroup(group: nat, ghost groups: seq<seq<TestNode>>, ghost nodes: seq<TestNode>)
      requires dataBase.Valid() && 0 < group < GROUP_MAX
        && MergedUpTo(dataBase.circles, dataBase.tags, groups, group, nodes)
      modifies dataBase, dataBase.circles.Keys
      ensures dataBase.Valid() && dataBase.circles.Keys == old(dataBase.circles.Keys)
      ensures |dataBase.tags| == |groups| == GROUP_MAX
      ensures MergedUpTo(dataBase.circles, dataBase.tags, groups, group + 1,
        nodes + [dataBase.tags[group]] + groups[group])
    {
      hide ListHead.Valid, Relinked, Partition, TailsExchanged;
      ghost var was := dataBase.circles;
      NextGroupIsApart(was, dataBase.tags, groups, group, nodes, group);
      dataBase.MergeTags(GROUP_DEFAULT, group);
      ExchangedFromHeads(was, dataBase.tags[GROUP_DEFAULT], dataBase.tags[group], nodes, groups[group]);
      dataBase.ValidPartition();
      GroupMerged(was, dataBase.circles, dataBase.tags, groups, group, nodes);
    }

    /** The three merges of UtTest_Run. */
    method MergeGroups()
      requires Valid() && place.SeparateNodes?
      modifies this`place, this`run, dataBase, dataBase.circles.Keys
      ensures old(run).place.Separate? && |old(run).place.groups| == GROUP_MAX
      ensures Valid() && run == MergeLists(old(run)) && dataBase.circles.Keys == old(dataBase.circles.Keys)
      ensures place.MergedNodes? && place.done == [] && |dataBase.tags| == GROUP_MAX
    {
      hide Links, ListHead.Valid, PlaceOf, Partition, MergedUpTo;
      ghost var tags, groups := dataBase.tags, place.groups;
      NothingMerged(dataBase.circles, tags, groups);
      ghost var nodes := groups[GROUP_DEFAULT];
      MergeGroup(GROUP_SETUP, groups, nodes);
      nodes := nodes + [tags[GROUP_SETUP]] + groups[GROUP_SETUP];
      MergeGroup(GROUP_TEST, groups, nodes);
      nodes := nodes + [tags[GROUP_TEST]] + groups[GROUP_TEST];
      MergeGroup(GROUP_TEARDOWN, groups, nodes);
      nodes := nodes + [tags[GROUP_TEARDOWN]] + groups[GROUP_TEARDOWN];
      AllMerged(dataBase.circles, tags, groups, nodes);
      MergedPlace(tags, groups, late);
      place := MergedNodes([], nodes);
      run := MergeLists(run);
    }

    /** The cursor moves on by one node; what is left of the visit is to execute the node's entry. */
    ghost method Step()
      requires Valid() && place.MergedNodes? && place.ahead != [] && run.tally.Valid()
      modifies this`place, this`run
      ensures Valid() && place == Stepped(old(place)) && run.place.Merged? && run.tally.Valid()
      ensures old(run).place.Merged? && old(run).place.ahead != []
      ensures var data := old(place).ahead[0].data;
        Visit(old(run)) == if data.Some? then RunEntry(run, data.value) else run
      ensures Walk(old(run)) == Walk(Visit(old(run))) && Measure(Visit(old(run))) < Measure(old(run))
    {
      hide Links, ListHead.Valid, PlaceOf, Visit, Walk, Measure, RunEntry;
      StepLinks(dataBase.circles, dataBase.tags, place);
      StepPlace(run, place, late);
      VisitDecreases(run);
      place := Stepped(place);
      run := Advance(run);
    }

    /** UtTest_Run: the merges, the walk over a list that the callbacks may still add to, the end of the database. */
    method Run()
      requires Valid() && place.SeparateNodes?
      modifies this, dataBase, dataBase.circles.Keys, counters
      ensures run == Walk(MergeLists(old(run)))
      ensures exitCode == ExitCode(run.tally.total) && executedCount == run.executedCount
      ensures Grows(old(dataBase.circles.Keys)) && run.place == PlaceOf(place, late)
      ensures Links(dataBase.circles, dataBase.tags, place)
      ensures forall n :: n in dataBase.circles ==> n.next == n && n.prev == n && !n.live
    {
      hide Links, ListHead.Valid, PlaceOf, Visit, Walk, Measure, RunEntry, Advance;
      MergeGroups();
      var main := dataBase.tags[GROUP_DEFAULT];
      CursorNode(dataBase, place);
      var node := main.next;
      while node != main
        invariant Valid() && place.MergedNodes? && run.place.Merged? && run.tally.Valid()
        invariant node == if place.ahead == [] then main else place.ahead[0]
        invariant main !in place.ahead
        invariant Walk(run) == Walk(MergeLists(old(run)))
        invariant Grows(old(dataBase.circles.Keys))
        decreases Measure(run)
      {
        Step();
        if node.data.Some? {
          Execute(node.data.value);
        }
        CursorNode(dataBase, place);
        node := node.next;
      }
      WalkOver(run, place, late);
      dataBase.Destroy();
      exitCode := ExitCode(counters.total);
    }
  }

  /**
   * The process from start-up to its exit code: what was run and counted is the run that the application's actions
   * determine, the functions called are those of the entries executed, the exit code is decided by the checks that
   * these functions make, and every node the database ever held, linked in before or during the walk, is freed.
   */
  method RunApplication(actions: seq<Action>, calls: seq<Script>) returns (t: Runner)
    ensures fresh(t) && t.run == Application(actions, calls)
    ensures t.run.called == CallsOf(t.run.visited)
    ensures t.exitCode == ExitCode(TotalOf(UserSegments(actions, calls, t.run.visited)))
    ensures t.executedCount == TestsIn(t.run.visited) % UINT32
    ensures t.place.MergedNodes? && Items(t.place.done, t.late) == Application(actions, calls).place.done
    ensures forall n :: n in t.place.done ==> !n.live
    ensures var segments := UserSegments(actions, calls, t.run.visited);
      TotalChecks(segments) < UINT32 ==> (t.exitCode == OS_SUCCESS <==> NothingFails(segments))
  {
    hide Runner.Valid, Walk, ActAll, BeginSegment, EndSegment, Initial, MergeLists, TotalChecks, NothingFails, ExitCode,
      Links, UserSegments, TotalOf, CallsOf, TestsIn;
    t := new Runner.EarlyInit(calls);
    t.Setup(actions);
    t.Run();
    DoneNodes(t.dataBase.circles, t.dataBase.tags, t.place);
    FunctionsAreCalled(actions, calls);
    CountersAreTheUsers(actions, calls);
    ApplicationIsAccounted(actions, calls);
    if TotalChecks(UserSegments(actions, calls, Application(actions, calls).visited)) < UINT32 {
      VerdictOfTheRun(actions, calls);
    }
  }

  lemma DoneNodes(circles: Circles<Entry>, tags: seq<TestNode>, p: NodePlace)
    requires Links(circles, tags, p) && p.MergedNodes?
    ensures forall n :: n in p.done ==> n in circles
  {
    MergedFacts(circles, tags, p);
  }

  // ----- Merging the lists -----

  /** The lists of the groups below k hang on the default head, with the heads of the groups between them. */
  ghost predicate MergedUpTo(circles: Circles<Entry>, tags: seq<TestNode>, groups: seq<seq<TestNode>>, k: nat,
                             nodes: seq<TestNode>) {
    && Partition(circles, tags) && |tags| == |groups| == GROUP_MAX && 0 < k <= GROUP_MAX
    && circles[tags[GROUP_DEFAULT]] == [tags[GROUP_DEFAULT]] + nodes
    && (forall g :: 0 < g < k ==> tags[g] in nodes)
    && (forall g :: k <= g < GROUP_MAX ==> circles[tags[g]] == [tags[g]] + groups[g])
  }

  lemma NothingMerged(circles: Circles<Entry>, tags: seq<TestNode>, groups: seq<seq<TestNode>>)
    requires Links(circles, tags, SeparateNodes(groups))
    ensures |groups| == GROUP_MAX && MergedUpTo(circles, tags, groups, 1, groups[GROUP_DEFAULT])
  {
  }

  lemma EmptyPlace(late: set<TestNode>)
    ensures PlaceOf(SeparateNodes([[], [], [], []]), late) == Separate([[], [], [], []])
  {
    var p := PlaceOf(SeparateNodes([[], [], [], []]), late);
    assert forall g :: 0 <= g < 4 ==> p.groups[g] == [];
    assert p.groups == [[], [], [], []];
  }

  lemma EmptyLinks(circles: Circles<Entry>, tags: seq<TestNode>)
    requires Partition(circles, tags) && |tags| == GROUP_MAX
    requires forall t :: 0 <= t < GROUP_MAX ==> circles[tags[t]] == [tags[t]]
    ensures Links(circles, tags, SeparateNodes([[], [], [], []]))
  {
    var groups: seq<seq<TestNode>> := [[], [], [], []];
    assert forall g :: 0 <= g < GROUP_MAX ==> groups[g] == [];
    assert forall g :: 0 <= g < GROUP_MAX ==> [tags[g]] + groups[g] == [tags[g]];
  }

  lemma InsertedIn(r: Run, entry: Entry, group: nat)
    ensures var s := Registered(r, entry, group);
      && s.place == Insert(r.place, entry, group)
      && s.tally == r.tally && s.executedCount == r.executedCount && s.calls == r.calls
  {
    hide Insert;
  }

  /** Where the node of a new registration goes. */
  ghost function GroupGap(circles: Circles<Entry>, tags: seq<TestNode>, p: NodePlace, group: nat)
    : (r: (seq<TestNode>, seq<TestNode>))
    requires Links(circles, tags, p) && group < GROUP_MAX && |tags| == GROUP_MAX
    ensures tags[group] in circles && circles[tags[group]] == r.0 + [tags[group]] + r.1
  {
    PlaceFacts(circles, tags, p, group);
    GapFits(p, tags, group, tags[group]);
    Gap(p, tags, group)
  }

  lemma GroupAdded(was: Circles<Entry>, now: Circles<Entry>, tags: seq<TestNode>, p: NodePlace, late: set<TestNode>,
                   group: nat, node: TestNode, entry: Entry, before: seq<TestNode>, after: seq<TestNode>)
    requires Links(was, tags, p) && group < GROUP_MAX && late <= was.Keys
    requires node !in was && node.data == Some(entry)
    requires |tags| == GROUP_MAX && (before, after) == GroupGap(was, tags, p, group)
    requires Partition(now, tags) && now == Relinked(was, Inserted(before, tags[group], after, node))
    ensures p.SeparateNodes? ==> group < |p.groups|
    ensures Links(now, tags, Grown(p, tags, group, node)) && KeepsCursor(p, Grown(p, tags, group, node))
    ensures PlaceOf(Grown(p, tags, group, node), GrownLate(p, tags, group, node, late))
      == Insert(PlaceOf(p, late), entry, group)
    ensures GrownLate(p, tags, group, node, late) <= now.Keys == was.Keys + {node}
  {
    hide Partition, PlaceOf, Insert, Links, Grown, RingFor, KeepsCursor;
    PlaceFacts(was, tags, p, group);
    GapFits(p, tags, group, node);
    AddingIsInserting(was, tags, p, late, group, node, entry, before, after);
    InsertedNodes(before, tags[group], after, node);
    GrownKeepsCursor(p, tags, group, node);
    assert node in Inserted(before, tags[group], after, node);
  }

  lemma SameCursor(p: NodePlace)
    ensures KeepsCursor(p, p)
  {
  }

  lemma CursorStays(p: NodePlace, q: NodePlace, r: NodePlace)
    requires KeepsCursor(p, q) && KeepsCursor(q, r)
    ensures KeepsCursor(p, r)
  {
  }

  lemma NextGroupIsApart(circles: Circles<Entry>, tags: seq<TestNode>, groups: seq<seq<TestNode>>, k: nat,
                         nodes: seq<TestNode>, g: nat)
    requires MergedUpTo(circles, tags, groups, k, nodes) && k <= g < GROUP_MAX
    ensures tags[g] in circles && circles[tags[g]] == [tags[g]] + groups[g]
    ensures tags[0] in circles && circles[tags[0]] == [tags[0]] + nodes
    ensures tags[0] !in circles[tags[g]] && tags[g] !in circles[tags[0]]
  {
    TagInCircle(circles, tags, 0);
    TagInCircle(circles, tags, g);
    assert tags[g].tag != tags[0].tag;
    assert ([tags[g]] + groups[g])[0] != ([tags[0]] + nodes)[0];
  }

  lemma GroupMerged(was: Circles<Entry>, now: Circles<Entry>, tags: seq<TestNode>, groups: seq<seq<TestNode>>, k: nat,
                    nodes: seq<TestNode>)
    requires MergedUpTo(was, tags, groups, k, nodes) && k < GROUP_MAX && Partition(now, tags)
    requires now == Relinked(was, [tags[0]] + nodes + ([tags[k]] + groups[k]))
    ensures MergedUpTo(now, tags, groups, k + 1, nodes + [tags[k]] + groups[k])
    ensures now.Keys == was.Keys
  {
    hide Partition;
    var s, longer := [tags[0]] + nodes + ([tags[k]] + groups[k]), nodes + [tags[k]] + groups[k];
    NextGroupIsApart(was, tags, groups, k, nodes, k);
    TagInCircle(was, tags, 0);
    TagInCircle(was, tags, k);
    MergedStays(was, [tags[0]] + nodes, [tags[k]] + groups[k]);
    assert s == [tags[0]] + longer;
    assert s[0] == tags[0] && longer[|nodes|] == tags[k];
    forall g | 0 < g <= k ensures tags[g] in longer {
      assert g < k ==> tags[g] in nodes;
    }
    forall g | k + 1 <= g < GROUP_MAX ensures tags[g] in now && now[tags[g]] == [tags[g]] + groups[g] {
      NextGroupIsApart(was, tags, groups, k, nodes, g);
      GroupsApart(was, tags, groups, k, nodes, g);
    }
  }

  lemma MergedStays(was: Circles<Entry>, a: seq<TestNode>, b: seq<TestNode>)
    requires forall n :: n in a ==> n in was
    requires forall n :: n in b ==> n in was
    ensures Relinked(was, a + b).Keys == was.Keys
  {
    var s := a + b;
    assert forall n :: n in s ==> n in was;
    assert Relinked(was, s).Keys == was.Keys + (set m | m in s);
  }

  lemma GroupsApart(was: Circles<Entry>, tags: seq<TestNode>, groups: seq<seq<TestNode>>, k: nat, nodes: seq<TestNode>,
                    g: nat)
    requires MergedUpTo(was, tags, groups, k, nodes) && k < g < GROUP_MAX
    ensures tags[g] in was && tags[g] !in [tags[k]] + groups[k]
  {
    TagInCircle(was, tags, k);
    TagInCircle(was, tags, g);
    assert tags[g].tag != tags[k].tag;
    assert ([tags[g]] + groups[g])[0] != ([tags[k]] + groups[k])[0];
  }

  lemma AllMerged(circles: Circles<Entry>, tags: seq<TestNode>, groups: seq<seq<TestNode>>, nodes: seq<TestNode>)
    requires MergedUpTo(circles, tags, groups, GROUP_MAX, nodes)
    ensures Links(circles, tags, MergedNodes([], nodes))
    ensures forall t :: 0 <= t < GROUP_MAX ==> tags[t].data == None && tags[t].tag == t
  {
    var s := [tags[0]] + nodes;
    assert [] + nodes == nodes;
    forall n | n in circles ensures circles[n] == s {
      var t :| 0 <= t < |tags| && tags[t] in circles[n];
      assert tags[t] in s;
    }
  }

  lemma ItemsOfParts(a: seq<TestNode>, h: TestNode, b: seq<TestNode>, late: set<TestNode>)
    requires h.data == None
    ensures Items(a + [h] + b, late) == Items(a, late) + [Head(h.tag)] + Items(b, late)
  {
  }

  ghost function MergedFrom(tags: seq<TestNode>, groups: seq<seq<TestNode>>): seq<TestNode>
    requires |tags| == |groups| == GROUP_MAX
  {
    groups[0] + [tags[1]] + groups[1] + [tags[2]] + groups[2] + [tags[3]] + groups[3]
  }

  /** The merged nodes stand for the merged items. */
  lemma MergedPlace(tags: seq<TestNode>, groups: seq<seq<TestNode>>, late: set<TestNode>)
    requires |tags| == |groups| == GROUP_MAX
    requires forall t :: 0 <= t < GROUP_MAX ==> tags[t].data == None && tags[t].tag == t
    ensures PlaceOf(SeparateNodes(groups), late).Separate? && |PlaceOf(SeparateNodes(groups), late).groups| == GROUP_MAX
    ensures PlaceOf(MergedNodes([], MergedFrom(tags, groups)), late)
         == Merged([], MergedItems(PlaceOf(SeparateNodes(groups), late).groups, GROUP_DEFAULT))
  {
    var items := PlaceOf(SeparateNodes(groups), late).groups;
    var i0, i1, i2, i3 :=
      Items(groups[0], late), Items(groups[1], late), Items(groups[2], late), Items(groups[3], late);
    assert items == [i0, i1, i2, i3];
    hide Items;
    ItemsOfParts(groups[0], tags[1], groups[1], late);
    ItemsOfParts(groups[0] + [tags[1]] + groups[1], tags[2], groups[2], late);
    ItemsOfParts(groups[0] + [tags[1]] + groups[1] + [tags[2]] + groups[2], tags[3], groups[3], late);
    assert MergedItems(items, 3) == i3;
    assert MergedItems(items, 2) == i2 + [Head(3)] + i3;
    assert MergedItems(items, 1) == i1 + [Head(2)] + (i2 + [Head(3)] + i3);
    assert MergedItems(items, 0) == i0 + [Head(1)] + (i1 + [Head(2)] + (i2 + [Head(3)] + i3));
    assert i0 + [Head(1)] + i1 + [Head(2)] + i2 + [Head(3)] + i3 == MergedItems(items, 0);
    assert Items([], late) == [];
  }

  // ----- The walk -----

  ghost function Stepped(p: NodePlace): NodePlace
    requires p.MergedNodes? && p.ahead != []
  {
    MergedNodes(p.done + [p.ahead[0]], p.ahead[1..])
  }

  lemma StepLinks(circles: Circles<Entry>, tags: seq<TestNode>, p: NodePlace)
    requires Links(circles, tags, p) && p.MergedNodes? && p.ahead != []
    ensures Links(circles, tags, Stepped(p))
  {
    assert Stepped(p).done + Stepped(p).ahead == p.done + p.ahead;
  }

  lemma StepPlace(r: Run, p: NodePlace, late: set<TestNode>)
    requires r.place == PlaceOf(p, late) && r.tally.Valid() && p.MergedNodes? && p.ahead != []
    ensures r.place.Merged? && r.place.ahead != [] && Advance(r).place == PlaceOf(Stepped(p), late)
    ensures var s := Advance(r); s.tally == r.tally && s.executedCount == r.executedCount && s.calls == r.calls
    ensures var data := p.ahead[0].data; Visit(r) == if data.Some? then RunEntry(Advance(r), data.value) else Advance(r)
    ensures Walk(r) == Walk(Visit(r))
  {
    hide RunEntry;
    var q := Stepped(p);
    assert Items(q.done, late) == Items(p.done, late) + [ItemOf(p.ahead[0], late)];
    assert Items(q.ahead, late) == Items(p.ahead, late)[1..];
  }

  lemma WalkOver(r: Run, p: NodePlace, late: set<TestNode>)
    requires r.place == PlaceOf(p, late) && r.tally.Valid() && p.MergedNodes? && p.ahead == []
    ensures r.place.Merged? && Walk(r) == r
  {
  }

  /** The node the cursor moves to next; it is reached through a node that is still allocated. */
  lemma CursorNode(dataBase: ListHead<Entry>, p: NodePlace)
    requires dataBase.Valid() && Links(dataBase.circles, dataBase.tags, p) && p.MergedNodes?
    ensures |dataBase.tags| == GROUP_MAX
    ensures var main := dataBase.tags[GROUP_DEFAULT];
      var cursor := if p.done == [] then main else p.done[|p.done| - 1];
      main !in p.ahead && cursor.live && cursor.next == if p.ahead == [] then main else p.ahead[0]
  {
    NextOfCursor(dataBase.circles, dataBase.tags, p);
    HeadIsNotAhead(dataBase.circles, dataBase.tags, p);
  }

  lemma HeadIsNotAhead(circles: Circles<Entry>, tags: seq<TestNode>, p: NodePlace)
    requires Links(circles, tags, p) && p.MergedNodes? && forall n :: n in circles ==> Ring(circles[n])
    ensures tags[GROUP_DEFAULT] !in p.ahead
  {
    PlaceFacts(circles, tags, p, GROUP_DEFAULT);
    var ring := RingFor(p, tags, GROUP_DEFAULT);
    assert Ring(ring) && ring[0] == tags[GROUP_DEFAULT];
    forall k | 0 <= k < |p.ahead| ensures p.ahead[k] != tags[GROUP_DEFAULT] {
      assert ring[1 + |p.done| + k] == p.ahead[k];
    }
  }
}
