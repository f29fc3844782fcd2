/** Registrations made while an entry is executed: which of them are run, and what the test groups promise about it. */
module UtNestedTests {
  import opened UtAssert
  import opened UtRun
  import opened UtRunProperties

  // ----- Registrations while an entry is executed -----

  /**
   * While the head of a group stays on one side of the cursor, every registration in that group is late, or every one
   * is on time.
   */
  ghost predicate Decided(r: Run, group: nat, since: nat, late: bool) {
    && r.place.Merged? && (Head(group) in r.place.ahead <==> !late)
    && since <= |r.registered|
    && forall k :: since <= k < |r.registered| && r.registered[k].group == group ==> r.registered[k].late == late
  }

  lemma {:induction false} InsertAddsNoHead(items: seq<Item>, group: nat, item: Item, h: Item)
    requires item.Reg? && h.Head?
    ensures h in InsertBeforeHead(items, group, item) <==> h in items
    decreases |items|
  {
    if items != [] {
      InsertAddsNoHead(items[1..], group, item, h);
    }
  }

  lemma {:induction false} ActionsKeepDecided(r: Run, actions: seq<Action>, group: nat, since: nat, late: bool)
    requires r.tally.Valid() && group != GROUP_DEFAULT && Decided(r, group, since, late)
    ensures Decided(ActAll(r, actions), group, since, late) && r.registered <= ActAll(r, actions).registered
    decreases |actions|
  {
    if actions != [] {
      var a := actions[0];
      if a.Register? {
        InsertAddsNoHead(r.place.ahead, a.group, Reg(a.entry, false), Head(group));
      }
      ActionsKeepDecided(Act(r, a), actions[1..], group, since, late);
    }
  }

  lemma CallKeepsDecided(r: Run, fn: Fn, group: nat, since: nat, late: bool)
    requires r.tally.Valid() && group != GROUP_DEFAULT && Decided(r, group, since, late)
    ensures Decided(Call(r, fn), group, since, late) && r.registered <= Call(r, fn).registered
  {
    if fn != 0 {
      ActionsKeepDecided(Dispatched(r, fn), NextCall(r.calls, fn), group, since, late);
    }
  }

  lemma EntryKeepsDecided(r: Run, e: Entry, group: nat, since: nat, late: bool)
    requires r.tally.Valid() && group != GROUP_DEFAULT && Decided(r, group, since, late)
    ensures Decided(RunEntry(r, e), group, since, late) && r.registered <= RunEntry(r, e).registered
  {
    hide Call;
    var r0 := InContext(BeginSegment(r.(visited := r.visited + [e])), TSF);
    var r1 := InContext(Call(r0, e.setup), FAILURE);
    var r2 := InContext(Counted(Call(r1, e.test), e.test), TTF);
    CallKeepsDecided(r0, e.setup, group, since, late);
    CallKeepsDecided(r1, e.test, group, since, late);
    CallKeepsDecided(r2, e.teardown, group, since, late);
  }

  /**
   * Whatever an entry registers in a group while it is executed is late exactly if the head of that group is behind the
   * cursor. The default group has its head at the end and nothing in it is late.
   */
  lemma EntryDecides(r: Run, group: nat)
    requires r.tally.Valid() && r.place.Merged? && r.place.ahead != [] && r.place.ahead[0].Reg?
      && group != GROUP_DEFAULT
    ensures Decided(Visit(r), group, |r.registered|, Head(group) !in r.place.ahead)
    ensures r.registered <= Visit(r).registered
  {
    EntryKeepsDecided(Advance(r), r.place.ahead[0].entry, group, |r.registered|, Head(group) !in r.place.ahead);
  }

  lemma {:induction false} WalkKeepsDecided(r: Run, group: nat, since: nat)
    requires r.tally.Valid() && group != GROUP_DEFAULT && Decided(r, group, since, true)
    ensures Decided(Walk(r), group, since, true) && r.registered <= Walk(r).registered
    decreases Measure(r)
  {
    hide RunEntry;
    if r.place.ahead != [] {
      var a := Advance(r);
      if r.place.ahead[0].Reg? {
        EntryKeepsDecided(a, r.place.ahead[0].entry, group, since, true);
      }
      VisitDecreases(r);
      WalkKeepsDecided(Visit(r), group, since);
    }
  }

  /**
   * Once the walk has passed the head of a group, whatever is registered in that group during the rest of the run is
   * late, and so (RegistrationsRun) never run. The default group has its head at the end and is never closed.
   */
  lemma PassedGroupIsClosed(r: Run, group: nat)
    requires r.tally.Valid() && r.place.Merged? && group != GROUP_DEFAULT && Head(group) !in r.place.ahead
    ensures forall k :: |r.registered| <= k < |Walk(r).registered| && Walk(r).registered[k].group == group
                        ==> Walk(r).registered[k].late
  {
    WalkKeepsDecided(r, group, |r.registered|);
  }

  // ----- States of the walk -----

  /** The state after so many steps of the walk. */
  function Steps(r: Run, n: nat): (s: Run)
    requires r.tally.Valid() && r.place.Merged?
    ensures s.tally.Valid() && s.place.Merged?
    decreases n
  {
    if n == 0 || r.place.ahead == [] then r else Steps(Visit(r), n - 1)
  }

  /** The walk is at an entry, with the head of a group ahead of it or behind it. */
  ghost predicate AtEntry(r: Run, e: Entry, group: nat, headAhead: bool) {
    && r.place.Merged? && r.place.ahead != [] && r.place.ahead[0] == Reg(e, false)
    && (Head(group) in r.place.ahead <==> headAhead)
  }

  lemma {:induction false} StepsAreWalked(r: Run, n: nat)
    requires r.tally.Valid() && r.place.Merged?
    ensures Walk(Steps(r, n)) == Walk(r)
    decreases n
  {
    if n != 0 && r.place.ahead != [] {
      VisitDecreases(r);
      StepsAreWalked(Visit(r), n - 1);
    }
  }

  lemma {:induction false} WalkRemembers(r: Run)
    requires r.tally.Valid() && r.place.Merged?
    ensures r.registered <= Walk(r).registered
    decreases Measure(r)
  {
    hide RunEntry;
    if r.place.ahead != [] {
      if r.place.ahead[0].Reg? {
        EntryDecides(r, GROUP_TEST);
      }
      VisitDecreases(r);
      WalkRemembers(Visit(r));
    }
  }

  // ----- Tests registered at start-up -----

  /** What comes behind the first head of a group. */
  function Behind(items: seq<Item>, group: nat): seq<Item> {
    if Head(group) !in items then items
    else if items[0] == Head(group) then items[1..]
    else Behind(items[1..], group)
  }

  function OnTime(entries: seq<Entry>): (r: seq<Item>)
    ensures |r| == |entries|
  {
    seq(|entries|, i requires 0 <= i < |entries| => Reg(entries[i], false))
  }

  /** The tests come next once the test head is passed, and then, not before, the teardown head. */
  ghost predicate TestsAhead(items: seq<Item>, tests: seq<Entry>) {
    var rest := Behind(items, GROUP_TEST);
    OnTime(tests) <= rest && Head(GROUP_TEST) !in rest && Head(GROUP_TEARDOWN) in rest
  }

  lemma {:induction false} InsertedBehind(items: seq<Item>, group: nat, item: Item)
    requires item.Reg?
    ensures var s := InsertBeforeHead(items, group, item);
      Behind(s, GROUP_TEST) == Behind(items, GROUP_TEST)
      || Behind(s, GROUP_TEST) == InsertBeforeHead(Behind(items, GROUP_TEST), group, item)
    decreases |items|
  {
    InsertAddsNoHead(items, group, item, Head(GROUP_TEST));
    if items != [] && Head(GROUP_TEST) in items && items[0] != Head(GROUP_TEST) && items[0] != Head(group) {
      InsertedBehind(items[1..], group, item);
      InsertAddsNoHead(items[1..], group, item, Head(GROUP_TEST));
    }
  }

  lemma {:induction false} AppendedBehind(items: seq<Item>, item: Item)
    requires item.Reg?
    ensures Behind(items + [item], GROUP_TEST) == Behind(items, GROUP_TEST) + [item]
    decreases |items|
  {
    if Head(GROUP_TEST) in items {
      assert (items + [item])[1..] == items[1..] + [item];
      AppendedBehind(items[1..], item);
    }
  }

  lemma {:induction false} InsertedAfterTests(items: seq<Item>, tests: seq<Entry>, group: nat, item: Item)
    requires OnTime(tests) <= items
    ensures OnTime(tests) <= InsertBeforeHead(items, group, item)
    decreases |tests|
  {
    if tests != [] {
      assert OnTime(tests)[1..] == OnTime(tests[1..]);
      InsertedAfterTests(items[1..], tests[1..], group, item);
      assert OnTime(tests) == [items[0]] + OnTime(tests[1..]);
    }
  }

  lemma RegisterKeepsTests(r: Run, entry: Entry, group: nat, tests: seq<Entry>)
    requires r.place.Merged? && TestsAhead(r.place.ahead, tests)
    ensures TestsAhead(Registered(r, entry, group).place.ahead, tests)
  {
    hide Behind, InsertBeforeHead, OnTime;
    var ahead, item := r.place.ahead, Reg(entry, false);
    if group == GROUP_DEFAULT {
      AppendedBehind(ahead, item);
    } else if group < GROUP_MAX && Head(group) in ahead {
      var rest := Behind(ahead, GROUP_TEST);
      InsertedBehind(ahead, group, item);
      InsertedAfterTests(rest, tests, group, item);
      InsertAddsNoHead(rest, group, item, Head(GROUP_TEST));
      InsertAddsNoHead(rest, group, item, Head(GROUP_TEARDOWN));
    }
  }

  lemma {:induction false} ActionsKeepTests(r: Run, actions: seq<Action>, tests: seq<Entry>)
    requires r.tally.Valid() && r.place.Merged? && TestsAhead(r.place.ahead, tests)
    ensures TestsAhead(ActAll(r, actions).place.ahead, tests)
    decreases |actions|
  {
    hide TestsAhead;
    if actions != [] {
      var a := actions[0];
      if a.Register? {
        RegisterKeepsTests(r, a.entry, a.group, tests);
      }
      ActionsKeepTests(Act(r, a), actions[1..], tests);
    }
  }

  lemma CallKeepsTests(r: Run, fn: Fn, tests: seq<Entry>)
    requires r.tally.Valid() && r.place.Merged? && TestsAhead(r.place.ahead, tests)
    ensures TestsAhead(Call(r, fn).place.ahead, tests)
  {
    if fn != 0 {
      ActionsKeepTests(Dispatched(r, fn), NextCall(r.calls, fn), tests);
    }
  }

  lemma EntryKeepsTests(r: Run, e: Entry, tests: seq<Entry>)
    requires r.tally.Valid() && r.place.Merged? && TestsAhead(r.place.ahead, tests)
    ensures TestsAhead(RunEntry(r, e).place.ahead, tests)
  {
    hide Call, TestsAhead;
    var r0 := InContext(BeginSegment(r.(visited := r.visited + [e])), TSF);
    var r1 := InContext(Call(r0, e.setup), FAILURE);
    var r2 := InContext(Counted(Call(r1, e.test), e.test), TTF);
    CallKeepsTests(r0, e.setup, tests);
    CallKeepsTests(r1, e.test, tests);
    CallKeepsTests(r2, e.teardown, tests);
  }

  /** Before the test head is passed the cursor has no test behind it; from then on every step takes one test. */
  lemma AdvanceKeepsTests(items: seq<Item>, tests: seq<Entry>)
    requires TestsAhead(items, tests)
    ensures items != []
    ensures Head(GROUP_TEST) in items ==> TestsAhead(items[1..], tests)
    ensures Head(GROUP_TEST) !in items && tests != [] ==>
      items[0] == Reg(tests[0], false) && TestsAhead(items[1..], tests[1..])
  {
    if Head(GROUP_TEST) !in items && tests != [] {
      assert OnTime(tests)[0] == items[0];
      assert OnTime(tests)[1..] == OnTime(tests[1..]);
      assert OnTime(tests[1..]) <= items[1..];
    }
  }

  lemma VisitKeepsTests(r: Run, tests: seq<Entry>)
    requires r.tally.Valid() && r.place.Merged? && TestsAhead(r.place.ahead, tests)
    ensures r.place.ahead != []
    ensures Head(GROUP_TEST) in r.place.ahead ==> TestsAhead(Visit(r).place.ahead, tests)
    ensures Head(GROUP_TEST) !in r.place.ahead && tests != [] ==> TestsAhead(Visit(r).place.ahead, tests[1..])
  {
    hide TestsAhead, RunEntry;
    AdvanceKeepsTests(r.place.ahead, tests);
    var a := Advance(r);
    if r.place.ahead[0].Reg? {
      if Head(GROUP_TEST) in r.place.ahead {
        EntryKeepsTests(a, r.place.ahead[0].entry, tests);
      } else if tests != [] {
        EntryKeepsTests(a, r.place.ahead[0].entry, tests[1..]);
      }
    }
  }

  /** Every test comes under the cursor, the test head behind it and the teardown head ahead of it. */
  lemma {:induction false} TestIsReached(r: Run, tests: seq<Entry>, k: nat) returns (n: nat)
    requires r.tally.Valid() && r.place.Merged? && TestsAhead(r.place.ahead, tests) && k < |tests|
    ensures AtEntry(Steps(r, n), tests[k], GROUP_TEST, false) && AtEntry(Steps(r, n), tests[k], GROUP_TEARDOWN, true)
    ensures OnTime(tests[k..]) <= Steps(r, n).place.ahead
    decreases Measure(r)
  {
    hide Behind, OnTime, Visit;
    VisitKeepsTests(r, tests);
    AdvanceKeepsTests(r.place.ahead, tests);
    VisitDecreases(r);
    if Head(GROUP_TEST) in r.place.ahead {
      n := TestIsReached(Visit(r), tests, k);
      n := n + 1;
    } else if k > 0 {
      n := TestIsReached(Visit(r), tests[1..], k - 1);
      n := n + 1;
    } else {
      BehindNothing(r.place.ahead);
      n := 0;
    }
  }

  lemma BehindNothing(items: seq<Item>)
    requires Head(GROUP_TEST) !in items
    ensures Behind(items, GROUP_TEST) == items
  {
  }

  lemma {:induction false} AllOnTime(items: seq<Item>)
    requires OnlyEntries(items)
    ensures items == OnTime(EntriesOf(items, false))
    decreases |items|
  {
    if items != [] {
      AllOnTime(items[1..]);
      assert OnlyEntries(items[1..]);
      assert OnTime(EntriesOf(items, false)) == [items[0]] + OnTime(EntriesOf(items[1..], false));
    }
  }

  lemma {:induction false} BehindEntries(items: seq<Item>, h: nat, rest: seq<Item>)
    requires OnlyEntries(items) && Head(GROUP_TEST) in [Head(h)] + rest
    ensures Behind(items + [Head(h)] + rest, GROUP_TEST) == Behind([Head(h)] + rest, GROUP_TEST)
    decreases |items|
  {
    var all := items + [Head(h)] + rest;
    assert all[|items|..] == [Head(h)] + rest;
    if items != [] {
      assert all[1..] == items[1..] + [Head(h)] + rest;
      BehindEntries(items[1..], h, rest);
      assert forall x :: x in [Head(h)] + rest ==> x in all;
    }
  }

  lemma TestsAreAheadFirst(groups: seq<seq<Item>>)
    requires |groups| == GROUP_MAX && forall g :: 0 <= g < GROUP_MAX ==> OnlyEntries(groups[g])
    ensures TestsAhead(MergedItems(groups, 0), EntriesOf(groups[GROUP_TEST], false))
  {
    hide OnlyEntries, EntriesOf;
    var rest := groups[2] + [Head(3)] + groups[3];
    assert MergedItems(groups, 3) == groups[3];
    assert MergedItems(groups, 2) == rest;
    assert MergedItems(groups, 1) == groups[1] + [Head(2)] + rest;
    assert MergedItems(groups, 0) == groups[0] + [Head(1)] + MergedItems(groups, 1);
    assert ([Head(2)] + rest)[0] == Head(2) && ([Head(2)] + rest)[1..] == rest;
    BehindEntries(groups[1], 2, rest);
    assert MergedItems(groups, 1)[|groups[1]|] == Head(2);
    assert ([Head(1)] + MergedItems(groups, 1))[1..] == MergedItems(groups, 1);
    BehindEntries(groups[0], 1, MergedItems(groups, 1));
    AllOnTime(groups[2]);
    assert rest[|groups[2]|] == Head(3);
    NoHeads(groups[2]);
    NoHeads(groups[3]);
  }

  lemma NoHeads(items: seq<Item>)
    requires OnlyEntries(items)
    ensures forall x :: x in items ==> x.Reg?
  {
  }

  /**
   * A test registered at start-up is executed with the test head behind it: whatever tests are registered meanwhile are
   * late, and so never run, and whatever teardown entries are registered meanwhile are on time, and so run.
   */
  lemma StartupTestIgnoresNested(actions: seq<Action>, calls: seq<Script>, k: nat) returns (n: nat)
    requires k < |GroupEntries(actions, GROUP_TEST)|
    ensures var s := Steps(MergeLists(Startup(actions, calls)), n);
      && AtEntry(s, GroupEntries(actions, GROUP_TEST)[k], GROUP_TEST, false)
      && OnTime(GroupEntries(actions, GROUP_TEST)[k..]) <= s.place.ahead
      && s.registered <= Visit(s).registered <= Application(actions, calls).registered
      && forall j :: |s.registered| <= j < |Visit(s).registered| ==>
           && (Visit(s).registered[j].group == GROUP_TEST ==> Visit(s).registered[j].late)
           && (Visit(s).registered[j].group == GROUP_TEARDOWN ==> !Visit(s).registered[j].late)
  {
    hide Walk, ActAll, EntriesOf, GroupEntries, TestsAhead, MergedItems, OnlyEntries, Visit, Steps;
    var r := MergeLists(Startup(actions, calls));
    var begun := BeginSegment(Initial(calls));
    StartupGroups(actions, calls);
    GroupsFill(begun, actions, GROUP_TEST);
    NoEntries(false);
    assert [] + GroupEntries(actions, GROUP_TEST) == GroupEntries(actions, GROUP_TEST);
    assert begun.place.groups[GROUP_TEST] == [];
    TestsAreAheadFirst(Startup(actions, calls).place.groups);
    n := TestIsReached(r, GroupEntries(actions, GROUP_TEST), k);
    StepsAreWalked(r, n);
    var s := Steps(r, n);
    EntryDecides(s, GROUP_TEST);
    EntryDecides(s, GROUP_TEARDOWN);
    WalkFrom(s);
    WalkRemembers(Visit(s));
  }

  // ----- Tests registered during the walk -----

  /** The entry comes before the first test head. */
  predicate Early(items: seq<Item>, e: Entry) {
    Head(GROUP_TEST) in items && items[0] != Head(GROUP_TEST) && (items[0] == Reg(e, false) || Early(items[1..], e))
  }

  lemma {:induction false} InsertedKeepsEarly(items: seq<Item>, e: Entry, group: nat, item: Item)
    requires Early(items, e) && item.Reg?
    ensures Early(InsertBeforeHead(items, group, item), e)
    decreases |items|
  {
    InsertAddsNoHead(items, group, item, Head(GROUP_TEST));
    var s := InsertBeforeHead(items, group, item);
    if items[0] == Head(group) {
      assert s[1..] == items;
    } else if items[0] != Reg(e, false) {
      InsertedKeepsEarly(items[1..], e, group, item);
      assert s[1..] == InsertBeforeHead(items[1..], group, item);
    }
  }

  lemma {:induction false} AppendedKeepsEarly(items: seq<Item>, e: Entry, item: Item)
    requires Early(items, e)
    ensures Early(items + [item], e)
    decreases |items|
  {
    assert Head(GROUP_TEST) in items + [item];
    if items[0] != Reg(e, false) {
      AppendedKeepsEarly(items[1..], e, item);
      assert (items + [item])[1..] == items[1..] + [item];
    }
  }

  lemma {:induction false} InsertedIsEarly(items: seq<Item>, e: Entry)
    requires Head(GROUP_TEST) in items
    ensures Early(InsertBeforeHead(items, GROUP_TEST, Reg(e, false)), e)
    decreases |items|
  {
    InsertAddsNoHead(items, GROUP_TEST, Reg(e, false), Head(GROUP_TEST));
    if items[0] != Head(GROUP_TEST) {
      InsertedIsEarly(items[1..], e);
      assert InsertBeforeHead(items, GROUP_TEST, Reg(e, false))[1..]
        == InsertBeforeHead(items[1..], GROUP_TEST, Reg(e, false));
    }
  }

  lemma RegisterKeepsEarly(r: Run, entry: Entry, group: nat, e: Entry)
    requires r.place.Merged? && Early(r.place.ahead, e)
    ensures Early(Registered(r, entry, group).place.ahead, e)
  {
    hide Early, InsertBeforeHead;
    if group == GROUP_DEFAULT {
      AppendedKeepsEarly(r.place.ahead, e, Reg(entry, false));
    } else if group < GROUP_MAX && Head(group) in r.place.ahead {
      InsertedKeepsEarly(r.place.ahead, e, group, Reg(entry, false));
    }
  }

  /** The tests registered in time since a point in time all come before the test head. */
  ghost predicate TestsAreEarly(r: Run, since: nat) {
    && r.place.Merged? && since <= |r.registered|
    && forall k :: since <= k < |r.registered| && r.registered[k].group == GROUP_TEST && !r.registered[k].late
                   ==> Early(r.place.ahead, r.registered[k].entry)
  }

  lemma RegisterKeepsTestsEarly(r: Run, entry: Entry, group: nat, since: nat)
    requires TestsAreEarly(r, since)
    ensures TestsAreEarly(Registered(r, entry, group), since)
  {
    hide Early, InsertBeforeHead;
    var s := Registered(r, entry, group);
    forall k | since <= k < |s.registered| && s.registered[k].group == GROUP_TEST && !s.registered[k].late
      ensures Early(s.place.ahead, s.registered[k].entry)
    {
      if k < |r.registered| {
        RegisterKeepsEarly(r, entry, group, r.registered[k].entry);
      } else {
        InsertedIsEarly(r.place.ahead, entry);
      }
    }
  }

  lemma {:induction false} ActionsKeepTestsEarly(r: Run, actions: seq<Action>, since: nat)
    requires r.tally.Valid() && TestsAreEarly(r, since)
    ensures TestsAreEarly(ActAll(r, actions), since)
    decreases |actions|
  {
    hide Early;
    if actions != [] {
      var a := actions[0];
      if a.Register? {
        RegisterKeepsTestsEarly(r, a.entry, a.group, since);
      }
      ActionsKeepTestsEarly(Act(r, a), actions[1..], since);
    }
  }

  lemma {:induction false} ActionsKeepEarly(r: Run, actions: seq<Action>, e: Entry)
    requires r.tally.Valid() && r.place.Merged? && Early(r.place.ahead, e)
    ensures Early(ActAll(r, actions).place.ahead, e)
    decreases |actions|
  {
    hide Early;
    if actions != [] {
      var a := actions[0];
      if a.Register? {
        RegisterKeepsEarly(r, a.entry, a.group, e);
      }
      ActionsKeepEarly(Act(r, a), actions[1..], e);
    }
  }

  lemma CallKeepsEarly(r: Run, fn: Fn, e: Entry)
    requires r.tally.Valid() && r.place.Merged?
    ensures Early(r.place.ahead, e) ==> Early(Call(r, fn).place.ahead, e)
  {
    if fn != 0 && Early(r.place.ahead, e) {
      ActionsKeepEarly(Dispatched(r, fn), NextCall(r.calls, fn), e);
    }
  }

  lemma CallKeepsTestsEarly(r: Run, fn: Fn, since: nat)
    requires r.tally.Valid() && TestsAreEarly(r, since)
    ensures TestsAreEarly(Call(r, fn), since)
  {
    if fn != 0 {
      ActionsKeepTestsEarly(Dispatched(r, fn), NextCall(r.calls, fn), since);
    }
  }

  lemma EntryKeepsEarly(r: Run, entry: Entry, e: Entry)
    requires r.tally.Valid() && r.place.Merged? && Early(r.place.ahead, e)
    ensures Early(RunEntry(r, entry).place.ahead, e)
  {
    hide Call, Early;
    var r0 := InContext(BeginSegment(r.(visited := r.visited + [entry])), TSF);
    var r1 := InContext(Call(r0, entry.setup), FAILURE);
    var r2 := InContext(Counted(Call(r1, entry.test), entry.test), TTF);
    CallKeepsEarly(r0, entry.setup, e);
    CallKeepsEarly(r1, entry.test, e);
    CallKeepsEarly(r2, entry.teardown, e);
  }

  lemma EntryAddsEarly(r: Run, e: Entry, since: nat)
    requires r.tally.Valid() && TestsAreEarly(r, since)
    ensures TestsAreEarly(RunEntry(r, e), since)
  {
    hide Call, Early;
    var r0 := InContext(BeginSegment(r.(visited := r.visited + [e])), TSF);
    var r1 := InContext(Call(r0, e.setup), FAILURE);
    var r2 := InContext(Counted(Call(r1, e.test), e.test), TTF);
    CallKeepsTestsEarly(r0, e.setup, since);
    CallKeepsTestsEarly(r1, e.test, since);
    CallKeepsTestsEarly(r2, e.teardown, since);
  }

  lemma {:induction false} EarlyIsReached(r: Run, e: Entry) returns (n: nat)
    requires r.tally.Valid() && r.place.Merged? && Early(r.place.ahead, e)
    ensures AtEntry(Steps(r, n), e, GROUP_TEST, true)
    decreases Measure(r)
  {
    hide RunEntry;
    n := 0;
    if r.place.ahead[0] != Reg(e, false) {
      if r.place.ahead[0].Reg? {
        EntryKeepsEarly(Advance(r), r.place.ahead[0].entry, e);
      }
      VisitDecreases(r);
      n := EarlyIsReached(Visit(r), e);
      n := n + 1;
    }
  }

  /**
   * A test that is registered while an entry is executed, and is not late, is executed with the test head still ahead:
   * whatever tests are registered meanwhile are on time too, and so run.
   */
  lemma AddedTestRunsNested(r: Run, k: nat) returns (n: nat)
    requires r.tally.Valid() && r.place.Merged? && r.place.ahead != [] && r.place.ahead[0].Reg?
    requires var t := Visit(r);
      |r.registered| <= k < |t.registered| && t.registered[k].group == GROUP_TEST && !t.registered[k].late
    ensures var s := Steps(Visit(r), n);
      && AtEntry(s, Visit(r).registered[k].entry, GROUP_TEST, true)
      && s.registered <= Visit(s).registered <= Walk(r).registered
      && forall j :: |s.registered| <= j < |Visit(s).registered| && Visit(s).registered[j].group == GROUP_TEST
                     ==> !Visit(s).registered[j].late
  {
    hide Walk, RunEntry, Steps, Early;
    var t := Visit(r);
    EntryAddsEarly(Advance(r), r.place.ahead[0].entry, |r.registered|);
    n := EarlyIsReached(t, t.registered[k].entry);
    var s := Steps(t, n);
    EntryDecides(s, GROUP_TEST);
    WalkFrom(r);
    StepsAreWalked(t, n);
    WalkFrom(s);
    WalkRemembers(Visit(s));
  }

  // ----- Two runs -----

  /** Starting the walk with a single test. */
  lemma OneTest(first: Entry, calls: seq<Script>)
    ensures var r := MergeLists(Startup([Register(first, GROUP_TEST)], calls));
            r.place == Merged([], [Head(1), Head(2), Reg(first, false), Head(3)]) && r.calls == calls && r.visited == []
  {
    var groups: seq<seq<Item>> := [[], [], [Reg(first, false)], []];
    var r := BeginSegment(Initial(calls));
    var s := Act(r, Register(first, GROUP_TEST));
    assert ActAll(r, [Register(first, GROUP_TEST)]) == s;
    assert [] + [Reg(first, false)] == [Reg(first, false)];
    assert s.place.groups == groups;
    assert MergedItems(groups, 3) == [];
    assert MergedItems(groups, 2) == [Reg(first, false), Head(3)];
    assert MergedItems(groups, 1) == [Head(2), Reg(first, false), Head(3)];
  }

  lemma TwoRegistrations(r: Run, added: Entry, cleanup: Entry)
    requires r.tally.Valid() && r.place.Merged? && r.place.ahead == [Head(3)]
    ensures var s := ActAll(r, [Register(added, GROUP_TEST), Register(cleanup, GROUP_TEARDOWN)]);
            s.place.ahead == [Reg(cleanup, false), Head(3)] && s.visited == r.visited
  {
    var both := [Register(added, GROUP_TEST), Register(cleanup, GROUP_TEARDOWN)];
    var s := Act(r, both[0]);
    assert ActAll(r, both) == ActAll(s, both[1..]);
    assert ActAll(s, both[1..]) == Act(s, both[1]);
    assert InsertBeforeHead([Head(3)], 3, Reg(cleanup, false)) == [Reg(cleanup, false), Head(3)];
  }

  /** While a test runs, the head of its own group is behind the cursor: a test it adds is late, a teardown is not. */
  lemma TestAddedByTestIsNotRun(first: Entry, added: Entry, cleanup: Entry)
    requires first.test != 0 && first.setup == first.teardown == 0
    requires cleanup.test == cleanup.setup == 0
    ensures var actions := [Register(first, GROUP_TEST)];
            var calls := [Script(first.test, [Register(added, GROUP_TEST), Register(cleanup, GROUP_TEARDOWN)])];
            Application(actions, calls).visited == [first, cleanup]
  {
    hide Visit, Walk;
    var both := [Register(added, GROUP_TEST), Register(cleanup, GROUP_TEARDOWN)];
    var calls := [Script(first.test, both)];
    var s := MergeLists(Startup([Register(first, GROUP_TEST)], calls));
    OneTest(first, calls);
    HeadIsPassed(s);
    HeadIsPassed(Visit(s));
    var t := Visit(Visit(s));
    TestAddsBoth(t, first, added, cleanup);
    var u := Visit(t);
    SilentEntry(u, cleanup);
    var v := Visit(u);
    HeadIsPassed(v);
    assert [] + [first] + [cleanup] == [first, cleanup];
    WalkFrom(s);
    WalkFrom(Visit(s));
    WalkFrom(t);
    WalkFrom(u);
    WalkFrom(v);
    WalkIsOver(Visit(v));
  }

  lemma TestAddsBoth(r: Run, first: Entry, added: Entry, cleanup: Entry)
    requires r.tally.Valid() && r.place.Merged? && r.place.ahead == [Reg(first, false), Head(3)]
    requires first.test != 0 && first.setup == first.teardown == 0
    requires r.calls == [Script(first.test, [Register(added, GROUP_TEST), Register(cleanup, GROUP_TEARDOWN)])]
    ensures var s := Visit(r);
      s.place.ahead == [Reg(cleanup, false), Head(3)] && s.calls == [] && s.visited == r.visited + [first]
  {
    hide ActAll;
    var r0 := InContext(BeginSegment(Advance(r).(visited := r.visited + [first])), TSF);
    var r1 := InContext(r0, FAILURE);
    TwoRegistrations(Dispatched(r1, first.test), added, cleanup);
  }

  /**
   * A test that a set-up function adds is linked in ahead of the test head. A test that this test adds is run too,
   * although the interface promises that tests added from within a test are ignored.
   */
  lemma TestAddedByEarlyTestIsRun(prepare: Entry, first: Entry, nested: Entry)
    requires prepare.setup != 0 && prepare.test == prepare.teardown == 0
    requires first.test != 0 && first.setup == first.teardown == 0
    ensures
      var calls := [Script(prepare.setup, [Register(first, GROUP_TEST)]),
                    Script(first.test, [Register(nested, GROUP_TEST)])];
      Application([Register(prepare, GROUP_SETUP)], calls).visited == [prepare, first, nested]
  {
    hide Application;
    var calls := [Script(prepare.setup, [Register(first, GROUP_TEST)]),
                  Script(first.test, [Register(nested, GROUP_TEST)])];
    assert EachAdds(prepare, [first, nested]) == calls by {
      assert [first, nested][1..] == [nested] && [nested][1..] == [];
      assert EachAdds(first, [nested]) == [Script(first.test, [Register(nested, GROUP_TEST)])] + EachAdds(nested, []);
    }
    AddedTestsGoOn(prepare, [first, nested]);
    assert [prepare] + [first, nested] == [prepare, first, nested];
  }

  /** The function that an entry has, if it has only one of setup and test. */
  function OnlyFunction(e: Entry): Fn {
    if e.setup != 0 then e.setup else e.test
  }

  predicate CallsOnce(e: Entry) {
    (e.setup == 0) != (e.test == 0) && e.teardown == 0
  }

  /** The function of one entry after the other registers one more test. */
  function EachAdds(e: Entry, tests: seq<Entry>): seq<Script>
    decreases |tests|
  {
    if tests == [] then []
    else [Script(OnlyFunction(e), [Register(tests[0], GROUP_TEST)])] + EachAdds(tests[0], tests[1..])
  }

  lemma {:induction false} TestsAddTests(r: Run, e: Entry, tests: seq<Entry>)
    requires r.tally.Valid() && r.place.Merged? && r.place.ahead == [Reg(e, false), Head(2), Head(3)]
    requires r.calls == EachAdds(e, tests) && (tests != [] ==> CallsOnce(e))
    requires forall i :: 0 <= i < |tests| - 1 ==> CallsOnce(tests[i])
    ensures Walk(r).visited == r.visited + [e] + tests
    decreases |tests|
  {
    hide Visit, Walk;
    WalkFrom(r);
    var s := Visit(r);
    if tests == [] {
      SilentEntry(r, e);
      HeadIsPassed(s);
      HeadIsPassed(Visit(s));
      WalkFrom(s);
      WalkFrom(Visit(s));
      WalkIsOver(Visit(Visit(s)));
    } else {
      EntryAddsTest(r, e, tests[0], EachAdds(tests[0], tests[1..]));
      TestsAddTests(s, tests[0], tests[1..]);
      assert r.visited + [e] + [tests[0]] + tests[1..] == r.visited + [e] + tests;
    }
  }

  lemma WalkIsOver(r: Run)
    requires r.tally.Valid() && r.place.Merged? && r.place.ahead == []
    ensures Walk(r) == r
  {
  }

  /**
   * The walk goes on for as long as the callbacks register more: no number of entries registered at start-up bounds it.
   * With callbacks that never stop, which a finite list of calls cannot express, the loop would not end.
   */
  lemma {:induction false} AddedTestsGoOn(prepare: Entry, tests: seq<Entry>)
    requires prepare.setup != 0 && prepare.test == prepare.teardown == 0
    requires forall i :: 0 <= i < |tests| - 1 ==> CallsOnce(tests[i])
    ensures Application([Register(prepare, GROUP_SETUP)], EachAdds(prepare, tests)).visited == [prepare] + tests
  {
    hide Visit, Walk;
    var s := MergeLists(Startup([Register(prepare, GROUP_SETUP)], EachAdds(prepare, tests)));
    OneSetup(prepare, EachAdds(prepare, tests));
    HeadIsPassed(s);
    WalkFrom(s);
    TestsAddTests(Visit(s), prepare, tests);
    assert [] + [prepare] + tests == [prepare] + tests;
  }

  lemma HeadIsPassed(r: Run)
    requires r.tally.Valid() && r.place.Merged? && r.place.ahead != [] && r.place.ahead[0].Head?
    ensures var s := Visit(r); s.place.ahead == r.place.ahead[1..] && s.calls == r.calls && s.visited == r.visited
  {
  }

  lemma {:induction false} SilentEntry(r: Run, e: Entry)
    requires r.tally.Valid() && r.place.Merged? && r.place.ahead != [] && r.calls == []
    requires r.place.ahead[0] == Reg(e, false)
    ensures var s := Visit(r); s.place.ahead == r.place.ahead[1..] && s.visited == r.visited + [e]
  {
  }

  lemma EntryAddsTest(r: Run, e: Entry, test: Entry, rest: seq<Script>)
    requires r.tally.Valid() && r.place.Merged? && r.place.ahead == [Reg(e, false), Head(2), Head(3)]
    requires CallsOnce(e) && r.calls == [Script(OnlyFunction(e), [Register(test, GROUP_TEST)])] + rest
    ensures var s := Visit(r);
      s.place.ahead == [Reg(test, false), Head(2), Head(3)] && s.calls == rest && s.visited == r.visited + [e]
  {
    hide ActAll;
    var r0 := InContext(BeginSegment(Advance(r).(visited := r.visited + [e])), TSF);
    var q := if e.setup != 0 then r0 else InContext(r0, FAILURE);
    OneTestAhead(Dispatched(q, OnlyFunction(e)), test);
  }

  lemma OneSetup(prepare: Entry, calls: seq<Script>)
    ensures var r := MergeLists(Startup([Register(prepare, GROUP_SETUP)], calls));
            r.place == Merged([], [Head(1), Reg(prepare, false), Head(2), Head(3)]) && r.calls == calls
              && r.visited == []
  {
    var groups: seq<seq<Item>> := [[], [Reg(prepare, false)], [], []];
    var r := BeginSegment(Initial(calls));
    var s := Act(r, Register(prepare, GROUP_SETUP));
    assert ActAll(r, [Register(prepare, GROUP_SETUP)]) == s;
    assert [] + [Reg(prepare, false)] == [Reg(prepare, false)];
    assert s.place.groups == groups;
    assert MergedItems(groups, 3) == [];
    assert MergedItems(groups, 2) == [Head(3)];
    assert MergedItems(groups, 1) == [Reg(prepare, false), Head(2), Head(3)];
  }

  lemma OneTestAhead(r: Run, test: Entry)
    requires r.tally.Valid() && r.place.Merged? && r.place.ahead == [Head(2), Head(3)]
    ensures var s := ActAll(r, [Register(test, GROUP_TEST)]);
            s.place == Merged(r.place.done, [Reg(test, false), Head(2), Head(3)]) && s.visited == r.visited
  {
    assert ActAll(r, [Register(test, GROUP_TEST)]) == Act(r, Register(test, GROUP_TEST));
    assert InsertBeforeHead([Head(2), Head(3)], 2, Reg(test, false)) == [Reg(test, false), Head(2), Head(3)];
  }

  lemma WalkFrom(r: Run)
    requires r.tally.Valid() && r.place.Merged? && r.place.ahead != []
    ensures Walk(r) == Walk(Visit(r))
  {
    VisitDecreases(r);
  }
}
