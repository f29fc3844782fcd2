/** What every run of the unit-test executive keeps and ends with. */
module UtRunProperties {
  import opened UtAssert
  import opened UtRun

  // ----- Entries of a list, in order -----

  function EntriesOf(items: seq<Item>, late: bool): seq<Entry>
    decreases |items|
  {
    if items == [] then []
    else (if items[0].Reg? && items[0].late == late then [items[0].entry] else []) + EntriesOf(items[1..], late)
  }

  function RegistrationsOf(registered: seq<Registration>, late: bool): seq<Entry>
    decreases |registered|
  {
    if registered == [] then []
    else (if registered[0].late == late then [registered[0].entry] else []) + RegistrationsOf(registered[1..], late)
  }

  lemma {:induction false} EntriesOfAppend(a: seq<Item>, b: seq<Item>, late: bool)
    ensures EntriesOf(a + b, late) == EntriesOf(a, late) + EntriesOf(b, late)
    decreases |a|
  {
    if a == [] {
      assert a + b == b;
    } else {
      assert (a + b)[1..] == a[1..] + b;
      EntriesOfAppend(a[1..], b, late);
    }
  }

  lemma {:induction false} RegistrationsOfAppend(a: seq<Registration>, b: seq<Registration>, late: bool)
    ensures RegistrationsOf(a + b, late) == RegistrationsOf(a, late) + RegistrationsOf(b, late)
    decreases |a|
  {
    if a == [] {
      assert a + b == b;
    } else {
      assert (a + b)[1..] == a[1..] + b;
      RegistrationsOfAppend(a[1..], b, late);
    }
  }

  lemma {:induction false} InsertedAt(items: seq<Item>, group: nat, item: Item) returns (a: seq<Item>, b: seq<Item>)
    requires Head(group) in items
    ensures items == a + b && InsertBeforeHead(items, group, item) == a + [item] + b
    decreases |items|
  {
    if items[0] == Head(group) {
      a, b := [], items;
    } else {
      a, b := InsertedAt(items[1..], group, item);
      a := [items[0]] + a;
    }
  }

  lemma EntriesOfInserted(items: seq<Item>, group: nat, entry: Entry, itemLate: bool, late: bool)
    requires Head(group) in items
    ensures var s := InsertBeforeHead(items, group, Reg(entry, itemLate));
      && multiset(EntriesOf(s, late))
        == multiset(EntriesOf(items, late)) + multiset(if itemLate == late then [entry] else [])
      && (itemLate != late ==> EntriesOf(s, late) == EntriesOf(items, late))
      && (forall h :: Head(h) in items ==> Head(h) in s)
  {
    var item := Reg(entry, itemLate);
    var a, b := InsertedAt(items, group, item);
    var added := if itemLate == late then [entry] else [];
    EntriesOfAppend(a, b, late);
    EntriesOfAppend(a + [item], b, late);
    EntriesOfAppend(a, [item], late);
    assert EntriesOf([item], late) == added;
    assert EntriesOf(a, late) + [] == EntriesOf(a, late);
  }

  // ----- The invariant of the walk -----

  /**
   * The entries run so far are exactly the entries behind the cursor that were not late, in list order; nothing late
   * is ahead; and the entries in the list, late or not, are the registrations made.
   */
  ghost predicate Invariant(r: Run) {
    && r.place.Merged?
    && r.visited == EntriesOf(r.place.done, false)
    && EntriesOf(r.place.ahead, true) == []
    && (forall g :: 1 <= g < GROUP_MAX ==> Head(g) in r.place.done || Head(g) in r.place.ahead)
    && multiset(r.visited) + multiset(EntriesOf(r.place.ahead, false))
       == multiset(RegistrationsOf(r.registered, false))
    && multiset(EntriesOf(r.place.done, true)) == multiset(RegistrationsOf(r.registered, true))
  }

  lemma RegisteredSplit(r: Run, entry: Entry, group: nat, late: bool)
    requires group < GROUP_MAX
    ensures var l := Late(r.place, group);
      RegistrationsOf(Registered(r, entry, group).registered, late)
        == RegistrationsOf(r.registered, late) + (if l == late then [entry] else [])
  {
    var reg := Registration(entry, group, Late(r.place, group));
    RegistrationsOfAppend(r.registered, [reg], late);
    assert RegistrationsOf([reg], late) == if reg.late == late then [entry] else [];
  }

  lemma RegisterKeepsInvariant(r: Run, entry: Entry, group: nat)
    requires Invariant(r)
    ensures Invariant(Registered(r, entry, group))
  {
    hide EntriesOf, RegistrationsOf, InsertBeforeHead;
    var done, ahead := r.place.done, r.place.ahead;
    if group < GROUP_MAX {
      RegisteredSplit(r, entry, group, false);
      RegisteredSplit(r, entry, group, true);
      assert multiset(RegistrationsOf(r.registered, false) + [entry])
          == multiset(RegistrationsOf(r.registered, false)) + multiset([entry]);
      if group == GROUP_DEFAULT {
        AppendedEntry(ahead, entry);
        AddToBoth(multiset(r.visited), multiset(EntriesOf(ahead, false)),
                  multiset(RegistrationsOf(r.registered, false)), multiset([entry]));
      } else if Head(group) in ahead {
        EntriesOfInserted(ahead, group, entry, false, false);
        EntriesOfInserted(ahead, group, entry, false, true);
        AddToBoth(multiset(r.visited), multiset(EntriesOf(ahead, false)),
                  multiset(RegistrationsOf(r.registered, false)), multiset([entry]));
      } else {
        EntriesOfInserted(done, group, entry, true, false);
        EntriesOfInserted(done, group, entry, true, true);
      }
    }
  }

  lemma AddToBoth<A>(v: multiset<A>, a: multiset<A>, r: multiset<A>, x: multiset<A>)
    requires v + a == r
    ensures v + (a + x) == r + x
  {
    assert v + (a + x) == (v + a) + x;
  }

  lemma AppendedEntry(items: seq<Item>, entry: Entry)
    ensures EntriesOf(items + [Reg(entry, false)], false) == EntriesOf(items, false) + [entry]
    ensures EntriesOf(items + [Reg(entry, false)], true) == EntriesOf(items, true)
  {
    EntriesOfAppend(items, [Reg(entry, false)], false);
    EntriesOfAppend(items, [Reg(entry, false)], true);
  }

  lemma {:induction false} ActionsKeepInvariant(r: Run, actions: seq<Action>)
    requires r.tally.Valid() && Invariant(r)
    ensures Invariant(ActAll(r, actions))
    decreases |actions|
  {
    if actions != [] {
      var a := actions[0];
      if a.Register? {
        RegisterKeepsInvariant(r, a.entry, a.group);
      }
      ActionsKeepInvariant(Act(r, a), actions[1..]);
    }
  }

  lemma CallKeepsInvariant(r: Run, fn: Fn)
    requires r.tally.Valid() && Invariant(r)
    ensures Invariant(Call(r, fn))
  {
    if fn != 0 {
      ActionsKeepInvariant(Dispatched(r, fn), NextCall(r.calls, fn));
    }
  }

  lemma AdvancedEntries(done: seq<Item>, ahead: seq<Item>, late: bool)
    requires ahead != []
    ensures var x := if ahead[0].Reg? && ahead[0].late == late then [ahead[0].entry] else [];
      && EntriesOf(done + [ahead[0]], late) == EntriesOf(done, late) + x
      && EntriesOf(ahead, late) == x + EntriesOf(ahead[1..], late)
  {
    EntriesOfAppend(done, [ahead[0]], late);
  }

  /** Moving the cursor over an item, and counting it as run if it is an entry, keeps the invariant. */
  lemma AdvanceKeepsInvariant(r: Run)
    requires Invariant(r) && r.place.ahead != []
    ensures var a := Advance(r);
            Invariant(if r.place.ahead[0].Reg? then a.(visited := a.visited + [r.place.ahead[0].entry]) else a)
  {
    hide EntriesOf;
    var done, ahead := r.place.done, r.place.ahead;
    AdvancedEntries(done, ahead, false);
    AdvancedEntries(done, ahead, true);
    assert forall g :: Head(g) in done ==> Head(g) in done + [ahead[0]];
    assert forall g :: Head(g) in ahead ==> Head(g) in done + [ahead[0]] || Head(g) in ahead[1..];
    assert r.visited + [] == r.visited;
  }

  lemma VisitKeepsInvariant(r: Run)
    requires r.tally.Valid() && Invariant(r) && r.place.ahead != []
    ensures Invariant(Visit(r))
  {
    hide EntriesOf;
    AdvanceKeepsInvariant(r);
    var a := Advance(r);
    if r.place.ahead[0].Reg? {
      var e := r.place.ahead[0].entry;
      var r0 := InContext(BeginSegment(a.(visited := a.visited + [e])), TSF);
      var r1 := InContext(Call(r0, e.setup), FAILURE);
      var r2 := InContext(Counted(Call(r1, e.test), e.test), TTF);
      CallKeepsInvariant(r0, e.setup);
      CallKeepsInvariant(r1, e.test);
      CallKeepsInvariant(r2, e.teardown);
    }
  }

  lemma {:induction false} WalkKeepsInvariant(r: Run)
    requires r.tally.Valid() && Invariant(r)
    ensures Invariant(Walk(r))
    decreases Measure(r)
  {
    if r.place.ahead != [] {
      VisitKeepsInvariant(r);
      VisitDecreases(r);
      WalkKeepsInvariant(Visit(r));
    }
  }

  // ----- Start-up -----

  /** The entries registered before the run are on time, and all of them are in the four groups. */
  ghost predicate StartInvariant(r: Run) {
    && r.place.Separate? && |r.place.groups| == GROUP_MAX
    && (forall g :: 0 <= g < GROUP_MAX ==> OnlyEntries(r.place.groups[g]))
    && multiset(EntriesFrom(r.place.groups, 0)) == multiset(RegistrationsOf(r.registered, false))
    && RegistrationsOf(r.registered, true) == []
    && r.visited == []
  }

  ghost predicate OnlyEntries(items: seq<Item>) {
    forall k :: 0 <= k < |items| ==> items[k].Reg? && !items[k].late
  }

  lemma {:induction false} NothingLate(items: seq<Item>)
    requires forall k :: 0 <= k < |items| && items[k].Reg? ==> !items[k].late
    ensures EntriesOf(items, true) == []
    decreases |items|
  {
    if items != [] {
      NothingLate(items[1..]);
    }
  }

  /** The entries on time in the groups from g on, group by group. */
  function EntriesFrom(groups: seq<seq<Item>>, g: nat): seq<Entry>
    requires g <= |groups|
    decreases |groups| - g
  {
    if g == |groups| then [] else EntriesOf(groups[g], false) + EntriesFrom(groups, g + 1)
  }

  lemma HeadIsNoEntry(items: seq<Item>, tag: nat, rest: seq<Item>, late: bool)
    ensures EntriesOf(items + [Head(tag)] + rest, late) == EntriesOf(items, late) + EntriesOf(rest, late)
  {
    EntriesOfAppend(items + [Head(tag)], rest, late);
    EntriesOfAppend(items, [Head(tag)], late);
    assert EntriesOf([Head(tag)], late) == [];
    assert EntriesOf(items, late) + [] == EntriesOf(items, late);
  }

  lemma {:induction false} MergedEntries(groups: seq<seq<Item>>, g: nat)
    requires g < |groups| && forall k :: 0 <= k < |groups| ==> OnlyEntries(groups[k])
    ensures EntriesOf(MergedItems(groups, g), false) == EntriesFrom(groups, g)
    ensures EntriesOf(MergedItems(groups, g), true) == []
    decreases |groups| - g
  {
    hide EntriesOf;
    NothingLate(groups[g]);
    if g + 1 < |groups| {
      MergedEntries(groups, g + 1);
      HeadIsNoEntry(groups[g], g + 1, MergedItems(groups, g + 1), false);
      HeadIsNoEntry(groups[g], g + 1, MergedItems(groups, g + 1), true);
    } else {
      assert EntriesFrom(groups, g) == EntriesOf(groups[g], false) + [];
    }
  }

  lemma {:induction false} MergedHeads(groups: seq<seq<Item>>, g: nat, k: nat)
    requires g < k < |groups|
    ensures Head(k) in MergedItems(groups, g)
    decreases |groups| - g
  {
    if k > g + 1 {
      MergedHeads(groups, g + 1, k);
    }
  }

  lemma {:induction false} UntouchedEntries(groups: seq<seq<Item>>, group: nat, items: seq<Item>, g: nat)
    requires group < g <= |groups|
    ensures EntriesFrom(groups[group := items], g) == EntriesFrom(groups, g)
    decreases |groups| - g
  {
    if g < |groups| {
      UntouchedEntries(groups, group, items, g + 1);
    }
  }

  lemma {:induction false} GrownEntries(groups: seq<seq<Item>>, group: nat, entry: Entry, g: nat)
    requires g <= group < |groups|
    ensures multiset(EntriesFrom(groups[group := groups[group] + [Reg(entry, false)]], g))
         == multiset(EntriesFrom(groups, g)) + multiset([entry])
    decreases |groups| - g
  {
    hide EntriesOf;
    var grown := groups[group := groups[group] + [Reg(entry, false)]];
    var x, y := EntriesOf(groups[g], false), EntriesFrom(groups, g + 1);
    if g == group {
      AppendedEntry(groups[group], entry);
      UntouchedEntries(groups, group, grown[group], g + 1);
      assert EntriesFrom(grown, g) == x + [entry] + y;
    } else {
      GrownEntries(groups, group, entry, g + 1);
      assert EntriesFrom(grown, g) == x + EntriesFrom(grown, g + 1);
    }
  }

  lemma OnlyEntriesGrows(items: seq<Item>, entry: Entry)
    requires OnlyEntries(items)
    ensures OnlyEntries(items + [Reg(entry, false)])
  {
  }

  lemma RegisterKeepsStart(r: Run, entry: Entry, group: nat)
    requires StartInvariant(r)
    ensures StartInvariant(Registered(r, entry, group))
  {
    if group < GROUP_MAX {
      hide EntriesOf, RegistrationsOf, EntriesFrom, OnlyEntries;
      RegisteredSplit(r, entry, group, false);
      RegisteredSplit(r, entry, group, true);
      GrownEntries(r.place.groups, group, entry, 0);
      OnlyEntriesGrows(r.place.groups[group], entry);
      assert multiset(RegistrationsOf(r.registered, false) + [entry])
          == multiset(RegistrationsOf(r.registered, false)) + multiset([entry]);
    }
  }

  lemma {:induction false} ActionsKeepStart(r: Run, actions: seq<Action>)
    requires r.tally.Valid() && StartInvariant(r)
    ensures StartInvariant(ActAll(r, actions))
    decreases |actions|
  {
    if actions != [] {
      var a := actions[0];
      if a.Register? {
        RegisterKeepsStart(r, a.entry, a.group);
      }
      ActionsKeepStart(Act(r, a), actions[1..]);
    }
  }

  lemma NoEntries(late: bool)
    ensures EntriesOf([], late) == []
  {
  }

  lemma StartIsInvariant(r: Run)
    requires StartInvariant(r)
    ensures Invariant(MergeLists(r))
  {
    hide MergedItems, EntriesOf, EntriesFrom, OnlyEntries;
    var groups := r.place.groups;
    NoEntries(false);
    NoEntries(true);
    MergedEntries(groups, 0);
    MergedHeads(groups, 0, 1);
    MergedHeads(groups, 0, 2);
    MergedHeads(groups, 0, 3);
  }

  /**
   * Every registration made before or during the run whose place in the merged list was still ahead is run exactly
   * once, in list order; a registration whose place was behind the cursor is never run, but is in the list at the end.
   */
  lemma RegistrationsRun(actions: seq<Action>, calls: seq<Script>)
    ensures var r := Application(actions, calls);
      && r.visited == EntriesOf(r.place.done, false)
      && multiset(r.visited) == multiset(RegistrationsOf(r.registered, false))
      && multiset(EntriesOf(r.place.done, true)) == multiset(RegistrationsOf(r.registered, true))
  {
    hide Walk, ActAll;
    var r0 := BeginSegment(Initial(calls));
    InitialIsStart(calls);
    ActionsKeepStart(r0, actions);
    StartIsInvariant(Startup(actions, calls));
    WalkKeepsInvariant(MergeLists(Startup(actions, calls)));
  }

  lemma InitialIsStart(calls: seq<Script>)
    ensures StartInvariant(BeginSegment(Initial(calls)))
  {
    var groups: seq<seq<Item>> := [[], [], [], []];
    assert EntriesFrom(groups, 4) == [];
    assert EntriesFrom(groups, 3) == [];
    assert EntriesFrom(groups, 2) == [];
    assert EntriesFrom(groups, 1) == [];
    assert EntriesFrom(groups, 0) == [];
  }

  // ----- Callbacks that register nothing -----

  /** The entries that a list of actions registers in one group. */
  function GroupEntries(actions: seq<Action>, group: nat): seq<Entry>
    decreases |actions|
  {
    if actions == [] then []
    else
      var first := if actions[0].Register? && actions[0].group == group then [actions[0].entry] else [];
      first + GroupEntries(actions[1..], group)
  }

  ghost predicate Quiet(calls: seq<Script>) {
    forall i, j :: 0 <= i < |calls| && 0 <= j < |calls[i].actions| ==> !calls[i].actions[j].Register?
  }

  lemma {:induction false} QuietCalls(calls: seq<Script>, fn: Fn)
    requires Quiet(calls)
    ensures Quiet(CallsAfter(calls, fn))
    ensures forall j :: 0 <= j < |NextCall(calls, fn)| ==> !NextCall(calls, fn)[j].Register?
    decreases |calls|
  {
    if fn != 0 && calls != [] {
      assert Quiet(calls[1..]);
      QuietCalls(calls[1..], fn);
    }
  }

  lemma {:induction false} QuietActions(r: Run, actions: seq<Action>)
    requires r.tally.Valid() && forall j :: 0 <= j < |actions| ==> !actions[j].Register?
    ensures ActAll(r, actions).place == r.place
    decreases |actions|
  {
    if actions != [] {
      QuietActions(Act(r, actions[0]), actions[1..]);
    }
  }

  lemma QuietCall(r: Run, fn: Fn)
    requires r.tally.Valid() && Quiet(r.calls)
    ensures Call(r, fn).place == r.place && Quiet(Call(r, fn).calls)
  {
    if fn != 0 {
      QuietCalls(r.calls, fn);
      QuietActions(Dispatched(r, fn), NextCall(r.calls, fn));
    }
  }

  lemma QuietVisit(r: Run)
    requires r.tally.Valid() && r.place.Merged? && r.place.ahead != [] && Quiet(r.calls)
    ensures Visit(r).place == Advance(r).place && Quiet(Visit(r).calls)
  {
    hide Call, Quiet;
    var a := Advance(r);
    if r.place.ahead[0].Reg? {
      var e := r.place.ahead[0].entry;
      var r0 := InContext(BeginSegment(a.(visited := a.visited + [e])), TSF);
      var r1 := InContext(Call(r0, e.setup), FAILURE);
      var r2 := InContext(Counted(Call(r1, e.test), e.test), TTF);
      QuietCall(r0, e.setup);
      QuietCall(r1, e.test);
      QuietCall(r2, e.teardown);
    }
  }

  lemma {:induction false} QuietWalk(r: Run)
    requires r.tally.Valid() && r.place.Merged? && Quiet(r.calls)
    ensures Walk(r).place.done == r.place.done + r.place.ahead
    decreases Measure(r)
  {
    if r.place.ahead != [] {
      QuietVisit(r);
      VisitDecreases(r);
      QuietWalk(Visit(r));
    }
  }

  lemma {:induction false} GroupsFill(r: Run, actions: seq<Action>, g: nat)
    requires r.tally.Valid() && r.place.Separate? && g < |r.place.groups| == GROUP_MAX
    ensures EntriesOf(ActAll(r, actions).place.groups[g], false)
         == EntriesOf(r.place.groups[g], false) + GroupEntries(actions, g)
    decreases |actions|
  {
    if actions != [] {
      hide EntriesOf;
      var a := actions[0];
      if a.Register? && a.group < GROUP_MAX {
        AppendedEntry(r.place.groups[a.group], a.entry);
      }
      GroupsFill(Act(r, a), actions[1..], g);
    }
  }

  lemma StartupGroups(actions: seq<Action>, calls: seq<Script>)
    ensures StartInvariant(ActAll(BeginSegment(Initial(calls)), actions))
    ensures EntriesFrom(Startup(actions, calls).place.groups, 0)
         == GroupEntries(actions, GROUP_DEFAULT) + GroupEntries(actions, GROUP_SETUP)
          + GroupEntries(actions, GROUP_TEST) + GroupEntries(actions, GROUP_TEARDOWN)
  {
    hide ActAll, EntriesOf, EntriesFrom, OnlyEntries, GroupEntries;
    var r := BeginSegment(Initial(calls));
    InitialIsStart(calls);
    ActionsKeepStart(r, actions);
    GroupsFill(r, actions, 0);
    GroupsFill(r, actions, 1);
    GroupsFill(r, actions, 2);
    GroupsFill(r, actions, 3);
    NoEntries(false);
    FourGroups(Startup(actions, calls).place.groups);
  }

  /**
   * When only start-up registers, the run is the default, set-up, test and teardown groups in order of registration.
   */
  lemma GroupsRunInOrder(actions: seq<Action>, calls: seq<Script>)
    requires Quiet(calls)
    ensures Application(actions, calls).visited
         == GroupEntries(actions, GROUP_DEFAULT) + GroupEntries(actions, GROUP_SETUP)
          + GroupEntries(actions, GROUP_TEST) + GroupEntries(actions, GROUP_TEARDOWN)
  {
    hide Walk, ActAll, MergedItems, Quiet, EntriesOf, EntriesFrom, OnlyEntries, GroupEntries;
    var r := MergeLists(Startup(actions, calls));
    StartupGroups(actions, calls);
    RegistrationsRun(actions, calls);
    QuietWalk(r);
    assert [] + r.place.ahead == r.place.ahead;
    MergedEntries(Startup(actions, calls).place.groups, 0);
  }

  lemma FourGroups(groups: seq<seq<Item>>)
    requires |groups| == GROUP_MAX
    ensures EntriesFrom(groups, 0) == EntriesOf(groups[0], false) + EntriesOf(groups[1], false)
                                    + EntriesOf(groups[2], false) + EntriesOf(groups[3], false)
  {
    hide EntriesOf;
    assert EntriesFrom(groups, 4) == [];
    assert EntriesFrom(groups, 2) == EntriesOf(groups[2], false) + EntriesFrom(groups, 3);
  }

  // ----- Counters -----

  /** The counters are those of the segments that have ended and of the checks made since. */
  ghost predicate Tallied(r: Run)
    requires r.tally.Valid()
  {
    && r.tally.total == TotalOf(r.ended)
    && r.tally.segment == RecordAll(Tally(0, Zero(), Zero()), r.open).segment
  }

  lemma CheckedIsTallied(r: Run, c: Check)
    requires r.tally.Valid() && Tallied(r)
    ensures Tallied(Checked(r, c))
  {
    var checks := r.open + [c];
    assert checks[..|checks| - 1] == r.open;
  }

  lemma {:induction false} ActionsAreTallied(r: Run, actions: seq<Action>)
    requires r.tally.Valid() && Tallied(r)
    ensures Tallied(ActAll(r, actions))
    decreases |actions|
  {
    if actions != [] {
      var a := actions[0];
      hide Record, RecordAll, TotalOf, Insert;
      if a.AssertTrue? {
        CheckedIsTallied(r, Check(a.pass, r.tally.context));
      } else if a.AssertAs? {
        CheckedIsTallied(r, Check(a.pass, a.caseType));
      }
      ActionsAreTallied(Act(r, a), actions[1..]);
    }
  }

  lemma CallIsTallied(r: Run, fn: Fn)
    requires r.tally.Valid() && Tallied(r)
    ensures Tallied(Call(r, fn))
    ensures Call(r, fn).visited == r.visited && Call(r, fn).ended == r.ended
      && Call(r, fn).executedCount == r.executedCount
  {
    if fn != 0 {
      ActionsAreTallied(Dispatched(r, fn), NextCall(r.calls, fn));
    }
  }

  lemma EndIsTallied(r: Run)
    requires r.tally.Valid() && Tallied(r)
    ensures Tallied(EndSegment(r))
  {
    var ended := r.ended + [r.open];
    assert ended[..|ended| - 1] == r.ended;
  }

  lemma EntryIsTallied(r: Run, e: Entry)
    requires r.tally.Valid() && Tallied(r)
    ensures var s := RunEntry(r, e);
      && Tallied(s) && s.visited == r.visited + [e] && |s.ended| == |r.ended| + 1
      && s.executedCount == if e.test == 0 then r.executedCount else (r.executedCount + 1) % UINT32
  {
    hide TotalOf, RecordAll, Call, End;
    OpenIsTallied(r);
    var r0 := InContext(BeginSegment(r.(visited := r.visited + [e])), TSF);
    var r1 := InContext(Call(r0, e.setup), FAILURE);
    var r2 := InContext(Counted(Call(r1, e.test), e.test), TTF);
    CallIsTallied(r0, e.setup);
    CallIsTallied(r1, e.test);
    CallIsTallied(r2, e.teardown);
    EndIsTallied(Call(r2, e.teardown));
  }

  lemma OpenIsTallied(r: Run)
    requires r.tally.Valid() && Tallied(r)
    ensures Tallied(BeginSegment(r))
  {
  }

  // ----- Which checks a segment has -----

  /** The checks among the actions of one call; a check that names no type has that of the context. */
  function ChecksOf(actions: seq<Action>, context: nat): seq<Check>
    decreases |actions|
  {
    if actions == [] then []
    else
      var rest := ChecksOf(actions[1..], context);
      match actions[0]
      case Register(_, _) => rest
      case AssertTrue(pass) => [Check(pass, context)] + rest
      case AssertAs(pass, caseType) => [Check(pass, caseType)] + rest
  }

  lemma {:induction false} ActionsCheck(r: Run, actions: seq<Action>)
    requires r.tally.Valid()
    ensures ActAll(r, actions).open == r.open + ChecksOf(actions, r.tally.context)
    ensures ActAll(r, actions).tally.context == r.tally.context
    decreases |actions|
  {
    hide Insert, Record;
    if actions != [] {
      ActionsCheck(Act(r, actions[0]), actions[1..]);
    }
  }

  lemma CallChecks(r: Run, fn: Fn)
    requires r.tally.Valid()
    ensures Call(r, fn).open == r.open + ChecksOf(NextCall(r.calls, fn), r.tally.context)
    ensures Call(r, fn).calls == CallsAfter(r.calls, fn) && Call(r, fn).ended == r.ended
  {
    hide ActAll;
    if fn != 0 {
      ActionsCheck(Dispatched(r, fn), NextCall(r.calls, fn));
    } else {
      assert r.open + [] == r.open;
    }
  }

  /**
   * An entry is one segment: the checks of its setup as TSF, then those of its test as FAILURE and of its teardown as
   * TTF.
   */
  lemma EntryChecks(r: Run, e: Entry)
    requires r.tally.Valid()
    ensures var c1 := CallsAfter(r.calls, e.setup);
      var c2 := CallsAfter(c1, e.test);
      && RunEntry(r, e).ended == r.ended + [ChecksOf(NextCall(r.calls, e.setup), TSF)
           + ChecksOf(NextCall(c1, e.test), FAILURE) + ChecksOf(NextCall(c2, e.teardown), TTF)]
      && RunEntry(r, e).calls == CallsAfter(c2, e.teardown)
  {
    hide Call, ChecksOf, NextCall, CallsAfter;
    var r0 := InContext(BeginSegment(r.(visited := r.visited + [e])), TSF);
    var r1 := InContext(Call(r0, e.setup), FAILURE);
    var r2 := InContext(Counted(Call(r1, e.test), e.test), TTF);
    CallChecks(r0, e.setup);
    CallChecks(r1, e.test);
    CallChecks(r2, e.teardown);
    var first := ChecksOf(NextCall(r.calls, e.setup), TSF);
    assert [] + first == first;
  }

  /** How many entries have a test function. */
  function TestsIn(entries: seq<Entry>): nat
    decreases |entries|
  {
    if entries == [] then 0
    else TestsIn(entries[..|entries| - 1]) + (if entries[|entries| - 1].test == 0 then 0 else 1)
  }

  ghost predicate Accounted(r: Run)
    requires r.tally.Valid()
  {
    && Tallied(r)
    && |r.ended| == 1 + |r.visited|
    && r.executedCount == TestsIn(r.visited) % UINT32
  }

  lemma VisitIsAccounted(r: Run)
    requires r.tally.Valid() && r.place.Merged? && r.place.ahead != [] && Accounted(r)
    ensures Accounted(Visit(r))
  {
    hide TotalOf, RecordAll, RunEntry;
    if r.place.ahead[0].Reg? {
      var e := r.place.ahead[0].entry;
      var visited := r.visited + [e];
      EntryIsTallied(Advance(r), e);
      assert visited[..|visited| - 1] == r.visited;
      WrappedSum(TestsIn(r.visited), 1);
    }
  }

  lemma {:induction false} WalkIsAccounted(r: Run)
    requires r.tally.Valid() && r.place.Merged? && Accounted(r)
    ensures Accounted(Walk(r))
    decreases Measure(r)
  {
    if r.place.ahead != [] {
      VisitIsAccounted(r);
      VisitDecreases(r);
      WalkIsAccounted(Visit(r));
    }
  }

  /**
   * At the end the counters are exactly those of the segments, one for start-up and one for every entry run, and the
   * executed count is the number of entries run that have a test function.
   */
  lemma ApplicationIsAccounted(actions: seq<Action>, calls: seq<Script>)
    ensures Accounted(Application(actions, calls))
  {
    hide Walk, ActAll;
    var r0 := BeginSegment(Initial(calls));
    assert Tallied(r0);
    ActionsAreTallied(r0, actions);
    EndIsTallied(ActAll(r0, actions));
    WalkIsAccounted(MergeLists(Startup(actions, calls)));
  }
}
