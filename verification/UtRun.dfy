/** What a run of the unit-test executive does, as a function of what was registered and of what the callbacks do. */
module UtRun {
  import opened Basics
  import opened UtAssert

  /** The registration groups; each is the tag of one list head. */
  const GROUP_DEFAULT: nat := 0
  const GROUP_SETUP: nat := 1
  const GROUP_TEST: nat := 2
  const GROUP_TEARDOWN: nat := 3
  const GROUP_MAX: nat := 4

  /** A function pointer; 0 is NULL. */
  type Fn = nat

  /** OSAL_CONFIG_MAX_API_NAME in the default configuration; the field for a test's name is twice as long. */
  const MAX_API_NAME: nat := 20
  const TEST_NAME_SIZE: nat := 2 * MAX_API_NAME

  /** A name as the database stores it: shorter than its field, which ends with a NUL. */
  type TestName = s: string | |s| < TEST_NAME_SIZE witness ""

  datatype Entry = Entry(test: Fn, setup: Fn, teardown: Fn, name: TestName)

  /** What strncpy leaves of a name in the zeroed field: the longest prefix with room for the NUL. */
  function StoredName(name: Option<string>): (r: TestName)
    ensures name == None ==> r == ""
    ensures name.Some? ==> r <= name.value && (|name.value| < TEST_NAME_SIZE ==> r == name.value)
    ensures name.Some? && |name.value| >= TEST_NAME_SIZE ==> |r| == TEST_NAME_SIZE - 1
  {
    match name
    case None => ""
    case Some(s) => if |s| < TEST_NAME_SIZE then s else s[..TEST_NAME_SIZE - 1]
  }

  /**
   * What user code does while it has control: register entries and make checks, in the current context or a given type.
   */
  datatype Action =
    | Register(entry: Entry, group: nat)
    | AssertTrue(pass: bool)
    | AssertAs(pass: bool, caseType: nat)

  /** What one of the user's functions does when it is called; the scripts of a function are used up in their order. */
  datatype Script = Script(fn: Fn, actions: seq<Action>)

  /** A call that was made, and the context it was made in. */
  datatype Calling = Calling(fn: Fn, context: nat)

  /**
   * What a node of the database stands for. An entry is late when it was linked in behind the cursor of the walk, that
   * is, when its place in the merged list had been passed already.
   */
  datatype Item = Head(tag: nat) | Reg(entry: Entry, late: bool)

  /** Where the items are: in a list per group, or in the merged list, split at the cursor of the walk. */
  datatype Place = Separate(groups: seq<seq<Item>>) | Merged(done: seq<Item>, ahead: seq<Item>)

  datatype Registration = Registration(entry: Entry, group: nat, late: bool)

  /** The state of a run together with its history. */
  datatype Run = Run(
    place: Place,
    tally: Tally,
    executedCount: nat,
    calls: seq<Script>,               // what the callbacks will do in the calls still to come
    called: seq<Calling>,             // the calls made so far
    visited: seq<Entry>,              // the entries run so far
    registered: seq<Registration>,    // the entries registered so far
    ended: seq<seq<Check>>,           // the checks made in each segment that has ended
    open: seq<Check>                  // the checks made in the segment that is open
  )

  // ----- Registration -----

  /** Links an item in right before the head of a group. */
  function InsertBeforeHead(items: seq<Item>, group: nat, item: Item): seq<Item> {
    if items == [] then []
    else if items[0] == Head(group) then [item] + items
    else [items[0]] + InsertBeforeHead(items[1..], group, item)
  }

  /**
   * UtList_Add on the database. Once the lists are merged, the place before a group's head is the end of the group
   * before it; the place before the default head is the end of everything.
   */
  function Insert(p: Place, entry: Entry, group: nat): Place {
    if group >= GROUP_MAX then p
    else match p
      case Separate(groups) =>
        if group < |groups| then Separate(groups[group := groups[group] + [Reg(entry, false)]]) else p
      case Merged(done, ahead) =>
        if group == GROUP_DEFAULT then Merged(done, ahead + [Reg(entry, false)])
        else if Head(group) in ahead then Merged(done, InsertBeforeHead(ahead, group, Reg(entry, false)))
        else Merged(InsertBeforeHead(done, group, Reg(entry, true)), ahead)
  }

  predicate Late(p: Place, group: nat) {
    p.Merged? && group != GROUP_DEFAULT && Head(group) !in p.ahead
  }

  function Registered(r: Run, entry: Entry, group: nat): Run {
    r.(place := Insert(r.place, entry, group),
       registered :=
         if group < GROUP_MAX then r.registered + [Registration(entry, group, Late(r.place, group))] else r.registered)
  }

  // ----- Callbacks -----

  function Checked(r: Run, c: Check): Run
    requires r.tally.Valid()
  {
    r.(tally := Record(r.tally, c), open := r.open + [c])
  }

  function Act(r: Run, a: Action): (s: Run)
    requires r.tally.Valid()
    ensures s.tally.Valid() && s.calls == r.calls && s.called == r.called && s.place.Merged? == r.place.Merged?
    ensures s.visited == r.visited && s.executedCount == r.executedCount && s.ended == r.ended
    ensures s.place.Separate? ==> |s.place.groups| == |r.place.groups|
  {
    match a
    case Register(entry, group) => Registered(r, entry, group)
    case AssertTrue(pass) => Checked(r, Check(pass, r.tally.context))
    case AssertAs(pass, caseType) => Checked(r, Check(pass, caseType))
  }

  function ActAll(r: Run, actions: seq<Action>): (s: Run)
    requires r.tally.Valid()
    ensures s.tally.Valid() && s.calls == r.calls && s.called == r.called && s.place.Merged? == r.place.Merged?
    ensures s.visited == r.visited && s.executedCount == r.executedCount && s.ended == r.ended
    ensures s.place.Separate? ==> |s.place.groups| == |r.place.groups|
    decreases |actions|
  {
    if actions == [] then r else ActAll(Act(r, actions[0]), actions[1..])
  }

  function Pending(calls: seq<Script>): nat
    decreases |calls|
  {
    if calls == [] then 0 else |calls[0].actions| + Pending(calls[1..])
  }

  /** What bounds the rest of the walk: the items ahead and the actions that may still add to them. */
  function Measure(r: Run): nat
    requires r.place.Merged?
  {
    |r.place.ahead| + Pending(r.calls)
  }

  /** What a function does when it is called now: its next script, or nothing when it has none left, as NULL has. */
  function NextCall(calls: seq<Script>, fn: Fn): seq<Action>
    decreases |calls|
  {
    if fn == 0 || calls == [] then []
    else if calls[0].fn == fn then calls[0].actions
    else NextCall(calls[1..], fn)
  }

  /** The scripts that are left after that. */
  function CallsAfter(calls: seq<Script>, fn: Fn): seq<Script>
    decreases |calls|
  {
    if fn == 0 || calls == [] then calls
    else if calls[0].fn == fn then calls[1..]
    else [calls[0]] + CallsAfter(calls[1..], fn)
  }

  function Dispatched(r: Run, fn: Fn): Run {
    r.(calls := CallsAfter(r.calls, fn), called := r.called + [Calling(fn, r.tally.context)])
  }

  /** Calling a function pointer in the current context; NULL is not called. */
  function Call(r: Run, fn: Fn): (s: Run)
    requires r.tally.Valid()
    ensures s.tally.Valid() && s.place.Merged? == r.place.Merged?
  {
    if fn == 0 then r else ActAll(Dispatched(r, fn), NextCall(r.calls, fn))
  }

  function InContext(r: Run, context: nat): (s: Run)
    requires r.tally.Valid()
    ensures s.tally.Valid()
  {
    r.(tally := r.tally.(context := context))
  }

  function BeginSegment(r: Run): Run
    requires r.tally.Valid()
  {
    r.(tally := Begin(r.tally), open := [])
  }

  function EndSegment(r: Run): Run
    requires r.tally.Valid()
  {
    r.(tally := End(r.tally), ended := r.ended + [r.open], open := [])
  }

  function Counted(r: Run, fn: Fn): Run {
    if fn == 0 then r else r.(executedCount := (r.executedCount + 1) % UINT32)
  }

  /** One entry: its three functions, each in its own context, inside a segment of their own. */
  function RunEntry(r: Run, e: Entry): (s: Run)
    requires r.tally.Valid()
    ensures s.tally.Valid() && s.place.Merged? == r.place.Merged?
  {
    var r0 := InContext(BeginSegment(r.(visited := r.visited + [e])), TSF);
    var r1 := InContext(Call(r0, e.setup), FAILURE);
    var r2 := InContext(Counted(Call(r1, e.test), e.test), TTF);
    EndSegment(Call(r2, e.teardown))
  }

  // ----- The walk -----

  function Advance(r: Run): Run
    requires r.place.Merged? && r.place.ahead != []
  {
    r.(place := Merged(r.place.done + [r.place.ahead[0]], r.place.ahead[1..]))
  }

  function Visit(r: Run): (s: Run)
    requires r.place.Merged? && r.place.ahead != [] && r.tally.Valid()
    ensures s.tally.Valid() && s.place.Merged?
  {
    match r.place.ahead[0]
    case Head(_) => Advance(r)
    case Reg(e, _) => RunEntry(Advance(r), e)
  }

  function Walk(r: Run): (s: Run)
    requires r.place.Merged? && r.tally.Valid()
    ensures s.tally.Valid() && s.place.Merged? && s.place.ahead == []
    decreases Measure(r)
  {
    if r.place.ahead == [] then r
    else
      VisitDecreases(r);
      Walk(Visit(r))
  }

  // ----- A whole application -----

  function Initial(calls: seq<Script>): (r: Run)
    ensures r.tally.Valid()
  {
    Run(Separate([[], [], [], []]), Tally(FAILURE, Zero(), Zero()), 0, calls, [], [], [], [], [])
  }

  /** The user's set-up function, wrapped in a segment of its own. */
  function Startup(actions: seq<Action>, calls: seq<Script>): (r: Run)
    ensures r.tally.Valid() && r.place.Separate? && |r.place.groups| == GROUP_MAX
  {
    EndSegment(ActAll(BeginSegment(Initial(calls)), actions))
  }

  /** The lists from one group on, linked into one; the head of every later group is still in it. */
  function MergedItems(groups: seq<seq<Item>>, g: nat): seq<Item>
    requires g < |groups|
    decreases |groups| - g
  {
    if g + 1 == |groups| then groups[g] else groups[g] + [Head(g + 1)] + MergedItems(groups, g + 1)
  }

  function MergeLists(r: Run): Run
    requires r.place.Separate? && |r.place.groups| == GROUP_MAX
  {
    r.(place := Merged([], MergedItems(r.place.groups, GROUP_DEFAULT)))
  }

  /** From start-up to the end of the walk. */
  function Application(actions: seq<Action>, calls: seq<Script>): (r: Run)
    ensures r.tally.Valid() && r.place.Merged? && r.place.ahead == []
  {
    Walk(MergeLists(Startup(actions, calls)))
  }

  // ----- The walk ends -----

  lemma {:induction false} InsertedLength(items: seq<Item>, group: nat, item: Item)
    ensures |InsertBeforeHead(items, group, item)| == |items| + (if Head(group) in items then 1 else 0)
    decreases |items|
  {
    if items != [] {
      InsertedLength(items[1..], group, item);
    }
  }

  lemma {:induction false} ActAllAddsAtMost(r: Run, actions: seq<Action>)
    requires r.tally.Valid() && r.place.Merged?
    ensures |ActAll(r, actions).place.ahead| <= |r.place.ahead| + |actions|
    decreases |actions|
  {
    if actions != [] {
      if actions[0].Register? {
        InsertedLength(r.place.ahead, actions[0].group, Reg(actions[0].entry, false));
      }
      ActAllAddsAtMost(Act(r, actions[0]), actions[1..]);
    }
  }

  /** A call uses up its own actions. */
  lemma {:induction false} CallUsesUp(calls: seq<Script>, fn: Fn)
    ensures Pending(CallsAfter(calls, fn)) + |NextCall(calls, fn)| == Pending(calls)
    decreases |calls|
  {
    if fn != 0 && calls != [] && calls[0].fn != fn {
      CallUsesUp(calls[1..], fn);
    }
  }

  lemma CallKeepsMeasure(r: Run, fn: Fn)
    requires r.tally.Valid() && r.place.Merged?
    ensures Measure(Call(r, fn)) <= Measure(r)
  {
    if fn != 0 {
      ActAllAddsAtMost(Dispatched(r, fn), NextCall(r.calls, fn));
      CallUsesUp(r.calls, fn);
    }
  }

  lemma VisitDecreases(r: Run)
    requires r.place.Merged? && r.place.ahead != [] && r.tally.Valid()
    ensures Measure(Visit(r)) < Measure(r)
  {
    var a := Advance(r);
    if r.place.ahead[0].Reg? {
      var e := r.place.ahead[0].entry;
      var r0 := InContext(BeginSegment(a.(visited := a.visited + [e])), TSF);
      var r1 := InContext(Call(r0, e.setup), FAILURE);
      var r2 := InContext(Counted(Call(r1, e.test), e.test), TTF);
      CallKeepsMeasure(r0, e.setup);
      CallKeepsMeasure(r1, e.test);
      CallKeepsMeasure(r2, e.teardown);
    }
  }
}
