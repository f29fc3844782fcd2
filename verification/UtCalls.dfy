/** Which of the user's functions a run calls, and what becomes of what they do: the counters are about their checks. */
module UtCalls {
  import opened UtAssert
  import opened UtRun
  import opened UtRunProperties

  // ----- Which functions are called -----

  function OneCall(fn: Fn, context: nat): seq<Calling> {
    if fn == 0 then [] else [Calling(fn, context)]
  }

  /** The functions that an entry has, in order, each with the type that its checks have unless they name one. */
  function EntryCalls(e: Entry): seq<Calling> {
    OneCall(e.setup, TSF) + OneCall(e.test, FAILURE) + OneCall(e.teardown, TTF)
  }

  function CallsOf(entries: seq<Entry>): seq<Calling>
    decreases |entries|
  {
    if entries == [] then [] else CallsOf(entries[..|entries| - 1]) + EntryCalls(entries[|entries| - 1])
  }

  // ----- What a call does -----

  /** What one function does in its calls, call by call. */
  function ScriptsOf(calls: seq<Script>, fn: Fn): seq<seq<Action>>
    decreases |calls|
  {
    if calls == [] then []
    else (if calls[0].fn == fn then [calls[0].actions] else []) + ScriptsOf(calls[1..], fn)
  }

  /** What a function does in its n-th call, counted from 0. */
  function NthCall(calls: seq<Script>, fn: Fn, n: nat): seq<Action> {
    if fn != 0 && n < |ScriptsOf(calls, fn)| then ScriptsOf(calls, fn)[n] else []
  }

  /** How often a function has been called. */
  function TimesCalled(called: seq<Calling>, fn: Fn): nat
    decreases |called|
  {
    if called == [] then 0
    else TimesCalled(called[..|called| - 1], fn) + (if called[|called| - 1].fn == fn then 1 else 0)
  }

  /** What a function does when it is called after these calls. */
  function Does(calls: seq<Script>, called: seq<Calling>, fn: Fn): seq<Action> {
    NthCall(calls, fn, TimesCalled(called, fn))
  }

  function Drop<A>(s: seq<A>, n: nat): seq<A> {
    if n <= |s| then s[n..] else []
  }

  /** What is left of the scripts after these calls: for every function those it has not used up. */
  ghost predicate Left(calls: seq<Script>, called: seq<Calling>, rest: seq<Script>) {
    forall fn: Fn :: fn != 0 ==> ScriptsOf(rest, fn) == Drop(ScriptsOf(calls, fn), TimesCalled(called, fn))
  }

  lemma {:induction false} NextScript(calls: seq<Script>, fn: Fn, other: Fn)
    requires fn != 0
    ensures NextCall(calls, fn) == if ScriptsOf(calls, fn) == [] then [] else ScriptsOf(calls, fn)[0]
    ensures ScriptsOf(CallsAfter(calls, fn), other) ==
      if other == fn then Drop(ScriptsOf(calls, fn), 1) else ScriptsOf(calls, other)
    decreases |calls|
  {
    if calls != [] {
      NextScript(calls[1..], fn, other);
      if calls[0].fn != fn {
        assert CallsAfter(calls, fn)[1..] == CallsAfter(calls[1..], fn);
      }
    }
  }

  lemma DropTwice<A>(s: seq<A>, n: nat)
    ensures Drop(Drop(s, n), 1) == Drop(s, n + 1)
    ensures Drop(s, n) != [] ==> n < |s| && Drop(s, n)[0] == s[n]
    ensures Drop(s, n) == [] ==> n >= |s|
  {
  }

  lemma OneMoreCall(called: seq<Calling>, fn: Fn, context: nat, other: Fn)
    ensures TimesCalled(called + [Calling(fn, context)], other)
         == TimesCalled(called, other) + (if fn == other then 1 else 0)
  {
    assert (called + [Calling(fn, context)])[..|called|] == called;
  }

  /** The next call of a function is the one whose turn it is. */
  lemma CallIsNext(calls: seq<Script>, called: seq<Calling>, rest: seq<Script>, fn: Fn, context: nat)
    requires Left(calls, called, rest) && fn != 0
    ensures NextCall(rest, fn) == Does(calls, called, fn)
    ensures Left(calls, called + [Calling(fn, context)], CallsAfter(rest, fn))
  {
    hide NextCall, CallsAfter, ScriptsOf, TimesCalled, Drop;
    NextScript(rest, fn, fn);
    DropTwice(ScriptsOf(calls, fn), TimesCalled(called, fn));
    forall other: Fn | other != 0
      ensures ScriptsOf(CallsAfter(rest, fn), other)
           == Drop(ScriptsOf(calls, other), TimesCalled(called + [Calling(fn, context)], other))
    {
      NextScript(rest, fn, other);
      OneMoreCall(called, fn, context, other);
    }
  }

  lemma NothingCalled(calls: seq<Script>)
    ensures Left(calls, [], calls)
  {
  }

  // ----- Registrations -----

  /** What a list of actions registers, in which groups. */
  function Requested(actions: seq<Action>): seq<(Entry, nat)>
    decreases |actions|
  {
    if actions == [] then []
    else
      var rest := Requested(actions[1..]);
      if actions[0].Register? && actions[0].group < GROUP_MAX then [(actions[0].entry, actions[0].group)] + rest
      else rest
  }

  function Recorded(registered: seq<Registration>): (r: seq<(Entry, nat)>)
    ensures |r| == |registered|
  {
    seq(|registered|, i requires 0 <= i < |registered| => (registered[i].entry, registered[i].group))
  }

  /** What all calls register, call by call. */
  function RequestedBy(calls: seq<Script>, called: seq<Calling>): seq<(Entry, nat)>
    decreases |called|
  {
    if called == [] then []
    else
      var prior := called[..|called| - 1];
      RequestedBy(calls, prior) + Requested(Does(calls, prior, called[|called| - 1].fn))
  }

  lemma {:induction false} ActionsRegister(r: Run, actions: seq<Action>)
    requires r.tally.Valid()
    ensures Recorded(ActAll(r, actions).registered) == Recorded(r.registered) + Requested(actions)
    decreases |actions|
  {
    hide Insert, Record, Late;
    if actions != [] {
      var s := Act(r, actions[0]);
      ActionsRegister(s, actions[1..]);
      if actions[0].Register? && actions[0].group < GROUP_MAX {
        assert Recorded(s.registered) == Recorded(r.registered) + [(actions[0].entry, actions[0].group)];
      }
    }
  }

  // ----- Segments -----

  /** The checks of a call after these calls. */
  function CallChecks(calls: seq<Script>, called: seq<Calling>, fn: Fn, context: nat): seq<Check> {
    if fn == 0 then [] else ChecksOf(Does(calls, called, fn), context)
  }

  /** The checks of an entry that is executed after these calls. */
  function EntrySegment(calls: seq<Script>, called: seq<Calling>, e: Entry): seq<Check> {
    var c1 := called + OneCall(e.setup, TSF);
    var c2 := c1 + OneCall(e.test, FAILURE);
    CallChecks(calls, called, e.setup, TSF) + CallChecks(calls, c1, e.test, FAILURE)
      + CallChecks(calls, c2, e.teardown, TTF)
  }

  function EntrySegments(calls: seq<Script>, entries: seq<Entry>): seq<seq<Check>>
    decreases |entries|
  {
    if entries == [] then []
    else
      var prior := entries[..|entries| - 1];
      EntrySegments(calls, prior) + [EntrySegment(calls, CallsOf(prior), entries[|entries| - 1])]
  }

  /** The segments of a run: the checks of the user's set-up function as FAILURE, then those of every entry executed. */
  function UserSegments(actions: seq<Action>, calls: seq<Script>, entries: seq<Entry>): seq<seq<Check>> {
    [ChecksOf(actions, FAILURE)] + EntrySegments(calls, entries)
  }

  // ----- Every run -----

  /** The calls so far use up the scripts, and what is registered is what was requested at first and by these calls. */
  ghost predicate InStep(r: Run, first: seq<(Entry, nat)>, calls: seq<Script>) {
    && Left(calls, r.called, r.calls)
    && Recorded(r.registered) == first + RequestedBy(calls, r.called)
  }

  /** All that the user's functions do is in the history of the run, and nothing else is. */
  ghost predicate Faithful(r: Run, actions: seq<Action>, calls: seq<Script>) {
    && InStep(r, Requested(actions), calls)
    && r.called == CallsOf(r.visited)
    && r.ended == UserSegments(actions, calls, r.visited)
  }

  lemma RequestedByOneMore(calls: seq<Script>, called: seq<Calling>, c: Calling)
    ensures RequestedBy(calls, called + [c]) == RequestedBy(calls, called) + Requested(Does(calls, called, c.fn))
  {
    assert (called + [c])[..|called|] == called;
  }

  lemma CallIsInStep(r: Run, fn: Fn, first: seq<(Entry, nat)>, calls: seq<Script>)
    requires r.tally.Valid() && InStep(r, first, calls)
    ensures var s := Call(r, fn);
      && InStep(s, first, calls)
      && s.called == r.called + OneCall(fn, r.tally.context)
      && s.open == r.open + CallChecks(calls, r.called, fn, r.tally.context)
      && s.ended == r.ended && s.visited == r.visited && s.tally.context == r.tally.context
  {
    hide ActAll, ChecksOf, Does, Requested, RequestedBy, Left, Recorded;
    if fn == 0 {
      assert r.open + [] == r.open && r.called + [] == r.called;
    } else {
      var actions := NextCall(r.calls, fn);
      CallIsNext(calls, r.called, r.calls, fn, r.tally.context);
      ActionsCheck(Dispatched(r, fn), actions);
      ActionsRegister(Dispatched(r, fn), actions);
      RequestedByOneMore(calls, r.called, Calling(fn, r.tally.context));
      assert first + RequestedBy(calls, r.called) + Requested(actions)
          == first + (RequestedBy(calls, r.called) + Requested(actions));
    }
  }

  lemma EntryIsInStep(r: Run, e: Entry, first: seq<(Entry, nat)>, calls: seq<Script>)
    requires r.tally.Valid() && InStep(r, first, calls)
    ensures var s := RunEntry(r, e);
      && InStep(s, first, calls)
      && s.called == r.called + EntryCalls(e) && s.visited == r.visited + [e]
      && s.ended == r.ended + [EntrySegment(calls, r.called, e)]
  {
    hide Call, CallChecks, OneCall, Left, Recorded, RequestedBy;
    var r0 := InContext(BeginSegment(r.(visited := r.visited + [e])), TSF);
    var r1 := InContext(Call(r0, e.setup), FAILURE);
    var r2 := InContext(Counted(Call(r1, e.test), e.test), TTF);
    CallIsInStep(r0, e.setup, first, calls);
    CallIsInStep(r1, e.test, first, calls);
    CallIsInStep(r2, e.teardown, first, calls);
    var c := CallChecks(calls, r.called, e.setup, TSF);
    assert [] + c == c;
    assert r.called + OneCall(e.setup, TSF) + OneCall(e.test, FAILURE) + OneCall(e.teardown, TTF)
        == r.called + EntryCalls(e);
  }

  lemma VisitIsFaithful(r: Run, actions: seq<Action>, calls: seq<Script>)
    requires r.tally.Valid() && r.place.Merged? && r.place.ahead != [] && Faithful(r, actions, calls)
    ensures Faithful(Visit(r), actions, calls)
  {
    hide RunEntry, EntrySegment, EntryCalls, Requested;
    if r.place.ahead[0].Reg? {
      var e := r.place.ahead[0].entry;
      var visited := r.visited + [e];
      hide Left, Recorded, RequestedBy;
      EntryIsInStep(Advance(r), e, Requested(actions), calls);
      assert visited[..|visited| - 1] == r.visited;
      assert UserSegments(actions, calls, visited)
          == UserSegments(actions, calls, r.visited) + [EntrySegment(calls, r.called, e)];
    }
  }

  lemma {:induction false} WalkIsFaithful(r: Run, actions: seq<Action>, calls: seq<Script>)
    requires r.tally.Valid() && r.place.Merged? && Faithful(r, actions, calls)
    ensures Faithful(Walk(r), actions, calls)
    decreases Measure(r)
  {
    hide Faithful, Visit;
    if r.place.ahead != [] {
      VisitIsFaithful(r, actions, calls);
      VisitDecreases(r);
      WalkIsFaithful(Visit(r), actions, calls);
    }
  }

  lemma StartupIsFaithful(actions: seq<Action>, calls: seq<Script>)
    ensures Faithful(MergeLists(Startup(actions, calls)), actions, calls)
  {
    hide ActAll, ChecksOf, Requested, MergedItems, End;
    var r := BeginSegment(Initial(calls));
    ActionsCheck(r, actions);
    ActionsRegister(r, actions);
    NothingCalled(calls);
    assert [] + ChecksOf(actions, FAILURE) == ChecksOf(actions, FAILURE);
    assert [] + Requested(actions) == Requested(actions) + [];
  }

  /**
   * In every run, whatever the user's functions do: the calls are those of the functions of each entry executed, in
   * order, once each; the segments are the checks that the user's set-up function and these calls make; and what is
   * registered is what they register, in that order.
   */
  lemma FunctionsAreCalled(actions: seq<Action>, calls: seq<Script>)
    ensures var r := Application(actions, calls);
      && r.called == CallsOf(r.visited)
      && r.ended == UserSegments(actions, calls, r.visited)
      && Recorded(r.registered) == Requested(actions) + RequestedBy(calls, r.called)
  {
    hide Walk, ActAll, MergedItems, UserSegments, Requested, RequestedBy, Recorded, CallsOf;
    StartupIsFaithful(actions, calls);
    WalkIsFaithful(MergeLists(Startup(actions, calls)), actions, calls);
  }

  // ----- The verdict -----

  /** The global counters are those of the checks that the user's functions make. */
  lemma CountersAreTheUsers(actions: seq<Action>, calls: seq<Script>)
    ensures var r := Application(actions, calls); r.tally.total == TotalOf(UserSegments(actions, calls, r.visited))
  {
    hide Application;
    FunctionsAreCalled(actions, calls);
    ApplicationIsAccounted(actions, calls);
  }

  /** The process exits with success exactly when no check that the user's functions make fails. */
  lemma VerdictOfTheRun(actions: seq<Action>, calls: seq<Script>)
    requires TotalChecks(UserSegments(actions, calls, Application(actions, calls).visited)) < UINT32
    ensures var r := Application(actions, calls);
      ExitCode(r.tally.total) == OS_SUCCESS <==> NothingFails(UserSegments(actions, calls, r.visited))
  {
    hide Application, UserSegments;
    CountersAreTheUsers(actions, calls);
    ExitCodeIsTheVerdict(UserSegments(actions, calls, Application(actions, calls).visited));
  }

  /** A set-up function that makes one failing check and registers nothing fails the process. */
  lemma FailedStartupIsReported()
    ensures ExitCode(Application([AssertTrue(false)], []).tally.total) == OS_ERROR
  {
    var actions := [AssertTrue(false)];
    hide Walk;
    GroupsRunInOrder(actions, []);
    var segments := UserSegments(actions, [], []);
    assert ChecksOf(actions, FAILURE) == [Check(false, FAILURE)];
    assert segments == [[Check(false, FAILURE)]];
    var failing: Check := segments[0][0];
    assert failing.Fails();
    assert TotalChecks(segments) == 1;
    VerdictOfTheRun(actions, []);
  }
}
