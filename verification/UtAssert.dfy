/** The assertion counters of UT Assert, from a single check to the exit code of the process. */
module UtAssert {

  const FAILURE: nat := 2
  const TSF: nat := 3
  const TTF: nat := 4
  const PASS: nat := 11
  const CASETYPE_MAX: nat := 14

  const OS_SUCCESS: int := 0
  const OS_ERROR: int := -1

  const UINT32: nat := 0x1_0000_0000

  /** UtAssert_TestCounter_t; every count is a uint32 and wraps. */
  datatype Counter = Counter(segments: nat, total: nat, cases: seq<nat>) {
    predicate Valid() {
      && segments < UINT32 && total < UINT32 && |cases| == CASETYPE_MAX
      && forall k :: 0 <= k < CASETYPE_MAX ==> cases[k] < UINT32
    }
  }

  function Zero(): (c: Counter)
    ensures c.Valid()
  {
    Counter(0, 0, seq(CASETYPE_MAX, _ => 0))
  }

  /** The context for checks that name no type of their own, the open segment's counts and the global counts. */
  datatype Tally = Tally(context: nat, segment: Counter, total: Counter) {
    predicate Valid() {
      segment.Valid() && total.Valid()
    }
  }

  datatype Check = Check(pass: bool, caseType: nat) {
    /** The type a check is counted under. */
    function CountedAs(): nat {
      if pass then PASS else caseType
    }

    predicate Fails() {
      !pass && caseType in {FAILURE, TSF, TTF}
    }
  }

  function Bump(n: nat): nat {
    (n + 1) % UINT32
  }

  function Record(t: Tally, c: Check): (r: Tally)
    requires t.Valid()
    ensures r.Valid() && r.total == t.total && r.context == t.context
  {
    var s, k := t.segment, c.CountedAs();
    t.(segment := s.(total := Bump(s.total), cases := if k < CASETYPE_MAX then s.cases[k := Bump(s.cases[k])]
      else s.cases))
  }

  function Begin(t: Tally): (r: Tally)
    requires t.Valid()
    ensures r.Valid()
  {
    t.(segment := Zero())
  }

  function SumCases(a: seq<nat>, b: seq<nat>): (r: seq<nat>)
    requires |a| == |b| == CASETYPE_MAX
    ensures |r| == CASETYPE_MAX
  {
    seq(CASETYPE_MAX, k requires 0 <= k < CASETYPE_MAX => (a[k] + b[k]) % UINT32)
  }

  function End(t: Tally): (r: Tally)
    requires t.Valid()
    ensures r.Valid()
  {
    var s, g := t.segment, t.total;
    t.(segment := Zero(),
       total := if s.total == 0 then g
                else Counter(Bump(g.segments), (g.total + s.total) % UINT32, SumCases(g.cases, s.cases)))
  }

  function ExitCode(c: Counter): int
    requires c.Valid()
  {
    if c.cases[FAILURE] > 0 || c.cases[TSF] > 0 || c.cases[TTF] > 0 then OS_ERROR else OS_SUCCESS
  }

  // ----- The counters in place -----

  class Counters {
    var context: nat
    var segment: Counter
    var total: Counter

    ghost function State(): Tally
      reads this
    {
      Tally(context, segment, total)
    }

    ghost predicate Valid()
      reads this
    {
      State().Valid()
    }

    constructor ()
      ensures Valid() && State() == Tally(FAILURE, Zero(), Zero())
    {
      context, segment, total := FAILURE, Zero(), Zero();
    }

    method BeginTest()
      requires Valid()
      modifies this
      ensures Valid() && State() == Begin(old(State()))
    {
      segment := Zero();
    }

    method EndTest()
      requires Valid()
      modifies this
      ensures Valid() && State() == End(old(State()))
    {
      if segment.total > 0 {
        ghost var before := total.cases;
        total := total.(segments := Bump(total.segments), total := (total.total + segment.total) % UINT32);
        var ct := 0;
        while ct < CASETYPE_MAX
          invariant 0 <= ct <= CASETYPE_MAX && Valid()
          invariant context == old(context) && segment.cases == old(segment).cases
          invariant total == Counter(Bump(old(total).segments), (old(total).total + old(segment).total) % UINT32,
            total.cases)
          invariant forall k :: 0 <= k < CASETYPE_MAX ==>
            total.cases[k] == if k < ct then (before[k] + segment.cases[k]) % UINT32 else before[k]
        {
          total := total.(cases := total.cases[ct := (total.cases[ct] + segment.cases[ct]) % UINT32]);
          ct := ct + 1;
        }
        assert total.cases == SumCases(before, old(segment).cases);
      }
      segment := Zero();
    }

    method SetContext(context: nat)
      requires Valid()
      modifies this
      ensures Valid() && State() == old(State()).(context := context)
    {
      this.context := context;
    }

    method AssertEx(expression: bool, caseType: nat) returns (r: bool)
      requires Valid()
      modifies this
      ensures Valid() && State() == Record(old(State()), Check(expression, caseType))
      ensures r == expression
    {
      segment := segment.(total := Bump(segment.total));
      var countedAs := if expression then PASS else caseType;
      if countedAs < CASETYPE_MAX {
        segment := segment.(cases := segment.cases[countedAs := Bump(segment.cases[countedAs])]);
      }
      return expression;
    }
  }

  // ----- Whole segments and whole runs -----

  function RecordAll(t: Tally, checks: seq<Check>): (r: Tally)
    requires t.Valid()
    ensures r.Valid()
    decreases |checks|
  {
    if checks == [] then t else Record(RecordAll(t, checks[..|checks| - 1]), checks[|checks| - 1])
  }

  /** The global counts after a list of segments. */
  function TotalOf(segments: seq<seq<Check>>): (c: Counter)
    ensures c.Valid()
    decreases |segments|
  {
    if segments == [] then Zero()
    else End(Tally(0, RecordAll(Tally(0, Zero(), Zero()), segments[|segments| - 1]).segment,
      TotalOf(segments[..|segments| - 1]))).total
  }

  /** How many checks are counted under a type. */
  function Count(checks: seq<Check>, k: nat): (n: nat)
    ensures n <= |checks|
    decreases |checks|
  {
    if checks == [] then 0
    else Count(checks[..|checks| - 1], k) + (if checks[|checks| - 1].CountedAs() == k then 1 else 0)
  }

  /** The same over segments. A segment whose number of checks wraps to zero is taken for an empty one and lost. */
  function CountAll(segments: seq<seq<Check>>, k: nat): nat
    decreases |segments|
  {
    if segments == [] then 0
    else
      var s := segments[|segments| - 1];
      CountAll(segments[..|segments| - 1], k) + (if |s| % UINT32 == 0 then 0 else Count(s, k))
  }

  lemma WrappedSum(a: nat, b: nat)
    ensures (a % UINT32 + b % UINT32) % UINT32 == (a + b) % UINT32
    ensures (a % UINT32 + b) % UINT32 == (a + b) % UINT32
  {
  }

  lemma {:induction false} SegmentCounts(checks: seq<Check>, k: nat)
    requires k < CASETYPE_MAX
    ensures var s := RecordAll(Tally(0, Zero(), Zero()), checks).segment;
            s.total == |checks| % UINT32 && s.cases[k] == Count(checks, k) % UINT32
    decreases |checks|
  {
    if checks != [] {
      var prior, last := checks[..|checks| - 1], checks[|checks| - 1];
      SegmentCounts(prior, k);
      var s := RecordAll(Tally(0, Zero(), Zero()), prior).segment;
      WrappedSum(|prior|, 1);
      WrappedSum(Count(prior, k), 1);
      assert last.CountedAs() != k ==> RecordAll(Tally(0, Zero(), Zero()), checks).segment.cases[k] == s.cases[k];
    }
  }

  /** The segments that are counted, and the checks in them. */
  function CountedSegments(segments: seq<seq<Check>>): nat
    decreases |segments|
  {
    if segments == [] then 0
    else CountedSegments(segments[..|segments| - 1]) + (if |segments[|segments| - 1]| % UINT32 == 0 then 0 else 1)
  }

  function CountedChecks(segments: seq<seq<Check>>): nat
    decreases |segments|
  {
    if segments == [] then 0
    else
      var n := |segments[|segments| - 1]|;
      CountedChecks(segments[..|segments| - 1]) + (if n % UINT32 == 0 then 0 else n)
  }

  lemma {:induction false} GlobalTotals(segments: seq<seq<Check>>)
    ensures TotalOf(segments).total == CountedChecks(segments) % UINT32
    ensures TotalOf(segments).segments == CountedSegments(segments) % UINT32
    decreases |segments|
  {
    if segments != [] {
      var prior, last := segments[..|segments| - 1], segments[|segments| - 1];
      hide RecordAll, Count;
      GlobalTotals(prior);
      SegmentCounts(last, PASS);
      WrappedSum(CountedChecks(prior), |last|);
      WrappedSum(CountedSegments(prior), 1);
    }
  }

  lemma {:induction false} GlobalCaseCount(segments: seq<seq<Check>>, k: nat)
    requires k < CASETYPE_MAX
    ensures TotalOf(segments).cases[k] == CountAll(segments, k) % UINT32
    decreases |segments|
  {
    if segments != [] {
      var prior, last := segments[..|segments| - 1], segments[|segments| - 1];
      hide RecordAll, Count;
      var s := RecordAll(Tally(0, Zero(), Zero()), last).segment;
      GlobalCaseCount(prior, k);
      SegmentCounts(last, k);
      WrappedSum(CountAll(prior, k), Count(last, k));
      assert s.total != 0 ==> TotalOf(segments).cases[k] == (TotalOf(prior).cases[k] + s.cases[k]) % UINT32;
    }
  }

  /**
   * Up to wrap-around, the global counters are the number of counted segments, the number of checks in them, and the
   * number of those of every type.
   */
  lemma GlobalCounts(segments: seq<seq<Check>>)
    ensures var t := TotalOf(segments);
      && t.segments == CountedSegments(segments) % UINT32 && t.total == CountedChecks(segments) % UINT32
      && forall k :: 0 <= k < CASETYPE_MAX ==> t.cases[k] == CountAll(segments, k) % UINT32
  {
    GlobalTotals(segments);
    forall k | 0 <= k < CASETYPE_MAX ensures TotalOf(segments).cases[k] == CountAll(segments, k) % UINT32 {
      GlobalCaseCount(segments, k);
    }
  }

  function TotalChecks(segments: seq<seq<Check>>): nat
    decreases |segments|
  {
    if segments == [] then 0 else TotalChecks(segments[..|segments| - 1]) + |segments[|segments| - 1]|
  }

  // ----- The exit code -----

  ghost predicate NothingFails(segments: seq<seq<Check>>) {
    forall i, j :: 0 <= i < |segments| && 0 <= j < |segments[i]| ==> !segments[i][j].Fails()
  }

  /** For every run, wrap-around included: what the exit code of the process says. */
  lemma ExitCodeExactly(segments: seq<seq<Check>>)
    ensures ExitCode(TotalOf(segments)) == OS_SUCCESS <==>
      forall k :: k in {FAILURE, TSF, TTF} ==> CountAll(segments, k) % UINT32 == 0
  {
    hide TotalOf, CountAll;
    GlobalCounts(segments);
    var t := TotalOf(segments);
    assert t.cases[FAILURE] == CountAll(segments, FAILURE) % UINT32;
    assert t.cases[TSF] == CountAll(segments, TSF) % UINT32;
    assert t.cases[TTF] == CountAll(segments, TTF) % UINT32;
  }

  lemma {:induction false} CountIsZero(checks: seq<Check>, k: nat)
    ensures Count(checks, k) == 0 <==> forall j :: 0 <= j < |checks| ==> checks[j].CountedAs() != k
    decreases |checks|
  {
    if checks != [] {
      var prior := checks[..|checks| - 1];
      CountIsZero(prior, k);
      assert forall j :: 0 <= j < |prior| ==> prior[j] == checks[j];
    }
  }

  lemma {:induction false} CountAllIsZero(segments: seq<seq<Check>>, k: nat)
    requires TotalChecks(segments) < UINT32
    ensures CountAll(segments, k) <= TotalChecks(segments)
    ensures CountAll(segments, k) == 0 <==>
      forall i, j :: 0 <= i < |segments| && 0 <= j < |segments[i]| ==> segments[i][j].CountedAs() != k
    decreases |segments|
  {
    if segments != [] {
      var prior, last := segments[..|segments| - 1], segments[|segments| - 1];
      CountAllIsZero(prior, k);
      CountIsZero(last, k);
      assert forall i :: 0 <= i < |prior| ==> prior[i] == segments[i];
    }
  }

  /** As long as fewer than 2^32 checks are made, the process succeeds exactly when no check fails. */
  lemma ExitCodeIsTheVerdict(segments: seq<seq<Check>>)
    requires TotalChecks(segments) < UINT32
    ensures ExitCode(TotalOf(segments)) == OS_SUCCESS <==> NothingFails(segments)
  {
    hide CountAll, TotalOf;
    ExitCodeExactly(segments);
    CountAllIsZero(segments, FAILURE);
    CountAllIsZero(segments, TSF);
    CountAllIsZero(segments, TTF);
    forall i, j | 0 <= i < |segments| && 0 <= j < |segments[i]|
      ensures segments[i][j].Fails() <==> segments[i][j].CountedAs() in {FAILURE, TSF, TTF}
    {
    }
  }

  /** Beyond that bound it need not: one segment of 2^32 failing checks is taken for an empty one. */
  lemma WrapHidesFailures()
    ensures var segments := [seq(UINT32, _ => Check(false, FAILURE))];
            !NothingFails(segments) && ExitCode(TotalOf(segments)) == OS_SUCCESS
  {
    var s: seq<Check> := seq(UINT32, _ => Check(false, FAILURE));
    assert s[0].Fails();
    assert [s][0] == s;
    assert forall k :: CountAll([s], k) == CountAll([], k) == 0;
    ExitCodeExactly([s]);
  }

  // ----- Totals -----

  function SumOfCounts(checks: seq<Check>, n: nat): nat
    decreases n
  {
    if n == 0 then 0 else SumOfCounts(checks, n - 1) + Count(checks, n - 1)
  }

  lemma {:induction false} OneMoreCheck(checks: seq<Check>, n: nat)
    requires checks != []
    ensures SumOfCounts(checks, n) ==
      SumOfCounts(checks[..|checks| - 1], n) + (if checks[|checks| - 1].CountedAs() < n then 1 else 0)
    decreases n
  {
    if n > 0 {
      OneMoreCheck(checks, n - 1);
    }
  }

  /** A segment's total is the sum of its counts by type, when every check has a type in range. */
  lemma {:induction false} CountsAddUp(checks: seq<Check>)
    requires forall j :: 0 <= j < |checks| ==> checks[j].CountedAs() < CASETYPE_MAX
    ensures SumOfCounts(checks, CASETYPE_MAX) == |checks|
    decreases |checks|
  {
    if checks == [] {
      NoChecks(CASETYPE_MAX);
    } else {
      OneMoreCheck(checks, CASETYPE_MAX);
      CountsAddUp(checks[..|checks| - 1]);
    }
  }

  lemma {:induction false} NoChecks(n: nat)
    ensures SumOfCounts([], n) == 0
    decreases n
  {
    if n > 0 {
      NoChecks(n - 1);
    }
  }
}
