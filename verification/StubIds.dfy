/** The object IDs that the OSAL stubs hand out: their encoding, the bitmaps behind them and whole runs of requests. */
module StubIds {
  import opened Basics

  const TYPE_USER: nat := 16       // one more than the last object type
  const BITMAP_BYTES: nat := 32
  const INDEX_MAX: nat := 256      // bits in the bitmap of a type

  // ----- The encoding -----

  /** The sum is an unsigned long in C; what is above 32 bits is lost when it becomes an ID. */
  function Compose(indx: bv32, objType: bv32): bv32 {
    indx | ((0x4000 | objType) << 16)
  }

  function IdIndex(id: bv32): bv32 {
    id & 0xFFFF
  }

  function IdType(id: bv32): bv32 {
    (id >> 16) ^ 0x4000
  }

  /** Exactly which pairs survive: 16 bit indices, and 16 bit types without the bit that marks an ID. */
  lemma ComposeThenDecompose(indx: bv32, objType: bv32)
    ensures IdIndex(Compose(indx, objType)) == indx && IdType(Compose(indx, objType)) == objType
       <==> indx < 0x1_0000 && objType < 0x1_0000 && objType & 0x4000 == 0
  {
    var id := Compose(indx, objType);
    assert indx >= 0x1_0000 ==> IdIndex(id) != indx;
    assert objType >= 0x1_0000 ==> IdType(id) != objType;
  }

  /** And which IDs: those with the mark. */
  lemma DecomposeThenCompose(id: bv32)
    ensures Compose(IdIndex(id), IdType(id)) == id <==> id & 0x4000_0000 != 0
  {
  }

  // Indices and types that are in use fit a byte; as words they are put together from two nibbles.
  function Word(high: bv4, low: bv4): bv32 {
    ((high as bv32) << 4) | (low as bv32)
  }

  function Wide(n: nat): bv32
    requires n < 0x100
  {
    Word((n / 16) as bv4, (n % 16) as bv4)
  }

  function Narrow(v: bv32): (n: nat)
    requires v < 0x100
    ensures n < 0x100
  {
    16 * ((v >> 4) as bv4 as nat) + ((v & 15) as bv4 as nat)
  }

  lemma NibbleAndBack(n: nat)
    requires n < 16
    ensures (n as bv4) as nat == n
  {
  }

  lemma WordParts(high: bv4, low: bv4)
    ensures Word(high, low) < 0x100 && (Word(high, low) >> 4) as bv4 == high && (Word(high, low) & 15) as bv4 == low
  {
  }

  lemma NarrowWide(n: nat)
    requires n < 0x100
    ensures Wide(n) < 0x100 && Narrow(Wide(n)) == n
  {
    NibbleAndBack(n / 16);
    NibbleAndBack(n % 16);
    WordParts((n / 16) as bv4, (n % 16) as bv4);
  }

  /** The ID of an index in use. */
  function Issued(indx: nat, objType: nat): bv32
    requires indx < INDEX_MAX && objType < TYPE_USER
  {
    Compose(Wide(indx), Wide(objType))
  }

  /** It says its index and its type. */
  lemma IssuedDecomposes(indx: nat, objType: nat)
    requires indx < INDEX_MAX && objType < TYPE_USER
    ensures var id := Issued(indx, objType);
      IdIndex(id) < 0x100 && Narrow(IdIndex(id)) == indx && IdType(id) == Wide(objType)
  {
    NarrowWide(indx);
    NarrowWide(objType);
    hide Wide, Narrow, Compose, IdIndex, IdType;
    ByteIsSmall(Wide(objType));
    ComposeThenDecompose(Wide(indx), Wide(objType));
  }

  lemma ByteIsSmall(t: bv32)
    requires t < 0x100
    ensures t < 0x1_0000 && t & 0x4000 == 0
  {
  }

  // ----- What the requests do to the state of one type -----

  /** UT_ObjTypeState_t: the number issued last, and the indices issued and not deleted. */
  datatype TypeState = TypeState(last: nat, live: set<nat>)

  function Unused(): TypeState {
    TypeState(0, {})
  }

  /** The next number; the counter stops at the last bit of the bitmap. */
  function Next(s: TypeState): nat {
    if s.last < INDEX_MAX - 1 then s.last + 1 else s.last
  }

  /** All types. The state is cleared by the first request, and by the first request after the stubs were reset. */
  datatype Stubs = Stubs(clearedOnce: bool, types: seq<TypeState>, failures: nat) {
    predicate Valid() {
      |types| == TYPE_USER && forall t :: 0 <= t < TYPE_USER ==> types[t].last < INDEX_MAX
    }
  }

  function AllUnused(): (r: seq<TypeState>)
    ensures |r| == TYPE_USER && forall t :: 0 <= t < TYPE_USER ==> r[t] == Unused()
  {
    seq(TYPE_USER, _ => Unused())
  }

  function Start(): Stubs {
    Stubs(false, AllUnused(), 0)
  }

  function CallOnce(s: Stubs): Stubs {
    if s.clearedOnce then s else Stubs(true, AllUnused(), s.failures)
  }

  function GoodType(t: nat): bool {
    0 < t < TYPE_USER
  }

  /** Issuing the next number of a type; it is a failure of the test if that number is still in use. */
  function Allocated(s: Stubs, t: nat): (r: Stubs)
    requires s.Valid() && t < TYPE_USER
    ensures r.Valid()
  {
    var c := CallOnce(s);
    var i := Next(c.types[t]);
    c.(types := c.types[t := TypeState(i, c.types[t].live + {i})], 
       failures := c.failures + if i in c.types[t].live then 1 else 0)
  }

  /**
   * Deleting: a failure if the ID says another type, and one if its index is not in use in the type that was asked for.
   */
  function Deleted(s: Stubs, t: nat, i: nat, sameType: bool): (r: Stubs)
    requires s.Valid() && t < TYPE_USER
    ensures r.Valid()
  {
    var c := CallOnce(s);
    var f := (if sameType then 0 else 1) + (if i !in c.types[t].live then 1 else 0);
    c.(types := c.types[t := c.types[t].(live := c.types[t].live - {i})], failures := c.failures + f)
  }

  /** Deleting an index that no bitmap has, up to the access that is out of bounds. */
  function Misdirected(s: Stubs, sameType: bool): (r: Stubs)
    requires s.Valid()
    ensures r.Valid() && r.failures == s.failures + (if sameType then 1 else 2)
    ensures s.clearedOnce ==> r.types == s.types
  {
    var c := CallOnce(s);
    c.(failures := c.failures + (if sameType then 0 else 1) + 1)
  }

  // ----- In the bitmaps -----

  /** 1 << (indx & 7) */
  function Mask(j: nat): (m: bv8)
    requires j < 8
  {
    if j == 0 then 1 else if j == 1 then 2 else if j == 2 then 4 else if j == 3 then 8
    else if j == 4 then 16 else if j == 5 then 32 else if j == 6 then 64 else 128
  }

  predicate BitIn(b: bv8, j: nat)
    requires j < 8
  {
    b & Mask(j) != 0
  }

  lemma SetBit(b: bv8, j: nat, k: nat)
    requires j < 8 && k < 8
    ensures BitIn(b | Mask(j), k) <==> j == k || BitIn(b, k)
  {
    match j case 0 => case 1 => case 2 => case 3 => case 4 => case 5 => case 6 => case 7 =>
  }

  lemma ClearBit(b: bv8, j: nat, k: nat)
    requires j < 8 && k < 8
    ensures BitIn(b & !Mask(j), k) <==> j != k && BitIn(b, k)
  {
    match j case 0 => case 1 => case 2 => case 3 => case 4 => case 5 => case 6 => case 7 =>
  }

  class StubObjects {
    const lastIssueNumber: array<nat>
    const validBits: array2<bv8>
    var clearedOnce: bool
    var failures: nat

    /** The indices whose bits are set for a type. */
    ghost function Live(t: nat): set<nat>
      requires t < validBits.Length0 && validBits.Length1 == BITMAP_BYTES
      reads validBits
    {
      set i | 0 <= i < INDEX_MAX && BitIn(validBits[t, i / 8], i % 8)
    }

    ghost predicate Shape()
      reads this
    {
      lastIssueNumber.Length == TYPE_USER == validBits.Length0 && validBits.Length1 == BITMAP_BYTES
    }

    ghost function State(): Stubs
      requires Shape()
      reads this, lastIssueNumber, validBits
    {
      Stubs(clearedOnce, seq(TYPE_USER, t requires 0 <= t < TYPE_USER reads lastIssueNumber, validBits, this
                                          requires Shape() => TypeState(lastIssueNumber[t], Live(t))), failures)
    }

    ghost predicate Valid()
      reads this, lastIssueNumber, validBits
    {
      Shape() && State().Valid()
    }

    constructor ()
      ensures Valid() && State() == Start() && fresh(lastIssueNumber) && fresh(validBits)
    {
      lastIssueNumber := new nat[TYPE_USER](_ => 0);
      validBits := new bv8[TYPE_USER, BITMAP_BYTES]((_, _) => 0);
      clearedOnce, failures := false, 0;
      new;
      NothingLive();
    }

    lemma NothingLive()
      requires Shape() && forall t, b :: 0 <= t < TYPE_USER && 0 <= b < BITMAP_BYTES ==> validBits[t, b] == 0
      requires forall t :: 0 <= t < TYPE_USER ==> lastIssueNumber[t] == 0
      ensures State().types == AllUnused()
    {
      forall t | 0 <= t < TYPE_USER ensures State().types[t] == Unused() {
        assert forall i :: 0 <= i < INDEX_MAX ==> !BitIn(validBits[t, i / 8], i % 8);
      }
    }

    /** UT_ClearAllStubObjects. */
    method ClearAll()
      requires Shape()
      modifies lastIssueNumber, validBits
      ensures Valid() && State() == Stubs(clearedOnce, AllUnused(), failures)
    {
      forall t | 0 <= t < TYPE_USER {
        lastIssueNumber[t] := 0;
      }
      forall t, b | 0 <= t < TYPE_USER && 0 <= b < BITMAP_BYTES {
        validBits[t, b] := 0;
      }
      NothingLive();
    }

    /** UT_Stub_CallOnce(UT_ClearAllStubObjects). */
    method ClearOnce()
      requires Valid()
      modifies this`clearedOnce, lastIssueNumber, validBits
      ensures Valid() && State() == CallOnce(old(State()))
    {
      if !clearedOnce {
        clearedOnce := true;
        ClearAll();
      }
    }

    /** One bit is set; all others stay. */
    method SetValid(t: nat, indx: nat)
      requires Shape() && t < TYPE_USER && indx < INDEX_MAX
      modifies validBits
      ensures Live(t) == old(Live(t)) + {indx}
      ensures forall u :: 0 <= u < TYPE_USER && u != t ==> Live(u) == old(Live(u))
    {
      hide BitIn, Mask;
      ghost var b := validBits[t, indx / 8];
      validBits[t, indx / 8] := validBits[t, indx / 8] | Mask(indx % 8);
      forall i | 0 <= i < INDEX_MAX ensures i in Live(t) <==> i == indx || i in old(Live(t)) {
        SetBit(b, indx % 8, i % 8);
        OtherBit(i, indx);
      }
    }

    /** One bit is cleared; all others stay. */
    method ClearValid(t: nat, indx: nat)
      requires Shape() && t < TYPE_USER && indx < INDEX_MAX
      modifies validBits
      ensures Live(t) == old(Live(t)) - {indx}
      ensures forall u :: 0 <= u < TYPE_USER && u != t ==> Live(u) == old(Live(u))
    {
      hide BitIn, Mask;
      ghost var b := validBits[t, indx / 8];
      validBits[t, indx / 8] := validBits[t, indx / 8] & !Mask(indx % 8);
      forall i | 0 <= i < INDEX_MAX ensures i in Live(t) <==> i != indx && i in old(Live(t)) {
        ClearBit(b, indx % 8, i % 8);
        OtherBit(i, indx);
      }
    }

    lemma LiveBit(t: nat, indx: nat)
      requires Shape() && t < TYPE_USER && indx < INDEX_MAX
      ensures indx in Live(t) <==> BitIn(validBits[t, indx / 8], indx % 8)
    {
    }

    /** UT_AllocStubObjId; a type out of range aborts the process. */
    method Alloc(objType: nat) returns (result: Option<bv32>)
      requires Valid()
      modifies this, lastIssueNumber, validBits
      ensures Valid() && (result.Some? <==> 0 < objType < 16)
      ensures State() == if GoodType(objType) then Allocated(old(State()), objType) else CallOnce(old(State()))
      ensures result.Some? ==>
        result == Some(Issued(Allocated(old(State()), objType).types[objType].last, objType))
    {
      hide StubObjects.Live, BitIn, Mask, Issued;
      ClearOnce();
      if !GoodType(objType) {
        return None;
      }
      ghost var before := State();
      if lastIssueNumber[objType] < 8 * BITMAP_BYTES - 1 {
        lastIssueNumber[objType] := lastIssueNumber[objType] + 1;
      }
      var indx := lastIssueNumber[objType];
      LiveBit(objType, indx);
      if BitIn(validBits[objType, indx / 8], indx % 8) {
        failures := failures + 1;
      }
      SetValid(objType, indx);
      assert State().types == before.types[objType := TypeState(indx, before.types[objType].live + {indx})];
      return Some(Issued(indx, objType));
    }

    /**
     * UT_DeleteStubObjId, for a type that has a state. An index that has no bit is reported, but the code then reads
     * the bitmap out of bounds: what happens from there on is not defined.
     */
    method Delete(objType: nat, objId: bv32) returns (defined: bool)
      requires Valid() && objType < TYPE_USER
      modifies this, lastIssueNumber, validBits
      ensures Valid() && (defined <==> IdIndex(objId) < 0x100)
      ensures var sameType := IdType(objId) == Wide(objType);
        State() == if defined then Deleted(old(State()), objType, Narrow(IdIndex(objId)), sameType)
                   else Misdirected(old(State()), sameType)
    {
      hide StubObjects.Live, BitIn, Mask, IdIndex, IdType, Narrow, Wide;
      ClearOnce();
      ghost var before := State();
      var checkType := IdType(objId);
      if Wide(objType) != checkType {
        failures := failures + 1;
      }
      if IdIndex(objId) >= 0x100 {
        failures := failures + 1;
        assert State().types == before.types;
        return false;
      }
      defined := true;
      var checkIdx := Narrow(IdIndex(objId));
      var objWasValid := false;
      LiveBit(objType, checkIdx);
      if BitIn(validBits[objType, checkIdx / 8], checkIdx % 8) {
        objWasValid := true;
        ClearValid(objType, checkIdx);
      }
      if !objWasValid {
        failures := failures + 1;
        assert before.types[objType].live - {checkIdx} == before.types[objType].live;
      }
      assert State().types
        == before.types[objType := before.types[objType].(live := before.types[objType].live - {checkIdx})];
    }
  }

  lemma OtherBit(i: nat, k: nat)
    ensures i / 8 == k / 8 && i % 8 == k % 8 ==> i == k
  {
  }

  // ----- Whole runs -----

  datatype Request = Alloc(objType: nat) | Delete(objType: nat, indx: nat, sameType: bool) | ClearAll | ResetStubs

  /** Requests with types that have a state; an allocation with any other type aborts the process. */
  predicate Good(q: Request) {
    match q
    case Alloc(t) => GoodType(t)
    case Delete(t, i, _) => t < TYPE_USER && i < INDEX_MAX
    case _ => true
  }

  function Step(s: Stubs, q: Request): (r: Stubs)
    requires s.Valid() && Good(q)
    ensures r.Valid()
  {
    match q
    case Alloc(t) => Allocated(s, t)
    case Delete(t, i, sameType) => Deleted(s, t, i, sameType)
    case ClearAll => s.(types := AllUnused())
    case ResetStubs => s.(clearedOnce := false)
  }

  function Run(requests: seq<Request>): (r: Stubs)
    requires forall q :: q in requests ==> Good(q)
    ensures r.Valid()
    decreases |requests|
  {
    if requests == [] then Start() else Step(Run(requests[..|requests| - 1]), requests[|requests| - 1])
  }

  predicate Clears(q: Request) {
    q.ClearAll? || q.ResetStubs?
  }

  /** How many IDs of a type were issued since the state was last cleared. */
  function IssuedCount(requests: seq<Request>, t: nat): nat
    decreases |requests|
  {
    if requests == [] then 0
    else
      var prior, q := requests[..|requests| - 1], requests[|requests| - 1];
      if Clears(q) then 0 else IssuedCount(prior, t) + if q == Alloc(t) then 1 else 0
  }

  function AtMostLast(n: nat): nat {
    if n < INDEX_MAX - 1 then n else INDEX_MAX - 1
  }

  /** Request p issues an index: the first to the 255th request of a type get 1 to 255, all later ones get 255 again. */
  predicate Issues(requests: seq<Request>, p: nat, t: nat, i: nat) {
    p < |requests| && requests[p] == Alloc(t) && i == AtMostLast(IssuedCount(requests[..p + 1], t))
  }

  predicate Ends(q: Request, t: nat, i: nat) {
    Clears(q) || (q.Delete? && q.objType == t && q.indx == i)
  }

  /** An index was issued and neither deleted nor cleared since. */
  ghost predicate InUse(requests: seq<Request>, t: nat, i: nat) {
    exists p: nat :: Issues(requests, p, t, i) && forall r :: p < r < |requests| ==> !Ends(requests[r], t, i)
  }

  /** What the next request will find. */
  function Found(requests: seq<Request>, t: nat): TypeState
    requires t < TYPE_USER && forall q :: q in requests ==> Good(q)
  {
    CallOnce(Run(requests)).types[t]
  }

  lemma FoundStep(requests: seq<Request>, q: Request, t: nat)
    requires t < TYPE_USER && Good(q) && forall q :: q in requests ==> Good(q)
    ensures forall r :: r in requests + [q] ==> Good(r)
    ensures Found(requests + [q], t) ==
      if Clears(q) then Unused()
      else if q == Alloc(t) then
        TypeState(Next(Found(requests, t)), Found(requests, t).live + {Next(Found(requests, t))})
      else if q.Delete? && q.objType == t then
        TypeState(Found(requests, t).last, Found(requests, t).live - {q.indx})
      else Found(requests, t)
  {
    assert (requests + [q])[..|requests|] == requests;
  }

  /** The counter is the number of IDs issued, but stops at the last index. */
  lemma {:induction false} CounterIsCount(requests: seq<Request>, t: nat)
    requires t < TYPE_USER && forall q :: q in requests ==> Good(q)
    ensures Found(requests, t).last == AtMostLast(IssuedCount(requests, t))
    decreases |requests|
  {
    if requests != [] {
      var n := |requests| - 1;
      hide Found;
      CounterIsCount(requests[..n], t);
      FoundStep(requests[..n], requests[n], t);
      assert requests[..n] + [requests[n]] == requests;
    }
  }

  lemma IssuesEarlier(requests: seq<Request>, q: Request, p: nat, t: nat, i: nat)
    requires p < |requests|
    ensures Issues(requests + [q], p, t, i) <==> Issues(requests, p, t, i)
  {
    assert (requests + [q])[..p + 1] == requests[..p + 1];
  }

  lemma InUseStep(requests: seq<Request>, q: Request, t: nat, i: nat)
    ensures InUse(requests + [q], t, i) <==>
      || (q == Alloc(t) && i == AtMostLast(IssuedCount(requests + [q], t)))
      || (InUse(requests, t, i) && !Ends(q, t, i))
  {
    hide Issues, IssuedCount;
    var all, n := requests + [q], |requests|;
    assert all[..n + 1] == all && all[n] == q;
    assert Issues(all, n, t, i) <==> q == Alloc(t) && i == AtMostLast(IssuedCount(all, t)) by {
      NewestIssues(requests, q, t, i);
    }
    if p: nat :| Issues(all, p, t, i) && forall r :: p < r < |all| ==> !Ends(all[r], t, i) {
      IssuesBound(all, p, t, i);
      if p < n {
        IssuesEarlier(requests, q, p, t, i);
        assert !Ends(all[n], t, i);
        assert forall r :: p < r < n ==> all[r] == requests[r];
      }
    }
    if InUse(requests, t, i) && !Ends(q, t, i) {
      var p: nat :| Issues(requests, p, t, i) && forall r :: p < r < n ==> !Ends(requests[r], t, i);
      IssuesBound(requests, p, t, i);
      IssuesEarlier(requests, q, p, t, i);
      assert forall r :: p < r < |all| ==> !Ends(all[r], t, i) by {
        assert forall r :: p < r < n ==> all[r] == requests[r];
      }
    }
  }

  lemma NewestIssues(requests: seq<Request>, q: Request, t: nat, i: nat)
    ensures var all := requests + [q];
      Issues(all, |requests|, t, i) <==> q == Alloc(t) && i == AtMostLast(IssuedCount(all, t))
  {
    var all := requests + [q];
    assert all[..|requests| + 1] == all;
  }

  lemma IssuesBound(requests: seq<Request>, p: nat, t: nat, i: nat)
    requires Issues(requests, p, t, i)
    ensures p < |requests|
  {
  }

  /** For every run, the bitmaps hold exactly the indices that were issued and neither deleted nor cleared since. */
  lemma {:induction false} BitmapsAreInUse(requests: seq<Request>, t: nat, i: nat)
    requires t < TYPE_USER && forall q :: q in requests ==> Good(q)
    ensures i in Found(requests, t).live <==> InUse(requests, t, i)
    decreases |requests|
  {
    if requests == [] {
      NothingInUse(t, i);
    } else {
      var n := |requests| - 1;
      hide Found, InUse, IssuedCount;
      BitmapsAreInUse(requests[..n], t, i);
      FoundStep(requests[..n], requests[n], t);
      InUseStep(requests[..n], requests[n], t, i);
      CounterIsCount(requests[..n], t);
      CountStep(requests[..n], requests[n], t);
      assert requests[..n] + [requests[n]] == requests;
    }
  }

  lemma CountStep(requests: seq<Request>, q: Request, t: nat)
    ensures IssuedCount(requests + [q], t) == if Clears(q) then 0 else IssuedCount(requests, t) + if q == Alloc(t)
      then 1 else 0
  {
    assert (requests + [q])[..|requests|] == requests;
  }

  lemma {:induction false} InUseBelowCount(requests: seq<Request>, t: nat, i: nat)
    requires InUse(requests, t, i)
    ensures 1 <= i <= AtMostLast(IssuedCount(requests, t))
    decreases |requests|
  {
    hide InUse, IssuedCount;
    if requests == [] {
      NothingInUse(t, i);
    } else {
      var n := |requests| - 1;
      assert requests[..n] + [requests[n]] == requests;
      InUseStep(requests[..n], requests[n], t, i);
      CountStep(requests[..n], requests[n], t);
      if InUse(requests[..n], t, i) {
        InUseBelowCount(requests[..n], t, i);
      }
    }
  }

  lemma NothingInUse(t: nat, i: nat)
    ensures !InUse([], t, i)
  {
  }

  /**
   * What an allocation does at the end of any run: the n-th since the last clear issues index n up to 255 and 255 from
   * then on, never 0; a failure is reported exactly when index 255 is issued again while it is in use, never before.
   */
  lemma AllocationInARun(requests: seq<Request>, t: nat)
    requires GoodType(t) && forall q :: q in requests ==> Good(q)
    ensures var n, r := IssuedCount(requests, t) + 1, Allocated(Run(requests), t);
      && r.types[t].last == AtMostLast(n) && 1 <= r.types[t].last <= 255
      && r.failures == Run(requests).failures + (if n > 255 && InUse(requests, t, 255) then 1 else 0)
  {
    hide InUse, IssuedCount, Run;
    var n := IssuedCount(requests, t) + 1;
    CounterIsCount(requests, t);
    BitmapsAreInUse(requests, t, AtMostLast(n));
    if InUse(requests, t, AtMostLast(n)) {
      InUseBelowCount(requests, t, AtMostLast(n));
    }
  }

  // ----- What a run reports -----

  /** How many failures of the test the next request reports. */
  ghost function ReportedBy(requests: seq<Request>, q: Request): nat {
    match q
    case Alloc(t) => if IssuedCount(requests, t) >= 255 && InUse(requests, t, 255) then 1 else 0
    case Delete(t, i, sameType) => (if sameType then 0 else 1) + (if InUse(requests, t, i) then 0 else 1)
    case _ => 0
  }

  ghost function Reported(requests: seq<Request>): nat
    decreases |requests|
  {
    if requests == [] then 0
    else
      var prior := requests[..|requests| - 1];
      Reported(prior) + ReportedBy(prior, requests[|requests| - 1])
  }

  lemma DeletionInARun(requests: seq<Request>, t: nat, i: nat, sameType: bool)
    requires t < TYPE_USER && i < INDEX_MAX && forall q :: q in requests ==> Good(q)
    ensures Deleted(Run(requests), t, i, sameType).failures
         == Run(requests).failures + ReportedBy(requests, Delete(t, i, sameType))
  {
    hide InUse, IssuedCount, Run;
    BitmapsAreInUse(requests, t, i);
  }

  /**
   * In every run the failures reported are one for each allocation that issues 255 again while it is in use, one for
   * each deletion with an ID of another type, and one for each deletion of an index that is not in use; there are no
   * others.
   */
  lemma {:induction false} FailuresInARun(requests: seq<Request>)
    requires forall q :: q in requests ==> Good(q)
    ensures Run(requests).failures == Reported(requests)
    decreases |requests|
  {
    if requests != [] {
      var prior, q := requests[..|requests| - 1], requests[|requests| - 1];
      hide Deleted, Allocated, ReportedBy;
      assert q in requests;
      FailuresInARun(prior);
      if q.Alloc? {
        AllocationIsReported(prior, q.objType);
      } else if q.Delete? {
        DeletionInARun(prior, q.objType, q.indx, q.sameType);
      } else {
        NothingReported(prior, q);
      }
    }
  }

  lemma AllocationIsReported(requests: seq<Request>, t: nat)
    requires GoodType(t) && forall q :: q in requests ==> Good(q)
    ensures Allocated(Run(requests), t).failures == Run(requests).failures + ReportedBy(requests, Alloc(t))
  {
    hide InUse, IssuedCount, Run, Allocated;
    AllocationInARun(requests, t);
  }

  lemma NothingReported(requests: seq<Request>, q: Request)
    requires Clears(q)
    ensures ReportedBy(requests, q) == 0
  {
  }
}
