/** The string comparison of UT Assert: its decision as a total order on strings. */
module UtCompare {
  import opened Basics

  datatype CompareType = NONE | EQ | NEQ | LT | GT | LTEQ | GTEQ | BITMASK_SET | BITMASK_UNSET | MAX

  /** The string in a buffer: up to the first NUL, but no longer than the maximum size. */
  function Cut(buffer: seq<Byte>, max: nat): (s: seq<Byte>)
    requires max <= |buffer| || 0 in buffer
    ensures |s| <= max && |s| <= |buffer| && s == buffer[..|s|] && 0 !in s
    ensures |s| < max ==> |s| < |buffer| && buffer[|s|] == 0
  {
    if max == 0 || buffer[0] == 0 then [] else [buffer[0]] + Cut(buffer[1..], max - 1)
  }

  // ----- The order -----

  /** Lexicographic order, bytes unsigned: negative, zero or positive. */
  function Order(a: seq<Byte>, b: seq<Byte>): int
    decreases |a|
  {
    if a == [] then (if b == [] then 0 else -1)
    else if b == [] then 1
    else if a[0] != b[0] then a[0] - b[0]
    else Order(a[1..], b[1..])
  }

  lemma {:induction false} OrderIsIdentity(a: seq<Byte>, b: seq<Byte>)
    ensures Order(a, b) == 0 <==> a == b
    decreases |a|
  {
    if a != [] && b != [] {
      OrderIsIdentity(a[1..], b[1..]);
      assert a == [a[0]] + a[1..] && b == [b[0]] + b[1..];
    }
  }

  lemma {:induction false} OrderIsAntisymmetric(a: seq<Byte>, b: seq<Byte>)
    ensures Order(a, b) < 0 <==> Order(b, a) > 0
    decreases |a|
  {
    if a != [] && b != [] {
      OrderIsAntisymmetric(a[1..], b[1..]);
    }
  }

  lemma {:induction false} OrderIsTransitive(a: seq<Byte>, b: seq<Byte>, c: seq<Byte>)
    requires Order(a, b) <= 0 && Order(b, c) <= 0
    ensures Order(a, c) <= 0
    decreases |a|
  {
    if a != [] && b != [] && c != [] && a[0] == b[0] == c[0] {
      OrderIsTransitive(a[1..], b[1..], c[1..]);
    }
  }

  predicate Decide(t: CompareType, compare: int) {
    match t
    case EQ => compare == 0
    case NEQ => compare != 0
    case LT => compare < 0
    case GT => compare > 0
    case LTEQ => compare <= 0
    case GTEQ => compare >= 0
    case _ => false
  }

  // ----- The code -----

  /** The difference of two sizes as an int. */
  function ToInt(v: int): int {
    var m := v % 0x1_0000_0000;
    if m < 0x8000_0000 then m else m - 0x1_0000_0000
  }

  /** memcmp; C fixes only the sign of what it returns. */
  function MemCmp(a: seq<Byte>, b: seq<Byte>, n: nat): int
    requires n <= |a| && n <= |b|
    decreases n
  {
    if n == 0 then 0 else if a[0] != b[0] then a[0] - b[0] else MemCmp(a[1..], b[1..], n - 1)
  }

  /** What the comparison works out before it looks at the relation that is asked for. */
  function Compare(a: seq<Byte>, b: seq<Byte>): int {
    var n := if |a| < |b| then |a| else |b|;
    if a == [] && b == [] then 0
    else if MemCmp(a, b, n) != 0 then MemCmp(a, b, n)
    else ToInt(|a| - |b|)
  }

  /** UtAssert_StringBufCompare on buffers that are there; what it reports, from 256 byte copies, is not modelled. */
  method StringBufCompare(string1: seq<Byte>, string1Max: nat, string2: seq<Byte>, string2Max: nat,
                          compareType: CompareType)
    returns (result: bool)
    requires (string1Max <= |string1| || 0 in string1) && (string2Max <= |string2| || 0 in string2)
    ensures result == Decide(compareType, Compare(Cut(string1, string1Max), Cut(string2, string2Max)))
  {
    var formatLen1, formatLen2 := |Cut(string1, string1Max)|, |Cut(string2, string2Max)|;
    var compare;
    if formatLen1 == 0 && formatLen2 == 0 {
      compare := 0;
    } else {
      if formatLen1 < formatLen2 {
        compare := MemCmp(string1, string2, formatLen1);
        MemCmpPrefix(string1, string2, formatLen1, formatLen1, formatLen2);
      } else {
        compare := MemCmp(string1, string2, formatLen2);
        MemCmpPrefix(string1, string2, formatLen2, formatLen1, formatLen2);
      }
      if compare == 0 {
        compare := ToInt(formatLen1 - formatLen2);
      }
    }
    match compareType {
      case EQ => result := compare == 0;
      case NEQ => result := compare != 0;
      case LT => result := compare < 0;
      case GT => result := compare > 0;
      case LTEQ => result := compare <= 0;
      case GTEQ => result := compare >= 0;
      case _ => result := false;
    }
  }

  lemma {:induction false} MemCmpPrefix(a: seq<Byte>, b: seq<Byte>, n: nat, m: nat, k: nat)
    requires n <= m <= |a| && n <= k <= |b|
    ensures MemCmp(a, b, n) == MemCmp(a[..m], b[..k], n)
    decreases n
  {
    if n > 0 {
      MemCmpPrefix(a[1..], b[1..], n - 1, m - 1, k - 1);
      assert a[..m][1..] == a[1..][..m - 1] && b[..k][1..] == b[1..][..k - 1];
    }
  }

  // ----- What it decides -----

  predicate SameSign(a: int, b: int) {
    (a < 0 <==> b < 0) && (a > 0 <==> b > 0)
  }

  /** One string begins with the other. */
  predicate Nested(a: seq<Byte>, b: seq<Byte>) {
    a <= b || b <= a
  }

  lemma {:induction false} MemCmpThenLength(a: seq<Byte>, b: seq<Byte>)
    ensures var n := if |a| < |b| then |a| else |b|;
      && (MemCmp(a, b, n) == 0 <==> Nested(a, b))
      && SameSign(Order(a, b), if MemCmp(a, b, n) != 0 then MemCmp(a, b, n) else |a| - |b|)
    decreases |a|
  {
    if a != [] && b != [] {
      MemCmpThenLength(a[1..], b[1..]);
      assert a == [a[0]] + a[1..] && b == [b[0]] + b[1..];
      assert a[0] == b[0] ==> (a <= b <==> a[1..] <= b[1..]) && (b <= a <==> b[1..] <= a[1..]);
    }
  }

  /** One string is before the other: a proper beginning of it, or with the smaller byte at the first difference. */
  ghost predicate Before(a: seq<Byte>, b: seq<Byte>) {
    exists k :: 0 <= k <= |a| && k < |b| && a[..k] == b[..k] && (k == |a| || a[k] < b[k])
  }

  lemma {:induction false} OrderIsBefore(a: seq<Byte>, b: seq<Byte>)
    ensures Order(a, b) < 0 <==> Before(a, b)
    decreases |a|
  {
    if a == [] {
      assert b != [] ==> a[..0] == b[..0];
    } else if b != [] {
      OrderIsBefore(a[1..], b[1..]);
      assert a == [a[0]] + a[1..] && b == [b[0]] + b[1..];
      if Before(a, b) {
        var k :| 0 <= k <= |a| && k < |b| && a[..k] == b[..k] && (k == |a| || a[k] < b[k]);
        if k > 0 {
          assert a[..k][0] == b[..k][0];
          assert a[1..][..k - 1] == a[..k][1..] && b[1..][..k - 1] == b[..k][1..];
        }
      }
      if a[0] == b[0] && Before(a[1..], b[1..]) {
        var k :| 0 <= k <= |a[1..]| && k < |b[1..]| && a[1..][..k] == b[1..][..k]
                 && (k == |a[1..]| || a[1..][k] < b[1..][k]);
        assert a[..k + 1] == [a[0]] + a[1..][..k] && b[..k + 1] == [b[0]] + b[1..][..k];
      } else if a[0] < b[0] {
        assert a[..0] == b[..0];
      }
    }
  }

  /** What each of the types of comparison means for two strings; the types that are none report false. */
  ghost predicate Means(t: CompareType, a: seq<Byte>, b: seq<Byte>) {
    match t
    case EQ => a == b
    case NEQ => a != b
    case LT => Before(a, b)
    case GT => Before(b, a)
    case LTEQ => a == b || Before(a, b)
    case GTEQ => a == b || Before(b, a)
    case _ => false
  }

  lemma OrderDecides(t: CompareType, a: seq<Byte>, b: seq<Byte>)
    ensures Decide(t, Order(a, b)) <==> Means(t, a, b)
  {
    hide Order, Before;
    OrderIsBefore(a, b);
    OrderIsBefore(b, a);
    OrderIsIdentity(a, b);
    OrderIsAntisymmetric(a, b);
    OrderIsAntisymmetric(b, a);
  }

  /**
   * All six relations are the lexicographic order, unless one string begins with the other and is so much longer that
   * the difference of the lengths does not keep its sign as an int.
   */
  lemma DecidesByOrder(a: seq<Byte>, b: seq<Byte>)
    ensures (forall t :: Decide(t, Compare(a, b)) <==> Means(t, a, b))
       <==> !Nested(a, b) || SameSign(ToInt(|a| - |b|), |a| - |b|)
  {
    MemCmpThenLength(a, b);
    hide MemCmp, Order;
    assert SameSign(Compare(a, b), Order(a, b)) <==> !Nested(a, b) || SameSign(ToInt(|a| - |b|), |a| - |b|);
    SignsDecide(Compare(a, b), Order(a, b));
    forall t ensures Decide(t, Order(a, b)) <==> Means(t, a, b) {
      OrderDecides(t, a, b);
    }
  }

  lemma SignsDecide(x: int, y: int)
    ensures (forall t :: Decide(t, x) == Decide(t, y)) <==> SameSign(x, y)
  {
    if forall t :: Decide(t, x) == Decide(t, y) {
      assert Decide(LT, x) == Decide(LT, y) && Decide(GT, x) == Decide(GT, y);
    }
  }

  /** In particular for all strings below 2 GB. */
  lemma ShortStringsAreOrdered(a: seq<Byte>, b: seq<Byte>, t: CompareType)
    requires |a| < 0x8000_0000 && |b| < 0x8000_0000
    ensures Decide(t, Compare(a, b)) <==> Means(t, a, b)
  {
    DecidesByOrder(a, b);
  }

  /** But a string and the same string with a newline and 4 GB more behind it are taken to be equal. */
  lemma LongStringsAreNot(a: seq<Byte>)
    ensures var b := a + ([10] + seq(0xFFFF_FFFF, _ => 1));
      Decide(EQ, Compare(a, b)) && a != b
  {
    var b := a + ([10] + seq(0xFFFF_FFFF, _ => 1));
    assert a <= b && |b| != |a|;
    MemCmpThenLength(a, b);
    OrderIsIdentity(a, b);
    hide MemCmp, Order;
    assert ToInt(|a| - |b|) == 0;
  }
}
