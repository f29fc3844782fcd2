/** How UtTest_AddSubTest shortens the names of a group and a test. */
module UtNames {

  /** A character of a C string; its end is a NUL. */
  function At(s: string, i: nat): char
    requires i <= |s|
  {
    if i < |s| then s[i] else '\0'
  }

  const PREFIX: string := "Test_"
  const NAME_SIZE: nat := 128

  /** The length of the longest common prefix. */
  function Common(a: string, b: string): (n: nat)
    ensures n <= |a| && n <= |b| && a[..n] == b[..n]
    ensures n < |a| && n < |b| ==> a[n] != b[n]
  {
    if a == "" || b == "" || a[0] != b[0] then 0 else 1 + Common(a[1..], b[1..])
  }

  function WithoutPrefix(groupName: string): string {
    if PREFIX <= groupName then groupName[|PREFIX|..] else groupName
  }

  /**
   * The test's name loses the part that it shares with the group's name, but only up to an underscore: up to and with
   * the last one in the common prefix or right behind it. Nothing is lost if there is none.
   */
  ghost predicate CutAt(groupName: string, testName: string, cut: nat) {
    var n := Common(groupName, testName);
    && cut <= |testName|
    && (cut > 0 ==> cut <= n + 1 && testName[cut - 1] == '_')
    && forall k :: cut <= k <= n && k < |testName| ==> testName[k] != '_'
  }

  /** The last underscore at or before a place. */
  function LastUnderscore(s: string, n: nat): (cut: nat)
    requires n <= |s|
    ensures cut <= n + 1 && cut <= |s| && (cut > 0 ==> s[cut - 1] == '_')
    ensures forall k :: cut <= k <= n && k < |s| ==> s[k] != '_'
    decreases n
  {
    if At(s, n) == '_' then n + 1 else if n == 0 then 0 else LastUnderscore(s, n - 1)
  }

  function CutOf(groupName: string, testName: string): (cut: nat)
    ensures CutAt(groupName, testName, cut)
  {
    LastUnderscore(testName, Common(groupName, testName))
  }

  /** There is exactly one place to cut. */
  lemma CutIsUnique(groupName: string, testName: string, c: nat, d: nat)
    requires CutAt(groupName, testName, c) && CutAt(groupName, testName, d)
    ensures c == d
  {
  }

  /** What is cut off is the start of the group's name, or that and one underscore. */
  lemma CutIsShared(groupName: string, testName: string, cut: nat)
    requires CutAt(groupName, testName, cut)
    ensures testName[..cut] <= groupName + "_"
      || (cut > 0 && testName[..cut - 1] <= groupName && testName[cut - 1] == '_')
  {
    var n := Common(groupName, testName);
    if cut > 0 {
      assert testName[..cut - 1] == testName[..n][..cut - 1] == groupName[..n][..cut - 1];
    }
  }

  /**
   * The group's name without its prefix, a dot and the test's name without the shared part, cut to the buffer's size.
   */
  function SubTestName(groupName: string, testName: string): string {
    var full := WithoutPrefix(groupName) + "." + testName[CutOf(groupName, testName)..];
    if |full| < NAME_SIZE then full else full[..NAME_SIZE - 1]
  }

  /**
   * What the name is made of: the group's name, or what follows Test_ in it, a dot, and what is left of the test's name
   * when a part that ends before the cut is removed; all of it if that fits, and otherwise its first 127 characters.
   */
  lemma SubTestNameParts(groupName: string, testName: string, cut: nat, shown: string)
    requires CutAt(groupName, testName, cut)
    requires groupName == "Test_" + shown || (shown == groupName && !("Test_" <= groupName))
    ensures var name, full := SubTestName(groupName, testName), shown + "." + testName[cut..];
      name <= full && |name| == if |full| <= 127 then |full| else 127
    ensures |shown| < 127 ==> SubTestName(groupName, testName)[|shown|] == '.'
  {
    CutIsUnique(groupName, testName, cut, CutOf(groupName, testName));
    assert "Test_" <= groupName ==> groupName[5..] == shown;
  }

  /** The loops of UtTest_AddSubTest over the two names, and the name they make. */
  method CompleteTestName(groupName: string, testName: string) returns (name: string)
    requires '\0' !in groupName && '\0' !in testName
    ensures name == SubTestName(groupName, testName)
  {
    var groupPtr, testPtr := 0, 0;
    while At(groupName, groupPtr) != '\0' && At(groupName, groupPtr) == At(testName, testPtr)
      invariant 0 <= groupPtr == testPtr <= |groupName| && testPtr <= |testName|
      invariant groupName[..groupPtr] == testName[..testPtr]
      decreases |groupName| - groupPtr
    {
      assert groupName[..groupPtr + 1] == groupName[..groupPtr] + [groupName[groupPtr]];
      assert testName[..testPtr + 1] == testName[..testPtr] + [testName[testPtr]];
      groupPtr, testPtr := groupPtr + 1, testPtr + 1;
    }
    CommonIs(groupName, testName, testPtr);
    ghost var n := testPtr;
    while testPtr > 0 && At(testName, testPtr) != '_'
      invariant 0 <= testPtr <= n
      invariant forall k :: testPtr < k <= n && k < |testName| ==> testName[k] != '_'
    {
      testPtr := testPtr - 1;
    }
    if At(testName, testPtr) == '_' {
      testPtr := testPtr + 1;
    }
    CutIsUnique(groupName, testName, testPtr, CutOf(groupName, testName));
    groupPtr := 0;
    if PREFIX <= groupName {
      groupPtr := groupPtr + 5;
    }
    var full := groupName[groupPtr..] + "." + testName[testPtr..];
    name := if |full| < NAME_SIZE then full else full[..NAME_SIZE - 1];
  }

  lemma {:induction false} CommonIs(a: string, b: string, n: nat)
    requires n <= |a| && n <= |b| && a[..n] == b[..n] && (n < |a| && n < |b| ==> a[n] != b[n])
    ensures Common(a, b) == n
    decreases n
  {
    if n > 0 {
      assert a[0] == a[..n][0] == b[..n][0] == b[0];
      assert a[1..][..n - 1] == a[..n][1..] == b[..n][1..] == b[1..][..n - 1];
      CommonIs(a[1..], b[1..], n - 1);
    }
  }
}
