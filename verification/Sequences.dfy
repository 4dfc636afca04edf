/** Sequence operations shared by every table of the runtime: the three C tables
    delete by moving the last entry into the hole, the ready queue deletes in order. */
module Sequences {

  datatype Option<+T> = None | Some(value: T)

  ghost predicate NoDup<T>(s: seq<T>) {
    forall i, j :: 0 <= i < j < |s| ==> s[i] != s[j]
  }

  /** First position of `x`, or `|s|` when it does not occur. */
  function IndexOf<T(==)>(s: seq<T>, x: T): (i: nat)
    ensures i <= |s|
    ensures i < |s| ==> s[i] == x
    ensures forall k :: 0 <= k < i ==> s[k] != x
    ensures i == |s| <==> x !in s
  {
    if s == [] then 0
    else if s[0] == x then 0
    else 1 + IndexOf(s[1..], x)
  }

  /** Deletion that fills the hole with the last element. */
  function SwapRemove<T>(s: seq<T>, i: nat): (r: seq<T>)
    requires i < |s|
    ensures |r| == |s| - 1
  {
    s[i := s[|s| - 1]][..|s| - 1]
  }

  /** Deletion that keeps the order of the rest. */
  function RemoveAt<T>(s: seq<T>, i: nat): (r: seq<T>)
    requires i < |s|
    ensures |r| == |s| - 1
  {
    s[..i] + s[i + 1..]
  }

  lemma IndexOfUnique<T>(s: seq<T>, x: T, i: nat)
    requires NoDup(s) && i < |s| && s[i] == x
    ensures IndexOf(s, x) == i
  {
    assert IndexOf(s, x) <= i;
  }

  lemma SwapRemoveContents<T>(s: seq<T>, i: nat)
    requires NoDup(s) && i < |s|
    ensures NoDup(SwapRemove(s, i))
    ensures forall x :: x in SwapRemove(s, i) <==> x in s && x != s[i]
  {
    var r := SwapRemove(s, i);
    forall x | x in s && x != s[i] ensures x in r {
      var k :| 0 <= k < |s| && s[k] == x;
      if k == |s| - 1 { assert r[i] == x; } else { assert r[k] == x; }
    }
  }

  lemma RemoveAtContents<T>(s: seq<T>, i: nat)
    requires NoDup(s) && i < |s|
    ensures NoDup(RemoveAt(s, i))
    ensures forall x :: x in RemoveAt(s, i) <==> x in s && x != s[i]
  {
    var r := RemoveAt(s, i);
    forall x | x in s && x != s[i] ensures x in r {
      var k :| 0 <= k < |s| && s[k] == x;
      if k < i { assert r[k] == x; } else { assert r[k - 1] == x; }
    }
  }

  lemma SwapRemoveAt<T>(s: seq<T>, i: nat)
    requires i < |s|
    ensures forall k :: 0 <= k < |s| - 1 ==> SwapRemove(s, i)[k] == s[if k == i then |s| - 1 else k]
    ensures forall x :: x in SwapRemove(s, i) ==> x in s
  {
  }

  lemma RemoveAtSubset<T>(s: seq<T>, i: nat)
    requires i < |s|
    ensures forall x :: x in RemoveAt(s, i) ==> x in s
  {
  }

  lemma RemoveAtIndex<T>(s: seq<T>, i: nat, k: nat)
    requires i < |s| && k < |s| && i != k
    ensures RemoveAt(s, i)[if i < k then k - 1 else k] == s[k]
  {
  }

  lemma NoDupAppend<T>(s: seq<T>, x: T)
    requires NoDup(s) && x !in s
    ensures NoDup(s + [x])
  {
  }

  lemma NotInSlice<T>(s: seq<T>, a: nat, b: nat, k: nat)
    requires NoDup(s) && a <= b <= |s| && k < |s| && !(a <= k < b)
    ensures s[k] !in s[a..b]
  {
  }

  lemma HeadIsMember<T>(s: seq<T>)
    requires s != []
    ensures s[0] in s
  {
  }

  ghost function Elements<T>(s: seq<T>): set<T> {
    set x | x in s
  }

  lemma ElementsAppend<T>(s: seq<T>, x: T)
    ensures Elements(s + [x]) == Elements(s) + {x}
  {
  }

  /** A duplicate-free sequence is as long as its set of elements is large. */
  lemma {:induction false} ElementsSize<T>(s: seq<T>)
    ensures |Elements(s)| <= |s|
    ensures NoDup(s) ==> |Elements(s)| == |s|
  {
    if s == [] {
      assert Elements(s) == {};
    } else {
      var front, x := s[..|s| - 1], s[|s| - 1];
      assert s == front + [x];
      ElementsSize(front);
      ElementsAppend(front, x);
      assert NoDup(s) ==> x !in front;
    }
  }

  /** A duplicate-free sequence is no longer than any finite set that contains it. */
  lemma {:induction false} NoDupBound<T>(s: seq<T>, u: set<T>)
    requires NoDup(s) && forall x :: x in s ==> x in u
    ensures |s| <= |u|
  {
    if s != [] {
      var x := s[|s| - 1];
      NoDupBound(s[..|s| - 1], u - {x});
    }
  }
}
