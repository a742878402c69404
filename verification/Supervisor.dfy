/** The supervisor: it keeps track of the children of a process, and kills them
    when the process is gone. */
module Supervisor {

  const MAX_CHILDREN: nat := 1024

  ghost predicate Distinct(s: seq<int>) {
    forall i, j | 0 <= i < j < |s| :: s[i] != s[j]
  }

  // ----- What a sweep does to the list -----

  /** Put the last element into the place of element i. */
  function Removed(s: seq<int>, i: nat): seq<int>
    requires i < |s|
  {
    s[i := s[|s| - 1]][..|s| - 1]
  }

  /** The rest of a sweep that is at position i. The child that comes into the
      place of a removed one is not looked at. */
  function SweepFrom(s: seq<int>, i: nat, running: int -> bool): seq<int>
    decreases |s| - i
  {
    if i >= |s| then s
    else SweepFrom(if running(s[i]) then s else Removed(s, i), i + 1, running)
  }

  function Sweep(s: seq<int>, running: int -> bool): seq<int> { SweepFrom(s, 0, running) }

  /** How many of s are not running. */
  function Dead(s: seq<int>, running: int -> bool): nat {
    if s == [] then 0
    else Dead(s[..|s| - 1], running) + if running(s[|s| - 1]) then 0 else 1
  }

  lemma {:induction false} DeadAppend(a: seq<int>, b: seq<int>, running: int -> bool)
    ensures Dead(a + b, running) == Dead(a, running) + Dead(b, running)
  {
    if b == [] {
      assert a + b == a;
    } else {
      assert (a + b)[..|a + b| - 1] == a + b[..|b| - 1];
      DeadAppend(a, b[..|b| - 1], running);
    }
  }

  lemma {:induction false} DeadIsMember(s: seq<int>, running: int -> bool)
    ensures Dead(s, running) == 0 <==> forall x | x in s :: running(x)
    ensures Dead(s, running) <= |s|
  {
    if s != [] {
      DeadIsMember(s[..|s| - 1], running);
      assert s == s[..|s| - 1] + [s[|s| - 1]];
      assert forall x :: x in s <==> x in s[..|s| - 1] || x == s[|s| - 1];
    }
  }

  /** The dead before a position, and from there on. */
  lemma DeadSplit(s: seq<int>, i: nat, running: int -> bool)
    requires i < |s|
    ensures Dead(s, running) == Dead(s[..i], running) + Dead(s[i..], running)
    ensures Dead(s[i..], running) == (if running(s[i]) then 0 else 1) + Dead(s[i + 1..], running)
    ensures Dead(s[..i + 1], running) == Dead(s[..i], running) + if running(s[i]) then 0 else 1
  {
    assert s == s[..i] + s[i..];
    assert s[i..] == [s[i]] + s[i + 1..];
    assert s[..i + 1] == s[..i] + [s[i]];
    DeadAppend(s[..i], s[i..], running);
    DeadAppend([s[i]], s[i + 1..], running);
    DeadAppend(s[..i], [s[i]], running);
    assert [s[i]][..0] == [];
  }

  /** After a removal, the element in the freed place counts as seen. */
  lemma DeadRemoved(s: seq<int>, i: nat, running: int -> bool)
    requires i < |s| && !running(s[i])
    ensures var r := Removed(s, i);
      if i == |s| - 1 then r == s[..i] && Dead(s[i..], running) == 1
      else
        var l := if running(s[|s| - 1]) then 0 else 1;
        && Dead(r[..i + 1], running) == Dead(s[..i], running) + l
        && Dead(r[i + 1..], running) + 1 + l == Dead(s[i..], running)
  {
    var r := Removed(s, i);
    DeadSplit(s, i, running);
    if i < |s| - 1 {
      assert r[..i] == s[..i] && r[i + 1..] == s[i + 1..][..|s| - i - 2];
      DeadSplit(r, i, running);
    } else {
      assert s[i + 1..] == [];
    }
  }

  /** At most half of the dead of the rest of the list stay, besides those that
      are behind already. */
  lemma {:induction false} SweepRemovesHalf(s: seq<int>, i: nat, running: int -> bool)
    requires i <= |s|
    ensures Dead(SweepFrom(s, i, running), running) <= Dead(s[..i], running) + Dead(s[i..], running) / 2
    decreases |s| - i
  {
    if i == |s| {
      assert s[..i] == s;
    } else if running(s[i]) {
      DeadSplit(s, i, running);
      SweepRemovesHalf(s, i + 1, running);
    } else {
      DeadRemoved(s, i, running);
      if i < |s| - 1 { SweepRemovesHalf(Removed(s, i), i + 1, running); }
    }
  }

  // ----- When a sweep takes off all dead -----

  /** With `front` dead behind position i, which stay, and m from i on: all are
      gone if there are none behind, and of the last m all but one run. */
  predicate Clears(s: seq<int>, front: nat, m: nat, running: int -> bool) {
    front == 0 && (m <= 1 || (m <= |s| && Dead(s[|s| - m + 1..], running) == 0))
  }

  lemma DeadAtMost(s: seq<int>, i: nat, running: int -> bool)
    requires i <= |s|
    ensures Dead(s[i..], running) <= |s| - i
  {
    DeadIsMember(s[i..], running);
  }

  /** The dead among the last elements, and the last one of them. */
  lemma DeadLast(s: seq<int>, p: nat, running: int -> bool)
    requires p < |s|
    ensures Dead(s[p..], running) == Dead(s[p..|s| - 1], running) + if running(s[|s| - 1]) then 0 else 1
  {
    assert s[p..][..|s| - p - 1] == s[p..|s| - 1];
  }

  lemma RemovedRest(s: seq<int>, i: nat, p: nat)
    requires i < p < |s|
    ensures Removed(s, i)[p..] == s[p..|s| - 1]
  {
  }

  /** The last child is dead: it comes behind, so it stays. */
  lemma LastIsDead(s: seq<int>, i: nat, m: nat, running: int -> bool)
    requires i < |s| - 1 && !running(s[i]) && !running(s[|s| - 1]) && m == Dead(s[i..], running)
    ensures !Clears(s, Dead(s[..i], running), m, running) && Dead(Removed(s, i)[..i + 1], running) > 0
  {
    DeadRemoved(s, i, running);
    DeadSplit(s, i, running);
    DeadAtMost(s, i, running);
    DeadLast(s, i + 1, running);
    if m > 1 { DeadLast(s, |s| - m + 1, running); }
  }

  /** The last child runs: one dead child less, and the same last ones. */
  lemma LastRuns(s: seq<int>, i: nat, m: nat, running: int -> bool)
    requires i < |s| - 1 && !running(s[i]) && running(s[|s| - 1]) && m == Dead(s[i..], running)
    ensures var r := Removed(s, i);
      && Dead(r[..i + 1], running) == Dead(s[..i], running) && Dead(r[i + 1..], running) + 1 == m
      && Clears(s, Dead(s[..i], running), m, running) == Clears(r, Dead(s[..i], running), m - 1, running)
  {
    DeadRemoved(s, i, running);
    DeadAtMost(s, i, running);
    if m >= 2 {
      DeadLast(s, |s| - m + 1, running);
      RemovedRest(s, i, |s| - m + 1);
      if m == 2 { assert s[|s| - 1..|s| - 1] == []; }
    }
  }

  lemma {:induction false} SweepFromClears(s: seq<int>, i: nat, front: nat, m: nat, running: int -> bool)
    requires i <= |s| && front == Dead(s[..i], running) && m == Dead(s[i..], running)
    ensures Dead(SweepFrom(s, i, running), running) == 0 <==> Clears(s, front, m, running)
    decreases |s| - i
  {
    if i == |s| {
      assert s[..i] == s && s[i..] == [];
    } else if running(s[i]) {
      DeadSplit(s, i, running);
      SweepFromClears(s, i + 1, front, m, running);
    } else if i == |s| - 1 {
      DeadRemoved(s, i, running);
    } else {
      var r := Removed(s, i);
      SweepFromClears(r, i + 1, Dead(r[..i + 1], running), Dead(r[i + 1..], running), running);
      if running(s[|s| - 1]) { LastRuns(s, i, m, running); } else { LastIsDead(s, i, m, running); }
    }
  }

  lemma StartCounts(s: seq<int>, running: int -> bool)
    ensures Dead(s[..0], running) == 0 && Dead(s[0..], running) == Dead(s, running) <= |s|
  {
    DeadIsMember(s, running);
    assert s[0..] == s;
  }

  /** A sweep takes off all m dead children exactly if there is at most one, or
      the last m - 1 children of the list all run. */
  lemma SweepClears(s: seq<int>, running: int -> bool)
    ensures Dead(s, running) <= |s|
    ensures Dead(Sweep(s, running), running) == 0
      <==> Dead(s, running) <= 1 || Dead(s[|s| - Dead(s, running) + 1..], running) == 0
  {
    StartCounts(s, running);
    SweepFromClears(s, 0, 0, Dead(s, running), running);
  }

  lemma RemovedContent(s: seq<int>, i: nat)
    requires i < |s|
    ensures multiset(Removed(s, i)) == multiset(s) - multiset{s[i]}
  {
    var last := s[|s| - 1];
    assert s == s[..|s| - 1] + [last];
    assert Removed(s, i) == if i == |s| - 1 then s[..|s| - 1] else s[..|s| - 1][i := last];
  }

  lemma RemovedIsDistinct(s: seq<int>, i: nat)
    requires i < |s| && Distinct(s)
    ensures Distinct(Removed(s, i))
    ensures s[i] !in Removed(s, i) && forall x | x in Removed(s, i) :: x in s
  {
  }

  lemma OthersStay(s: seq<int>, i: nat)
    requires i < |s|
    ensures forall x | x in s && x != s[i] :: x in Removed(s, i)
  {
    var r := Removed(s, i);
    forall x | x in s && x != s[i] ensures x in r {
      var k :| 0 <= k < |s| && s[k] == x;
      assert x == if k == |s| - 1 then r[i] else r[k];
    }
  }

  lemma RemovedOne(s: seq<int>, i: nat)
    requires i < |s| && Distinct(s)
    ensures Distinct(Removed(s, i)) && forall x :: x in Removed(s, i) <==> x in s && x != s[i]
  {
    RemovedIsDistinct(s, i);
    OthersStay(s, i);
  }

  /** A sweep keeps every running child as often as it was there, and adds
      nothing. */
  lemma {:induction false} SweepKeepsRunning(s: seq<int>, i: nat, running: int -> bool)
    ensures forall x | running(x) :: multiset(SweepFrom(s, i, running))[x] == multiset(s)[x]
    ensures multiset(SweepFrom(s, i, running)) <= multiset(s)
    decreases |s| - i
  {
    if i < |s| {
      if running(s[i]) {
        SweepKeepsRunning(s, i + 1, running);
      } else {
        RemovedContent(s, i);
        SweepKeepsRunning(Removed(s, i), i + 1, running);
      }
    }
  }

  lemma {:induction false} SweepIsDistinct(s: seq<int>, i: nat, running: int -> bool)
    requires Distinct(s)
    ensures Distinct(SweepFrom(s, i, running))
    ensures |SweepFrom(s, i, running)| <= |s|
    ensures forall x | x in SweepFrom(s, i, running) :: x in s
    ensures forall x | x in s && running(x) :: x in SweepFrom(s, i, running)
    decreases |s| - i
  {
    if i < |s| {
      if running(s[i]) {
        SweepIsDistinct(s, i + 1, running);
      } else {
        RemovedOne(s, i);
        SweepIsDistinct(Removed(s, i), i + 1, running);
      }
    }
  }

  // ----- Many sweeps -----

  function Sweeps(s: seq<int>, running: int -> bool, k: nat): seq<int>
    decreases k
  {
    if k == 0 then s else Sweeps(Sweep(s, running), running, k - 1)
  }

  function Pow2(k: nat): nat { if k == 0 then 1 else 2 * Pow2(k - 1) }

  /** While nothing else happens, k sweeps get rid of fewer than 2^k dead
      children. */
  lemma {:induction false} DeadAreGone(s: seq<int>, running: int -> bool, k: nat)
    requires Dead(s, running) < Pow2(k)
    ensures Dead(Sweeps(s, running, k), running) == 0
    decreases k
  {
    if k > 0 {
      SweepRemovesHalf(s, 0, running);
      assert s[..0] == [] && s[0..] == s;
      DeadAreGone(Sweep(s, running), running, k - 1);
    }
  }

  /** No fewer sweeps do: if all are dead, exactly half of them stay. */
  lemma {:induction false} AllDead(s: seq<int>, i: nat, running: int -> bool)
    requires i <= |s| && forall x | x in s :: !running(x)
    ensures |SweepFrom(s, i, running)| == i + (|s| - i) / 2
    ensures forall x | x in SweepFrom(s, i, running) :: !running(x)
    decreases |s| - i
  {
    if i < |s| {
      var x := s[i];
      assert x in s;
      assert !running(x);
      var r := Removed(s, i);
      assert SweepFrom(s, i, running) == SweepFrom(r, i + 1, running);
      assert forall k | 0 <= k < |r| :: r[k] in s;
      if i < |s| - 1 {
        AllDead(r, i + 1, running);
      } else {
        assert SweepFrom(r, i + 1, running) == r;
      }
    }
  }

  lemma {:induction false} AllDeadStay(s: seq<int>, running: int -> bool, k: nat)
    requires |s| >= Pow2(k) && forall x | x in s :: !running(x)
    ensures Sweeps(s, running, k) != []
    decreases k
  {
    if k > 0 {
      AllDead(s, 0, running);
      AllDeadStay(Sweep(s, running), running, k - 1);
    }
  }

  // ----- Runs -----

  /** A number from the input, or the end of the input and a sweep. */
  datatype Event = Input(pid: int) | Look(running: int -> bool)

  function IndexOf(s: seq<int>, x: int): nat
    requires x in s
    ensures IndexOf(s, x) < |s| && s[IndexOf(s, x)] == x && x !in s[..IndexOf(s, x)]
  {
    if s[0] == x then 0 else
    assert x in s[1..];
    var i := IndexOf(s[1..], x);
    assert s[..1 + i] == [s[0]] + s[1..][..i];
    1 + i
  }

  function Apply(s: seq<int>, e: Event): seq<int> {
    match e
    case Input(pid) =>
      if pid > 0 then
        if |s| == MAX_CHILDREN || pid in s then s else s + [pid]
      else if pid < 0 && -pid in s then Removed(s, IndexOf(s, -pid))
      else s
    case Look(running) => Sweep(s, running)
  }

  function Run(events: seq<Event>): seq<int> {
    if events == [] then [] else Apply(Run(events[..|events| - 1]), events[|events| - 1])
  }

  /** The list has no child twice, and fits. */
  ghost predicate Fits(s: seq<int>) { Distinct(s) && |s| <= MAX_CHILDREN }

  lemma ApplyFits(s: seq<int>, e: Event)
    requires Fits(s)
    ensures Fits(Apply(s, e))
  {
    match e
    case Input(pid) =>
      if pid < 0 && -pid in s { RemovedOne(s, IndexOf(s, -pid)); }
    case Look(running) =>
      SweepIsDistinct(s, 0, running);
  }

  lemma {:induction false} RunFits(events: seq<Event>)
    ensures Fits(Run(events)) && Distinct(Run(events)) && |Run(events)| <= 1024
  {
    if events != [] {
      RunFits(events[..|events| - 1]);
      ApplyFits(Run(events[..|events| - 1]), events[|events| - 1]);
    }
  }

  /** Nothing takes x off the list: no request, and no sweep that finds it dead. */
  predicate Spares(e: Event, x: int) {
    match e
    case Input(pid) => pid != -x
    case Look(running) => running(x)
  }

  lemma ApplyTracks(s: seq<int>, e: Event, x: int)
    requires Fits(s) && x > 0
    ensures x in s && Spares(e, x) ==> x in Apply(s, e)
    ensures x in Apply(s, e) ==> x in s || e == Input(x)
    ensures e == Input(x) && |s| < 1024 ==> x in Apply(s, e)
    ensures e == Input(-x) ==> x !in Apply(s, e)
  {
    match e
    case Input(pid) =>
      if pid < 0 && -pid in s { RemovedOne(s, IndexOf(s, -pid)); }
    case Look(running) =>
      SweepIsDistinct(s, 0, running);
  }

  /** A child on the list stays there while nothing takes it off, whatever else
      happens in between. */
  lemma {:induction false} StaysTracked(before: seq<Event>, after: seq<Event>, x: int)
    requires x > 0 && x in Run(before) && forall e | e in after :: Spares(e, x)
    ensures x in Run(before + after)
  {
    if after == [] {
      assert before + after == before;
    } else {
      var n := |after| - 1;
      assert (before + after)[..|before + after| - 1] == before + after[..n];
      assert after[n] in after && forall e | e in after[..n] :: e in after;
      StaysTracked(before, after[..n], x);
      RunFits(before + after[..n]);
      ApplyTracks(Run(before + after[..n]), after[n], x);
    }
  }

  /** A child that is on the list was asked for, and not called off since. */
  lemma {:induction false} TrackedWasAsked(events: seq<Event>, x: int)
    requires x > 0 && x in Run(events)
    ensures exists k :: 0 <= k < |events| && events[k] == Input(x) && Input(-x) !in events[k..]
  {
    if events != [] {
      var n := |events| - 1;
      RunFits(events[..n]);
      ApplyTracks(Run(events[..n]), events[n], x);
      if events[n] == Input(x) {
        assert events[n..] == [events[n]];
      } else {
        TrackedWasAsked(events[..n], x);
        var k :| 0 <= k < n && events[..n][k] == Input(x) && Input(-x) !in events[..n][k..];
        assert events[k..] == events[..n][k..] + [events[n]];
        assert events[k] == Input(x);
      }
    }
  }

  // ----- The array -----

  /** Remove an element by putting the last one in its place. */
  method RemoveElement(ar: array<int>, len: nat, idx: nat) returns (newLen: nat)
    requires idx < len <= ar.Length
    modifies ar
    ensures newLen == len - 1 && ar[..newLen] == Removed(old(ar[..len]), idx)
  {
    ar[idx] := ar[len - 1];
    return len - 1;
  }

  method ArrayContains(ar: array<int>, len: nat, value: int) returns (found: bool)
    requires len <= ar.Length
    ensures found <==> value in ar[..len]
  {
    for i := 0 to len
      invariant value !in ar[..i]
    {
      if ar[i] == value {
        assert ar[..len][i] == value;
        return true;
      }
    }
    return false;
  }

  class Tracker {
    const children: array<int>
    var n: nat

    ghost predicate Valid()
      reads this, children
    {
      children.Length == MAX_CHILDREN && n <= MAX_CHILDREN && Distinct(children[..n])
    }

    ghost function Contents(): seq<int>
      reads this, children
      requires n <= children.Length
    {
      children[..n]
    }

    constructor ()
      ensures Valid() && Contents() == []
    {
      children := new int[MAX_CHILDREN];
      n := 0;
    }

    /** One number of the input. */
    method Command(pid: int)
      requires Valid()
      modifies this, children
      ensures Valid() && Contents() == Apply(old(Contents()), Input(pid))
    {
      ApplyFits(Contents(), Input(pid));
      if pid > 0 {
        if n == MAX_CHILDREN {
          return;
        }
        var found := ArrayContains(children, n, pid);
        if !found {
          children[n] := pid;
          n := n + 1;
        }
      } else if pid < 0 {
        RemoveFirst(-pid);
      }
    }

    method RemoveFirst(pid: int)
      requires Valid()
      modifies this, children
      ensures n <= children.Length
      ensures Contents() ==
        if pid in old(Contents()) then Removed(old(Contents()), IndexOf(old(Contents()), pid)) else old(Contents())
    {
      for i := 0 to n
        invariant n == old(n) && children[..n] == old(children[..n]) && pid !in children[..i]
      {
        if children[i] == pid {
          assert children[..n][i] == pid && pid in children[..n];
          assert children[..n][..i] == children[..i];
          ghost var k := IndexOf(children[..n], pid);
          assert k == i by {
            assert Distinct(children[..n]);
          }
          n := RemoveElement(children, n, i);
          return;
        }
      }
    }

    /** Take children off the list that are not running any more. */
    method Sweep(running: int -> bool)
      requires Valid()
      modifies this, children
      ensures Valid() && Contents() == Apply(old(Contents()), Look(running))
    {
      ApplyFits(Contents(), Look(running));
      var i := 0;
      while i < n
        invariant n <= children.Length
        invariant SweepFrom(Contents(), i, running) == SweepFrom(old(Contents()), 0, running)
        decreases n - i
      {
        if running(children[i]) {
        } else {
          n := RemoveElement(children, n, i);
        }
        i := i + 1;
      }
    }

    /** Ask all children to stop, look for a while whether they do, and kill the
        rest. What a look or the final check finds running was so before. */
    method KillChildren(looks: seq<int -> bool>, atEnd: int -> bool)
      returns (asked: seq<int>, killed: seq<int>)
      requires Valid() && looks != []
      requires forall j, x | 0 <= j < |looks| && atEnd(x) :: looks[j](x)
      modifies this, children
      ensures Valid() && asked == old(Contents())
      ensures forall x :: x in killed <==> x in old(Contents()) && atEnd(x)
    {
      asked, killed := [], [];
      for i := 0 to n
        invariant asked == children[..i]
      {
        asked := asked + [children[i]];
      }
      for k := 0 to |looks|
        invariant Valid()
        invariant forall x | x in Contents() :: x in asked
        invariant forall x | x in asked && atEnd(x) :: x in Contents()
      {
        SweepIsDistinct(Contents(), 0, looks[k]);
        Sweep(looks[k]);
        if n == 0 {
          return;
        }
      }
      for i := 0 to n
        invariant forall x :: x in killed <==> x in children[..i] && atEnd(x)
      {
        if atEnd(children[i]) {
          killed := killed + [children[i]];
        }
      }
    }
  }
}
