/** A growing vector of process ids, and the processes of a tree. */
module RootedTree {

  /** size elements, in storage for at least as many. */
  class Vector {
    var stor: array<int>
    var size: nat

    ghost predicate Valid()
      reads this, stor
    {
      size <= stor.Length
    }

    ghost function Contents(): seq<int>
      reads this, stor
      requires Valid()
    {
      stor[..size]
    }

    constructor (size: nat, allocSize: nat)
      ensures Valid() && fresh(stor) && this.size == size
      ensures 0 < stor.Length && allocSize <= stor.Length
    {
      var alloc := if allocSize < size then size else allocSize;
      alloc := if alloc == 0 then 1 else alloc;
      stor := new int[alloc];
      this.size := size;
    }

    /** S_realloc keeps what fits. */
    method Reserve(newSize: nat)
      requires Valid()
      modifies this
      ensures Valid() && Contents() == old(Contents()) && size == old(size)
      ensures stor == old(stor) || fresh(stor)
      ensures newSize > size ==> stor.Length == newSize
    {
      if newSize <= size {
        return;
      }
      var tmp := new int[newSize](_ => 0);
      for i := 0 to if stor.Length < newSize then stor.Length else newSize
        modifies tmp
        invariant tmp[..i] == stor[..i]
      {
        tmp[i] := stor[i];
      }
      stor := tmp;
    }

    method Clear()
      requires Valid()
      modifies this`size
      ensures Valid() && Contents() == []
    {
      size := 0;
    }

    method PushBack(e: int)
      requires Valid()
      modifies this, stor
      ensures Valid() && Contents() == old(Contents()) + [e]
      ensures stor == old(stor) || fresh(stor)
    {
      if stor.Length == size {
        var newSize := size * 2;
        if newSize == 0 { newSize := 1; }
        Reserve(newSize);
      }
      stor[size] := e;
      size := size + 1;
    }

    method Find(e: int, from: nat) returns (found: bool, idx: nat)
      requires Valid() && from <= size
      ensures found <==> e in Contents()[from..]
      ensures found ==> from <= idx < size && Contents()[idx] == e && e !in Contents()[from..idx]
    {
      idx := from;
      while idx < size
        invariant from <= idx <= size && e !in Contents()[from..idx]
      {
        if stor[idx] == e {
          assert Contents()[from..][idx - from] == e;
          return true, idx;
        }
        idx := idx + 1;
      }
      assert Contents()[from..] == Contents()[from..idx];
      found := false;
    }
  }

  // ----- Walks from the root -----

  /** Process nodes[i] has the parent parents[i]. */
  datatype Forest = Forest(nodes: seq<int>, parents: seq<int>) {
    ghost predicate Valid() { |nodes| == |parents| }

    ghost function Size(): nat { |nodes| }

    /** From each process to one of its children, beginning at the root. The
        walk lists the positions of the processes. */
    ghost predicate Walk(root: int, w: seq<nat>)
      requires Valid()
    {
      w == [] || (
        var n := |w| - 1;
        Walk(root, w[..n]) && w[n] < |nodes| && parents[w[n]] == End(root, w[..n]))
    }

    ghost function End(root: int, w: seq<nat>): int
      requires Valid() && (w == [] || w[|w| - 1] < |nodes|)
    {
      if w == [] then root else nodes[w[|w| - 1]]
    }

    ghost predicate IsWalkTo(root: int, w: seq<nat>, x: int)
      requires Valid()
    {
      Walk(root, w) && End(root, w) == x
    }

    /** x is the root or a descendant of it. */
    ghost predicate InTree(root: int, x: int)
      requires Valid()
    {
      exists w: seq<nat> :: IsWalkTo(root, w, x)
    }

    ghost predicate IsLongWalkTo(root: int, w: seq<nat>, x: int, k: nat)
      requires Valid()
    {
      |w| >= k && IsWalkTo(root, w, x)
    }

    ghost predicate Far(root: int, x: int, k: nat)
      requires Valid()
    {
      exists w: seq<nat> :: IsLongWalkTo(root, w, x, k)
    }

    /** No walk from the root meets itself. */
    ghost predicate Acyclic(root: int)
      requires Valid()
    {
      forall w: seq<nat> | Walk(root, w) :: Simple(w)
    }

    lemma Longer(root: int, w: seq<nat>, i: nat, k: nat)
      requires Valid() && Walk(root, w) && i < |nodes| && parents[i] == End(root, w) && |w| >= k
      ensures Far(root, nodes[i], k + 1)
    {
      assert (w + [i])[..|w|] == w;
      assert IsLongWalkTo(root, w + [i], nodes[i], k + 1);
    }

    /** What one round over the first i processes adds to the result. */
    ghost function Added(seg: seq<int>, i: nat): seq<int>
      requires Valid() && i <= |nodes|
    {
      if i == 0 then [] else
      var r := Added(seg, i - 1);
      if parents[i - 1] in seg + r then r + [nodes[i - 1]] else r
    }

    /** What round k starts from. */
    ghost function Segment(root: int, k: nat): seq<int>
      requires Valid()
    {
      if k == 0 then [root] else Added(Segment(root, k - 1), |nodes|)
    }

    /** The result before round k. */
    ghost function Before(root: int, k: nat): seq<int>
      requires Valid()
    {
      if k == 0 then [] else Before(root, k - 1) + Segment(root, k - 1)
    }

    lemma {:induction false} RootIsFirst(root: int, k: nat)
      requires Valid() && k > 0
      ensures [root] <= Before(root, k)
    {
      if k == 1 {
        assert Before(root, 1) == Before(root, 0) + Segment(root, 0) == [root];
      } else {
        RootIsFirst(root, k - 1);
      }
    }

    /** What a round adds is further away than where it started. */
    lemma {:induction false} AddedIsFar(root: int, seg: seq<int>, i: nat, k: nat)
      requires Valid() && i <= |nodes| && forall x | x in seg :: Far(root, x, k)
      ensures forall x | x in Added(seg, i) :: Far(root, x, k + 1)
    {
      if i > 0 {
        AddedIsFar(root, seg, i - 1, k);
        var p := parents[i - 1];
        if p in seg + Added(seg, i - 1) {
          assert Far(root, p, k) by {
            if p !in seg {
              var w: seq<nat> :| IsLongWalkTo(root, w, p, k + 1);
              assert IsLongWalkTo(root, w, p, k);
            }
          }
          var w: seq<nat> :| IsLongWalkTo(root, w, p, k);
          Longer(root, w, i - 1, k);
        }
      }
    }

    lemma {:induction false} SegmentIsFar(root: int, k: nat)
      requires Valid()
      ensures forall x | x in Segment(root, k) :: Far(root, x, k)
    {
      if k == 0 {
        assert IsLongWalkTo(root, [], root, 0);
      } else {
        SegmentIsFar(root, k - 1);
        AddedIsFar(root, Segment(root, k - 1), |nodes|, k - 1);
      }
    }

    /** A round adds all children of what it started from. */
    lemma {:induction false} AddedAll(seg: seq<int>, i: nat, j: nat)
      requires Valid() && j < i <= |nodes| && parents[j] in seg
      ensures nodes[j] in Added(seg, i)
    {
      if j < i - 1 { AddedAll(seg, i - 1, j); }
    }

    /** Whatever k steps from the root reach is in segment k. */
    lemma {:induction false} WalkIsInSegment(root: int, w: seq<nat>)
      requires Valid() && Walk(root, w)
      ensures End(root, w) in Segment(root, |w|)
    {
      if w != [] {
        var n := |w| - 1;
        WalkIsInSegment(root, w[..n]);
        AddedAll(Segment(root, n), |nodes|, w[n]);
      }
    }

    lemma {:induction false} SegmentIsBefore(root: int, j: nat, k: nat)
      requires Valid() && j < k
      ensures forall x | x in Segment(root, j) :: x in Before(root, k)
    {
      if j < k - 1 { SegmentIsBefore(root, j, k - 1); }
    }

    lemma {:induction false} BeforeIsInTree(root: int, k: nat)
      requires Valid()
      ensures forall x | x in Before(root, k) :: InTree(root, x)
    {
      if k > 0 {
        BeforeIsInTree(root, k - 1);
        SegmentIsFar(root, k - 1);
        forall x | x in Segment(root, k - 1) ensures InTree(root, x) {
          var w: seq<nat> :| IsLongWalkTo(root, w, x, k - 1);
          assert IsWalkTo(root, w, x);
        }
      }
    }

    lemma {:induction false} PrefixIsWalk(root: int, w: seq<nat>, k: nat)
      requires Valid() && Walk(root, w) && k <= |w|
      ensures Walk(root, w[..k])
    {
      if k < |w| {
        PrefixIsWalk(root, w[..|w| - 1], k);
        assert w[..|w| - 1][..k] == w[..k];
      } else {
        assert w[..k] == w;
      }
    }

    lemma {:induction false} PositionsExist(root: int, w: seq<nat>)
      requires Valid() && Walk(root, w)
      ensures forall j | 0 <= j < |w| :: w[j] < |nodes|
    {
      if w != [] {
        PositionsExist(root, w[..|w| - 1]);
        assert forall j | 0 <= j < |w| - 1 :: w[j] == w[..|w| - 1][j];
      }
    }

    lemma {:induction false} WalkOn(root: int, a: seq<nat>, b: seq<nat>)
      requires Valid() && Walk(root, a) && Walk(End(root, a), b)
      ensures Walk(root, a + b) && End(root, a + b) == End(End(root, a), b)
    {
      if b == [] {
        assert a + b == a;
      } else {
        WalkOn(root, a, b[..|b| - 1]);
        assert (a + b)[..|a + b| - 1] == a + b[..|b| - 1];
      }
    }

    lemma {:induction false} RestIsWalk(root: int, w: seq<nat>, k: nat)
      requires Valid() && Walk(root, w) && k <= |w|
      ensures Walk(root, w[..k]) && Walk(End(root, w[..k]), w[k..])
    {
      PrefixIsWalk(root, w, k);
      if k < |w| {
        var n := |w| - 1;
        RestIsWalk(root, w[..n], k);
        assert w[..n][..k] == w[..k] && w[..n][k..] == w[k..][..n - k];
        if k == n { assert w[k..][..0] == []; }
      }
    }

    /** Round k has something to do exactly if there is a walk of k steps. */
    lemma RoundNeeded(root: int, k: nat)
      requires Valid()
      ensures Segment(root, k) != [] <==> exists w: seq<nat> :: |w| == k && Walk(root, w)
    {
      SegmentIsFar(root, k);
      if Segment(root, k) != [] {
        var x := Segment(root, k)[0];
        assert x in Segment(root, k);
        var w: seq<nat> :| IsLongWalkTo(root, w, x, k);
        PrefixIsWalk(root, w, k);
        assert |w[..k]| == k;
      }
      if w: seq<nat> :| |w| == k && Walk(root, w) {
        WalkIsInSegment(root, w);
      }
    }

    /** Once a round has nothing to do, the result is the whole tree. */
    lemma ResultIsTree(root: int, k: nat)
      requires Valid() && Segment(root, k) == []
      ensures forall x :: x in Before(root, k) <==> InTree(root, x)
    {
      BeforeIsInTree(root, k);
      forall x | InTree(root, x) ensures x in Before(root, k) {
        var w: seq<nat> :| IsWalkTo(root, w, x);
        if |w| >= k {
          PrefixIsWalk(root, w, k);
          assert |w[..k]| == k;
          RoundNeeded(root, k);
          assert false;
        }
        WalkIsInSegment(root, w);
        SegmentIsBefore(root, |w|, k);
      }
    }

    /** Without cycles no walk has more steps than there are processes. */
    lemma RoundsEnd(root: int, k: nat)
      requires Valid() && Acyclic(root) && k > |nodes|
      ensures Segment(root, k) == []
    {
      RoundNeeded(root, k);
      if w: seq<nat> :| |w| == k && Walk(root, w) {
        assert Simple(w);
        PositionsExist(root, w);
        Pigeonhole(w, |nodes|);
        assert false;
      }
    }

    /** A walk that comes back can go round for k steps. */
    lemma {:induction false} GoRound(root: int, w: seq<nat>, loop: seq<nat>, k: nat) returns (v: seq<nat>)
      requires Valid() && Walk(root, w) && loop != []
      requires Walk(End(root, w), loop) && End(End(root, w), loop) == End(root, w)
      ensures |v| == k && Walk(root, v)
      decreases k - |w|
    {
      if k <= |w| {
        PrefixIsWalk(root, w, k);
        v := w[..k];
      } else {
        WalkOn(root, w, loop);
        v := GoRound(root, w + loop, loop, k);
      }
    }

    /** The part of a walk between two visits of the same process. */
    lemma FindLoop(root: int, w: seq<nat>, i: nat, j: nat)
      requires Valid() && Walk(root, w) && i < j < |w| && w[i] == w[j]
      ensures var there, loop := w[..i + 1], w[..j + 1][i + 1..];
        && loop != [] && Walk(root, there) && Walk(End(root, there), loop)
        && End(End(root, there), loop) == End(root, there)
    {
      PrefixIsWalk(root, w, j + 1);
      RestIsWalk(root, w[..j + 1], i + 1);
      assert w[..j + 1][..i + 1] == w[..i + 1];
    }

    // ----- How often a process is found -----

    /** The parent of process i is in the tree. */
    ghost predicate Reached(root: int, i: nat)
      requires Valid()
    {
      i < |nodes| && InTree(root, parents[i])
    }

    /** In the tree, no process is listed twice. */
    ghost predicate ListedOnce(root: int)
      requires Valid()
    {
      forall i: nat, j: nat | Reached(root, i) && Reached(root, j) && nodes[i] == nodes[j] :: i == j
    }

    /** In the tree, every process is listed before its parent. */
    ghost predicate ParentsLast(root: int)
      requires Valid()
    {
      forall i: nat, j: nat | Reached(root, i) && Reached(root, j) && parents[i] == nodes[j] :: i < j
    }

    lemma SegmentIsInTree(root: int, k: nat)
      requires Valid()
      ensures forall x | x in Segment(root, k) :: InTree(root, x)
    {
      SegmentIsFar(root, k);
      forall x | x in Segment(root, k) ensures InTree(root, x) {
        var w: seq<nat> :| IsLongWalkTo(root, w, x, k);
        assert IsWalkTo(root, w, x);
      }
    }

    lemma ReachedIfInSegment(root: int, k: nat, i: nat)
      requires Valid() && i < |nodes| && parents[i] in Segment(root, k)
      ensures Reached(root, i)
    {
      SegmentIsInTree(root, k);
    }

    lemma SegmentOfReached(root: int, i: nat) returns (k: nat)
      requires Valid() && Reached(root, i)
      ensures parents[i] in Segment(root, k)
    {
      var w: seq<nat> :| IsWalkTo(root, w, parents[i]);
      WalkIsInSegment(root, w);
      k := |w|;
    }

    /** Position j adds x to a round that begins with seg. */
    ghost predicate AddedBy(seg: seq<int>, x: int, j: nat)
      requires Valid()
    {
      j < |nodes| && parents[j] in seg && nodes[j] == x
    }

    /** With parents last, a round finds only children of what it started from. */
    lemma {:induction false} AddedByChild(root: int, k: nat, i: nat)
      requires Valid() && ParentsLast(root) && i <= |nodes|
      ensures forall x | x in Added(Segment(root, k), i) ::
        exists j: nat :: j < i && AddedBy(Segment(root, k), x, j)
      decreases i, 0
    {
      if i > 0 {
        var seg, m := Segment(root, k), i - 1;
        AddedByChild(root, k, m);
        if parents[m] in seg + Added(seg, m) {
          OnlyChildAdds(root, k, m);
          assert AddedBy(seg, nodes[m], m);
        }
      }
    }

    lemma {:induction false} AddedGrows(seg: seq<int>, i: nat, n: nat)
      requires Valid() && i <= n <= |nodes|
      ensures Added(seg, i) <= Added(seg, n)
    {
      if i < n { AddedGrows(seg, i, n - 1); }
    }

    /** A round does not find the same process twice. */
    lemma {:induction false} AddedIsDistinct(root: int, k: nat, i: nat)
      requires Valid() && ListedOnce(root) && ParentsLast(root) && i <= |nodes|
      ensures Distinct(Added(Segment(root, k), i))
    {
      if i > 0 {
        var seg, m := Segment(root, k), i - 1;
        AddedIsDistinct(root, k, m);
        AddedByChild(root, k, m);
        if parents[m] in seg + Added(seg, m) {
          OnlyChildAdds(root, k, m);
          ReachedIfInSegment(root, k, m);
          if nodes[m] in Added(seg, m) {
            var j: nat :| j < m && AddedBy(seg, nodes[m], j);
            ReachedIfInSegment(root, k, j);
          }
          DistinctJoin(Added(seg, m), [nodes[m]]);
        }
      }
    }

    /** With parents last, position m adds something only for its parent. */
    lemma OnlyChildAdds(root: int, k: nat, m: nat)
      requires Valid() && ParentsLast(root) && m < |nodes|
      requires parents[m] in Segment(root, k) + Added(Segment(root, k), m)
      ensures parents[m] in Segment(root, k)
      decreases m, 1
    {
      var seg := Segment(root, k);
      if parents[m] !in seg {
        AddedByChild(root, k, m);
        var j: nat :| j < m && AddedBy(seg, parents[m], j);
        ReachedIfInSegment(root, k, j);
        AddedGrows(seg, m, |nodes|);
        ReachedIfInSegment(root, k + 1, m);
      }
    }

    /** The root is not found again. */
    lemma RootIsFoundOnce(root: int, l: nat, end: nat)
      requires Valid() && Segment(root, end) == [] && l > 0
      ensures root !in Segment(root, l)
    {
      if root in Segment(root, l) {
        SegmentIsFar(root, l);
        var w: seq<nat> :| IsLongWalkTo(root, w, root, l);
        var v := GoRound(root, [], w, end);
        RoundNeeded(root, end);
      }
    }

    /** Two rounds do not find the same process. */
    lemma {:induction false} RoundsAreDisjoint(root: int, k: nat, l: nat, end: nat, x: int)
      requires Valid() && ListedOnce(root) && ParentsLast(root) && Segment(root, end) == []
      requires k < l && x in Segment(root, k)
      ensures x !in Segment(root, l)
      decreases k
    {
      if k == 0 {
        RootIsFoundOnce(root, l, end);
      } else if x in Segment(root, l) {
        AddedByChild(root, k - 1, |nodes|);
        AddedByChild(root, l - 1, |nodes|);
        var i: nat :| i < |nodes| && AddedBy(Segment(root, k - 1), x, i);
        var j: nat :| j < |nodes| && AddedBy(Segment(root, l - 1), x, j);
        ReachedIfInSegment(root, k - 1, i);
        ReachedIfInSegment(root, l - 1, j);
        RoundsAreDisjoint(root, k - 1, l - 1, end, parents[i]);
      }
    }

    lemma {:induction false} BeforeIsSegments(root: int, k: nat, x: int)
      requires Valid() && x in Before(root, k)
      ensures exists j: nat :: j < k && x in Segment(root, j)
    {
      if x !in Segment(root, k - 1) { BeforeIsSegments(root, k - 1, x); }
    }

    lemma {:induction false} BeforeIsDistinct(root: int, k: nat, end: nat)
      requires Valid() && ListedOnce(root) && ParentsLast(root) && Segment(root, end) == []
      ensures Distinct(Before(root, k))
    {
      if k > 0 {
        var m := k - 1;
        BeforeIsDistinct(root, m, end);
        if m > 0 { AddedIsDistinct(root, m - 1, |nodes|); }
        forall x | x in Before(root, m) ensures x !in Segment(root, m) {
          BeforeIsSegments(root, m, x);
          var j: nat :| j < m && x in Segment(root, j);
          RoundsAreDisjoint(root, j, m, end, x);
        }
        DistinctJoin(Before(root, m), Segment(root, m));
      }
    }

    lemma {:induction false} EmptyForGood(root: int, end: nat, k: nat)
      requires Valid() && Segment(root, end) == [] && k >= end
      ensures Segment(root, k) == []
    {
      if k > end {
        EmptyForGood(root, end, k - 1);
        NothingFromNothing(|nodes|);
      }
    }

    lemma {:induction false} NothingFromNothing(i: nat)
      requires Valid() && i <= |nodes|
      ensures Added([], i) == []
    {
      if i > 0 { NothingFromNothing(i - 1); }
    }

    /** A process that two rounds find is in the result twice. */
    lemma {:induction false} TwiceInBefore(root: int, k: nat, l: nat, n: nat, x: int)
      requires Valid() && k < l < n && x in Segment(root, k) && x in Segment(root, l)
      ensures !Distinct(Before(root, n))
    {
      if l < n - 1 {
        TwiceInBefore(root, k, l, n - 1, x);
        TwiceInPrefix(Before(root, n - 1), Segment(root, n - 1));
      } else {
        SegmentIsBefore(root, k, l);
        TwiceInBoth(Before(root, l), Segment(root, l), x);
      }
    }

    /** So is one that a round finds twice. */
    lemma {:induction false} TwiceInRound(root: int, k: nat, n: nat)
      requires Valid() && k < n && !Distinct(Segment(root, k))
      ensures !Distinct(Before(root, n))
    {
      if k < n - 1 {
        TwiceInRound(root, k, n - 1);
        TwiceInPrefix(Before(root, n - 1), Segment(root, n - 1));
      } else {
        TwiceInRest(Before(root, k), Segment(root, k));
      }
    }

    /** Two positions that add the same process in one round. */
    lemma {:induction false} AddedTwice(seg: seq<int>, i: nat, j: nat, n: nat)
      requires Valid() && i < j < n <= |nodes|
      requires parents[i] in seg && parents[j] in seg && nodes[i] == nodes[j]
      ensures !Distinct(Added(seg, n))
    {
      if j < n - 1 {
        AddedTwice(seg, i, j, n - 1);
        AddedGrows(seg, n - 1, n);
        TwiceInLonger(Added(seg, n - 1), Added(seg, n));
      } else {
        AddedAll(seg, j, i);
        TwiceInBoth(Added(seg, j), [nodes[j]], nodes[j]);
      }
    }

    /** If a process of the tree is listed twice, it is found twice. */
    lemma ListedTwiceFoundTwice(root: int, i: nat, j: nat, end: nat)
      requires Valid() && Segment(root, end) == []
      requires Reached(root, i) && Reached(root, j) && i < j && nodes[i] == nodes[j]
      ensures !Distinct(Before(root, end))
    {
      var k := SegmentOfReached(root, i);
      var l := SegmentOfReached(root, j);
      AddedAll(Segment(root, k), |nodes|, i);
      AddedAll(Segment(root, l), |nodes|, j);
      if k + 1 >= end { EmptyForGood(root, end, k + 1); }
      if l + 1 >= end { EmptyForGood(root, end, l + 1); }
      if k == l {
        AddedTwice(Segment(root, k), i, j, |nodes|);
        TwiceInRound(root, k + 1, end);
      } else if k < l {
        TwiceInBefore(root, k + 1, l + 1, end, nodes[i]);
      } else {
        TwiceInBefore(root, l + 1, k + 1, end, nodes[i]);
      }
    }

    /** If a process of the tree is listed after its parent, it is found twice:
        in the same round as the parent, and in the next one. */
    lemma ParentFirstFoundTwice(root: int, i: nat, j: nat, end: nat)
      requires Valid() && Segment(root, end) == []
      requires Reached(root, i) && Reached(root, j) && j <= i && parents[i] == nodes[j]
      ensures !Distinct(Before(root, end))
    {
      var k := SegmentOfReached(root, j);
      var seg := Segment(root, k);
      AddedAll(seg, |nodes|, j);
      AddedAll(Segment(root, k + 1), |nodes|, i);
      if j < i {
        AddedAll(seg, i, j);
        assert nodes[i] in Added(seg, i + 1);
        AddedGrows(seg, i + 1, |nodes|);
      }
      if k + 2 >= end { EmptyForGood(root, end, k + 2); }
      TwiceInBefore(root, k + 1, k + 2, end, nodes[i]);
    }

    /** Every process is found once exactly if, in the tree, none is listed
        twice and each is listed before its parent. */
    lemma FoundOnce(root: int, end: nat)
      requires Valid() && Segment(root, end) == []
      ensures Distinct(Before(root, end)) <==> ListedOnce(root) && ParentsLast(root)
    {
      if ListedOnce(root) && ParentsLast(root) {
        BeforeIsDistinct(root, end, end);
      } else if !ListedOnce(root) {
        var i: nat, j: nat :| Reached(root, i) && Reached(root, j) && nodes[i] == nodes[j] && i != j;
        if i < j { ListedTwiceFoundTwice(root, i, j, end); } else { ListedTwiceFoundTwice(root, j, i, end); }
      } else {
        var i: nat, j: nat :| Reached(root, i) && Reached(root, j) && parents[i] == nodes[j] && i >= j;
        ParentFirstFoundTwice(root, i, j, end);
      }
    }

    /** The search ends exactly if there is no cycle below the root. */
    lemma SearchEnds(root: int)
      requires Valid()
      ensures (exists k: nat :: Segment(root, k) == []) <==> Acyclic(root)
    {
      if Acyclic(root) {
        RoundsEnd(root, |nodes| + 1);
      } else {
        var w: seq<nat> :| Walk(root, w) && !Simple(w);
        var i, j :| 0 <= i < j < |w| && w[i] == w[j];
        FindLoop(root, w, i, j);
        forall k: nat ensures Segment(root, k) != [] {
          var v := GoRound(root, w[..i + 1], w[..j + 1][i + 1..], k);
          RoundNeeded(root, k);
        }
      }
    }
  }

  ghost predicate Distinct(s: seq<int>) {
    forall i, j | 0 <= i < j < |s| :: s[i] != s[j]
  }

  lemma DistinctJoin(s: seq<int>, t: seq<int>)
    requires Distinct(s) && Distinct(t) && forall x | x in s :: x !in t
    ensures Distinct(s + t)
  {
    forall i, j | 0 <= i < j < |s + t| ensures (s + t)[i] != (s + t)[j] {
      if i < |s| { assert s[i] in s; }
      if j >= |s| { assert t[j - |s|] in t; }
    }
  }

  lemma TwiceInLonger(s: seq<int>, t: seq<int>)
    requires !Distinct(s) && s <= t
    ensures !Distinct(t)
  {
    var i, j :| 0 <= i < j < |s| && s[i] == s[j];
    assert t[i] == t[j];
  }

  lemma TwiceInPrefix(s: seq<int>, t: seq<int>)
    requires !Distinct(s)
    ensures !Distinct(s + t)
  {
    TwiceInLonger(s, s + t);
  }

  lemma TwiceInRest(s: seq<int>, t: seq<int>)
    requires !Distinct(t)
    ensures !Distinct(s + t)
  {
    var i, j :| 0 <= i < j < |t| && t[i] == t[j];
    assert (s + t)[|s| + i] == (s + t)[|s| + j];
  }

  lemma TwiceInBoth(s: seq<int>, t: seq<int>, x: int)
    requires x in s && x in t
    ensures !Distinct(s + t)
  {
    var i :| 0 <= i < |s| && s[i] == x;
    var j :| 0 <= j < |t| && t[j] == x;
    assert (s + t)[i] == (s + t)[|s| + j];
  }

  lemma AddedToTwo(seg: seq<int>, a: int, b: int, c: int, d: int)
    ensures var f := Forest([a, b], [c, d]);
      var first := if c in seg then [a] else [];
      f.Added(seg, 2) == first + if d in seg + first then [b] else []
  {
    var f := Forest([a, b], [c, d]);
    assert f.Added(seg, 1) == if c in seg then [a] else [];
  }

  /** A process can be in the result twice: here 3, which is listed after its
      parent, and found in the first round already. */
  lemma FoundTwice()
    ensures var f := Forest([2, 3], [1, 2]);
      f.Segment(1, 3) == [] && f.Before(1, 3) == [1, 2, 3, 3]
  {
    var f := Forest([2, 3], [1, 2]);
    AddedToTwo([1], 2, 3, 1, 2);
    AddedToTwo([2, 3], 2, 3, 1, 2);
    AddedToTwo([3], 2, 3, 1, 2);
    assert f.Segment(1, 0) == [1];
    assert f.Segment(1, 1) == [2, 3];
    assert f.Segment(1, 2) == [3];
    assert f.Before(1, 1) == [1];
    assert f.Before(1, 2) == [1, 2, 3];
  }

  ghost predicate Simple(w: seq<nat>) {
    forall i, j | 0 <= i < j < |w| :: w[i] != w[j]
  }

  lemma {:induction false} Pigeonhole(w: seq<nat>, n: nat)
    requires Simple(w) && forall j | 0 <= j < |w| :: w[j] < n
    ensures |w| <= n
  {
    if w != [] {
      assert w[0] < n;
      if k :| 0 <= k < |w| && w[k] == n - 1 {
        Pigeonhole(w[..k] + w[k + 1..], n - 1);
      } else {
        Pigeonhole(w, n - 1);
      }
    }
  }

  /** One round: search for the parent of each process in what the result has
      from `done` on, including what this round added to it. */
  method Round(nodes: Vector, parents: Vector, result: Vector, done: nat)
    requires nodes.Valid() && parents.Valid() && result.Valid() && nodes.size == parents.size
    requires result != nodes && result != parents && result.stor != nodes.stor && result.stor != parents.stor
    requires done <= result.size
    modifies result, result.stor
    ensures result.Valid() && (result.stor == old(result.stor) || fresh(result.stor))
    ensures var forest := Forest(nodes.Contents(), parents.Contents());
      result.Contents() == old(result.Contents()) + forest.Added(old(result.Contents())[done..], forest.Size())
  {
    ghost var forest := Forest(nodes.Contents(), parents.Contents());
    ghost var before := result.Contents();
    for i := 0 to nodes.size
      modifies result, result.stor
      invariant result.Valid() && (result.stor == old(result.stor) || fresh(result.stor))
      invariant result.Contents() == before + forest.Added(before[done..], i)
    {
      var parent := parents.stor[i];
      assert parent == forest.parents[i] && nodes.stor[i] == forest.nodes[i];
      var found, _ := result.Find(parent, done);
      assert result.Contents()[done..] == before[done..] + forest.Added(before[done..], i);
      if found {
        result.PushBack(nodes.stor[i]);
      }
    }
  }

  /** All rounds, until one has nothing to do. */
  method Search(root: int, nodes: Vector, parents: Vector, result: Vector) returns (ghost round: nat)
    requires nodes.Valid() && parents.Valid() && result.Valid() && nodes.size == parents.size
    requires result != nodes && result != parents && result.stor != nodes.stor && result.stor != parents.stor
    requires Forest(nodes.Contents(), parents.Contents()).Acyclic(root)
    modifies result, result.stor
    ensures result.Valid() && round > 0
    ensures var forest := Forest(nodes.Contents(), parents.Contents());
      forest.Segment(root, round) == [] && result.Contents() == forest.Before(root, round)
  {
    var done, nextDone := 0, 1;
    ghost var forest := Forest(nodes.Contents(), parents.Contents());
    round := 0;
    result.Clear();
    result.PushBack(root);
    while done < nextDone
      invariant result.Valid() && (result.stor == old(result.stor) || fresh(result.stor))
      invariant nodes.Contents() == forest.nodes && parents.Contents() == forest.parents
      invariant result.Contents() == forest.Before(root, round) + forest.Segment(root, round)
      invariant done == |forest.Before(root, round)| && nextDone == result.size
      decreases |forest.nodes| + 1 - round
    {
      if round > |forest.nodes| {
        forest.RoundsEnd(root, round);
        assert false;
      }
      assert result.Contents()[done..] == forest.Segment(root, round);
      Round(nodes, parents, result, done);
      done := nextDone;
      nextDone := result.size;
      round := round + 1;
    }
    assert result.Contents() == forest.Before(root, round);
  }

  /** The processes of the tree under the root, the root first. Each is there
      once exactly if, in the tree, none is listed twice and each is listed
      before its parent. */
  method FindTree(root: int, nodes: Vector, parents: Vector, result: Vector)
    requires nodes.Valid() && parents.Valid() && result.Valid() && nodes.size == parents.size
    requires result != nodes && result != parents && result.stor != nodes.stor && result.stor != parents.stor
    requires Forest(nodes.Contents(), parents.Contents()).Acyclic(root)
    modifies result, result.stor
    ensures result.Valid() && result.size > 0 && result.Contents()[0] == root
    ensures forall x ::
      x in result.Contents() <==> Forest(nodes.Contents(), parents.Contents()).InTree(root, x)
    ensures var forest := Forest(nodes.Contents(), parents.Contents());
      Distinct(result.Contents()) <==> forest.ListedOnce(root) && forest.ParentsLast(root)
  {
    ghost var forest := Forest(nodes.Contents(), parents.Contents());
    ghost var round := Search(root, nodes, parents, result);
    forest.RootIsFirst(root, round);
    forest.ResultIsTree(root, round);
    forest.FoundOnce(root, round);
  }
}
