/** The list of the children of this process, and the free list. Nodes are
    taken off the list in a signal handler, which must not free memory, so
    they wait on the free list until that is safe. */
module ChildList {

  class Node {
    var pid: nat
    var next: Node?

    constructor (pid: nat)
      ensures this.pid == pid && next == null
    {
      this.pid, next := pid, null;
    }
  }

  /** What waitpid says about one child. */
  datatype Outcome =
    | Running      // 0
    | Exited       // its pid
    | NoChild      // -1 and ECHILD
    | OtherError   // -1 and any other error

  predicate Stays(o: Outcome) { o.Running? || o.OtherError? }

  /** The nodes that stay, in their order. */
  function Staying(nodes: seq<Node>, outcomes: seq<Outcome>): seq<Node>
    requires |nodes| == |outcomes|
  {
    if nodes == [] then [] else
    var n := |nodes| - 1;
    Staying(nodes[..n], outcomes[..n]) + if Stays(outcomes[n]) then [nodes[n]] else []
  }

  /** The nodes that go, last one first. */
  function Leaving(nodes: seq<Node>, outcomes: seq<Outcome>): seq<Node>
    requires |nodes| == |outcomes|
  {
    if nodes == [] then [] else
    var n := |nodes| - 1;
    (if Stays(outcomes[n]) then [] else [nodes[n]]) + Leaving(nodes[..n], outcomes[..n])
  }

  lemma OneMore(nodes: seq<Node>, outcomes: seq<Outcome>, x: Node, o: Outcome)
    requires |outcomes| == |nodes|
    ensures Staying(nodes + [x], outcomes + [o]) == Staying(nodes, outcomes) + (if Stays(o) then [x] else [])
    ensures Leaving(nodes + [x], outcomes + [o]) == (if Stays(o) then [] else [x]) + Leaving(nodes, outcomes)
  {
    assert (nodes + [x])[..|nodes|] == nodes && (outcomes + [o])[..|nodes|] == outcomes;
  }

  /** Every node is on one of the two sides, and in its place. */
  lemma {:induction false} NoNodeLost(nodes: seq<Node>, outcomes: seq<Outcome>)
    requires |nodes| == |outcomes|
    ensures multiset(Staying(nodes, outcomes)) + multiset(Leaving(nodes, outcomes)) == multiset(nodes)
  {
    if nodes != [] {
      var n := |nodes| - 1;
      var stay, leave := Staying(nodes[..n], outcomes[..n]), Leaving(nodes[..n], outcomes[..n]);
      NoNodeLost(nodes[..n], outcomes[..n]);
      CutLast(nodes);
      AddOne(stay, leave, nodes[n]);
    }
  }

  /** A node stays exactly if its process still runs, or if waitpid(2) failed
      for another reason than that there is no such child. */
  lemma {:induction false} WhoStays(nodes: seq<Node>, outcomes: seq<Outcome>, i: nat)
    requires i < |nodes| == |outcomes| && Distinct(nodes)
    ensures nodes[i] in Staying(nodes, outcomes) <==> outcomes[i] == Running || outcomes[i] == OtherError
    ensures nodes[i] in Leaving(nodes, outcomes) <==> outcomes[i] == Exited || outcomes[i] == NoChild
  {
    var n := |nodes| - 1;
    OnOneSide(nodes[..n], outcomes[..n], nodes[n]);
    if i < n { WhoStays(nodes[..n], outcomes[..n], i); }
  }

  lemma OnOneSide(nodes: seq<Node>, outcomes: seq<Outcome>, x: Node)
    requires |nodes| == |outcomes| && x !in nodes
    ensures x !in Staying(nodes, outcomes) && x !in Leaving(nodes, outcomes)
  {
    NoNodeLost(nodes, outcomes);
    CountIn(nodes, x);
    CountIn(Staying(nodes, outcomes), x);
    CountIn(Leaving(nodes, outcomes), x);
  }

  lemma CountIn(nodes: seq<Node>, x: Node)
    ensures x in nodes <==> multiset(nodes)[x] > 0
  {
    assert x in nodes <==> x in multiset(nodes);
  }

  lemma CutLast(nodes: seq<Node>)
    requires nodes != []
    ensures multiset(nodes) == multiset(nodes[..|nodes| - 1]) + multiset{nodes[|nodes| - 1]}
  {
    assert nodes == nodes[..|nodes| - 1] + [nodes[|nodes| - 1]];
  }

  lemma AddOne(a: seq<Node>, b: seq<Node>, x: Node)
    ensures multiset(a + [x]) + multiset(b) == multiset(a) + multiset(b) + multiset{x}
    ensures multiset(a) + multiset([x] + b) == multiset(a) + multiset(b) + multiset{x}
    ensures a + [] == a && [] + b == b
  {
  }

  /** The nodes after `head` are these, and then the list ends. */
  ghost predicate Chain(head: Node, nodes: seq<Node>)
    reads head, nodes
  {
    if nodes == [] then head.next == null
    else head.next == nodes[0] && Linked(nodes) && nodes[|nodes| - 1].next == null
  }

  ghost predicate Linked(nodes: seq<Node>)
    reads nodes
  {
    forall i, j | 0 <= i < |nodes| && j == i + 1 && j < |nodes| :: nodes[i].next == nodes[j]
  }

  ghost predicate Distinct(nodes: seq<Node>) {
    forall i, j | 0 <= i < j < |nodes| :: nodes[i] != nodes[j]
  }

  /** The nodes from the last one of `kept`, or the head, on. */
  ghost predicate Tail(head: Node, kept: seq<Node>, rest: seq<Node>)
    reads head, kept, rest
  {
    && (if kept == [] then head else kept[|kept| - 1]).next == (if rest == [] then null else rest[0])
    && Linked(rest) && (rest != [] ==> rest[|rest| - 1].next == null)
  }

  lemma ChainSplit(head: Node, kept: seq<Node>, ptr: Node, rest: seq<Node>)
    requires Chain(head, kept + [ptr] + rest)
    ensures kept != [] ==> head.next == kept[0]
    ensures Linked(kept) && Tail(ptr, [], rest)
  {
    var nodes := kept + [ptr] + rest;
    assert forall i | 0 <= i < |kept| :: kept[i] == nodes[i];
    assert forall i | 0 <= i < |rest| :: rest[i] == nodes[|kept| + 1 + i];
    assert nodes[|kept|] == ptr;
  }

  lemma ChainJoin(head: Node, kept: seq<Node>, rest: seq<Node>)
    requires kept != [] ==> head.next == kept[0]
    requires Linked(kept) && Tail(head, kept, rest)
    ensures Chain(head, kept + rest)
  {
    var nodes := kept + rest;
    forall i, j | 0 <= i < |nodes| && j == i + 1 && j < |nodes|
      ensures nodes[i].next == nodes[j]
    {
      if j < |kept| { assert kept[i].next == kept[j]; }
      else if i >= |kept| { assert rest[i - |kept|].next == rest[j - |kept|]; }
    }
  }

  /** Two lists with their head nodes, and no node twice. */
  ghost predicate Separate(head: Node, freeHead: Node, children: seq<Node>, free: seq<Node>) {
    && head != freeHead
    && Distinct(children) && Distinct(free)
    && head !in children && head !in free
    && freeHead !in children && freeHead !in free
    && (forall x | x in children :: x !in free)
  }

  lemma MoveToFree(head: Node, freeHead: Node, kept: seq<Node>, ptr: Node, rest: seq<Node>, free: seq<Node>)
    requires Separate(head, freeHead, kept + [ptr] + rest, free)
    ensures Separate(head, freeHead, kept + rest, [ptr] + free)
    ensures ptr !in kept && ptr !in rest && (forall x | x in kept :: x !in rest && x !in free)
    ensures Distinct(kept)
  {
    var before := kept + [ptr] + rest;
    assert before[|kept|] == ptr && ptr in before;
    assert forall i | 0 <= i < |kept| :: before[i] == kept[i];
    assert forall i | 0 <= i < |rest| :: before[|kept| + 1 + i] == rest[i];
  }

  function FirstOf(nodes: seq<Node>): Node? { if nodes == [] then null else nodes[0] }

  function LastOf(head: Node, nodes: seq<Node>): Node { if nodes == [] then head else nodes[|nodes| - 1] }

  /** How far the handler is: the nodes it saw, those that it still has to see,
      and what became of the first ones. */
  datatype Progress = Progress(
    done: seq<Node>, todo: seq<Node>, kept: seq<Node>, gone: seq<Node>, outcomes: seq<Outcome>)
  {
    ghost predicate Valid(nodes: seq<Node>, free0: seq<Node>, children: seq<Node>, free: seq<Node>) {
      && |outcomes| == |done| && done + todo == nodes
      && kept == Staying(done, outcomes) && gone == Leaving(done, outcomes)
      && children == kept + todo && free == gone + free0
    }

    lemma First(nodes: seq<Node>, free0: seq<Node>, children: seq<Node>, free: seq<Node>, ptr: Node)
      requires Valid(nodes, free0, children, free) && todo != [] && ptr == todo[0]
      ensures children == kept + [ptr] + todo[1..] && ptr in nodes && |done| < |nodes|
    {
      assert todo == [ptr] + todo[1..];
      assert nodes[|done|] == ptr;
    }

    ghost function Next(nodes: seq<Node>, free0: seq<Node>, ptr: Node, o: Outcome): (p: Progress)
      requires |outcomes| == |done| && done + todo == nodes && todo != [] && ptr == todo[0]
      requires kept == Staying(done, outcomes) && gone == Leaving(done, outcomes)
      ensures p.Valid(nodes, free0,
        (if Stays(o) then kept + [ptr] else kept) + todo[1..], (if Stays(o) then [] else [ptr]) + (gone + free0))
      ensures p.done == done + [ptr] && p.outcomes == outcomes + [o]
      ensures p.todo == todo[1..] && p.kept == if Stays(o) then kept + [ptr] else kept
    {
      OneMore(done, outcomes, ptr, o);
      assert todo == [ptr] + todo[1..];
      Progress(
        done + [ptr], todo[1..], if Stays(o) then kept + [ptr] else kept,
        (if Stays(o) then [] else [ptr]) + gone, outcomes + [o])
    }

    lemma End(nodes: seq<Node>, free0: seq<Node>, children: seq<Node>, free: seq<Node>)
      requires Valid(nodes, free0, children, free) && todo == []
      ensures |outcomes| == |nodes|
      ensures children == Staying(nodes, outcomes) && free == Leaving(nodes, outcomes) + free0
    {
      assert done == nodes && children == kept;
    }
  }

  lemma PrefixMore(outcomes: seq<Outcome>, k: nat)
    requires k < |outcomes|
    ensures outcomes[..k + 1] == outcomes[..k] + [outcomes[k]]
  {
  }

  class Lists {
    const childList: Node      // head nodes
    const childFreeList: Node
    ghost var children: seq<Node>
    ghost var free: seq<Node>

    ghost predicate Valid()
      reads this, childList, childFreeList, children, free
    {
      Separate(childList, childFreeList, children, free) && Chain(childList, children) && Chain(childFreeList, free)
    }

    constructor ()
      ensures Valid() && children == [] && free == []
    {
      childList := new Node(0);
      childFreeList := new Node(0);
      children, free := [], [];
    }

    method FreelistAdd(ptr: Node)
      requires Chain(childFreeList, free)
      requires ptr != childFreeList && ptr !in free && childFreeList !in free
      modifies ptr`next, childFreeList`next, this`free
      ensures free == [ptr] + old(free) && Chain(childFreeList, free)
    {
      ptr.next := childFreeList.next;
      childFreeList.next := ptr;
      free := [ptr] + free;
    }

    method ChildAdd(pid: nat) returns (child: Node)
      requires Valid()
      modifies this`children, childList
      ensures Valid() && fresh(child) && child.pid == pid
      ensures children == [child] + old(children)
    {
      child := new Node(pid);
      child.next := childList.next;
      childList.next := child;
      children := [child] + children;
    }

    /** free(3): whatever was in the node is gone. */
    method Free(ptr: Node)
      modifies ptr
    {
      var junk: nat :| true;
      ptr.pid := junk;
      ptr.next := ptr;
    }

    /** From ptr on, these nodes are linked, and then the list ends. */
    ghost predicate ListFrom(ptr: Node?, rest: seq<Node>)
      reads rest
    {
      ptr == FirstOf(rest) && Linked(rest) && (rest != [] ==> rest[|rest| - 1].next == null)
    }

    /** Free one node, after its successor was read. */
    method FreeFirst(ptr: Node, ghost rest: seq<Node>) returns (next: Node?)
      requires ListFrom(ptr, rest) && rest != [] && Distinct(rest)
      modifies ptr
      ensures ListFrom(next, rest[1..]) && Distinct(rest[1..])
    {
      next := ptr.next;
      assert |rest| > 1 ==> rest[0].next == rest[1];
      Free(ptr);
      assert forall i | 0 <= i < |rest| - 1 :: rest[1..][i] == rest[i + 1];
    }

    /** Free all nodes of a list. */
    method FreeAll(first: Node?, ghost nodes: seq<Node>) returns (ghost freed: seq<Node>)
      requires ListFrom(first, nodes) && Distinct(nodes)
      modifies nodes
      ensures freed == nodes
    {
      var ptr := first;
      freed := [];
      ghost var rest := nodes;
      while ptr != null
        invariant |freed| <= |nodes| && freed == nodes[..|freed|] && rest == nodes[|freed|..]
        invariant ListFrom(ptr, rest) && Distinct(rest)
        decreases |rest|
      {
        assert ptr == nodes[|freed|];
        ghost var freeing := ptr;
        ptr := FreeFirst(ptr, rest);
        freed, rest := freed + [freeing], rest[1..];
      }
    }

    /** Free the free list. Nothing is read from a node after it was freed, and
        each node is freed once. */
    method FreelistFree() returns (ghost freed: seq<Node>)
      requires Valid()
      modifies this`free, childFreeList, free
      ensures Valid() && free == [] && freed == old(free)
    {
      ChildrenAreNot(free);
      freed := FreeAll(childFreeList.next, free);
      childFreeList.next := null;
      free := [];
    }

    lemma ChildrenAreNot(nodes: seq<Node>)
      requires forall x | x in children :: x !in nodes
      ensures forall i | 0 <= i < |children| :: children[i] !in nodes
    {
      forall i | 0 <= i < |children| ensures children[i] !in nodes {
        assert children[i] in children;
      }
    }

    lemma UnlinkFacts(prev: Node, ptr: Node, kept: seq<Node>, rest: seq<Node>)
      requires Valid() && children == kept + [ptr] + rest && prev == LastOf(childList, kept)
      ensures Separate(childList, childFreeList, kept + rest, [ptr] + free)
      ensures ptr != childList && ptr != childFreeList && ptr !in kept && ptr !in rest && ptr !in free
      ensures prev !in free && prev !in rest && prev != childFreeList && prev != ptr
      ensures CanJoin(kept, rest)
    {
      MoveToFree(childList, childFreeList, kept, ptr, rest, free);
      ChainSplit(childList, kept, ptr, rest);
      assert ptr == children[|kept|] && ptr in children;
      assert forall x | x in kept || x in rest :: x in children;
    }

    /** The kept nodes are linked from the head on, and so is the rest. */
    ghost predicate CanJoin(kept: seq<Node>, rest: seq<Node>)
      reads this, childList, kept, rest
    {
      && (kept != [] ==> childList.next == kept[0])
      && Linked(kept) && Distinct(kept) && childList !in kept
      && Linked(rest) && (rest != [] ==> rest[|rest| - 1].next == null)
    }

    /** Link the last kept node, or the head, to the rest. */
    method Bypass(prev: Node, next: Node?, ghost kept: seq<Node>, ghost rest: seq<Node>)
      requires CanJoin(kept, rest) && prev == LastOf(childList, kept) && prev !in rest && next == FirstOf(rest)
      modifies prev`next
      ensures Chain(childList, kept + rest)
    {
      assert forall i | 0 <= i < |kept| - 1 :: kept[i] != prev;
      prev.next := next;
      ChainJoin(childList, kept, rest);
    }

    /** Move ptr to the free list. The list is cut in two until the node
        before it is linked to the next one. */
    method Unlink(prev: Node, ptr: Node, next: Node?, ghost kept: seq<Node>, ghost rest: seq<Node>)
      requires Valid() && children == kept + [ptr] + rest
      requires prev == LastOf(childList, kept) && next == FirstOf(rest)
      modifies this`children, this`free, prev`next, ptr`next, childFreeList`next
      ensures Valid() && children == kept + rest && free == [ptr] + old(free)
    {
      UnlinkFacts(prev, ptr, kept, rest);
      FreelistAdd(ptr);
      Bypass(prev, next, kept, rest);
      children := kept + rest;
    }

    /** One turn of the loop of the handler: node ptr stays or leaves, as
        waitpid(2) says of its process. */
    method Visit(prev: Node, ptr: Node, o: Outcome, ghost kept: seq<Node>, ghost rest: seq<Node>)
      returns (prev': Node, next: Node?)
      requires Valid() && children == kept + [ptr] + rest
      requires prev == LastOf(childList, kept)
      modifies this`children, this`free, prev`next, ptr`next, childFreeList`next
      ensures Valid()
      ensures next == FirstOf(rest)
      ensures children == (if Stays(o) then kept + [ptr] else kept) + rest
      ensures free == (if Stays(o) then [] else [ptr]) + old(free)
      ensures prev' == if Stays(o) then ptr else prev
    {
      next := ptr.next;
      assert ptr == children[|kept|];
      assert rest != [] ==> rest[0] == children[|kept| + 1];
      if Stays(o) {
        prev' := ptr;
      } else {
        Unlink(prev, ptr, next, kept, rest);
        prev' := prev;
      }
    }

    /** What the handler knows between two turns of its loop. */
    ghost predicate InLoop(
      prev: Node, ptr: Node?, calls: nat, p: Progress, all: seq<Outcome>, nodes: seq<Node>, free0: seq<Node>)
      reads this, childList, childFreeList, children, free
    {
      && Valid() && p.Valid(nodes, free0, children, free)
      && ptr == FirstOf(p.todo) && prev == LastOf(childList, p.kept)
      && (prev == childList || prev in nodes) && (ptr != null ==> ptr in nodes)
      && |all| == |nodes| && calls == |p.outcomes| <= |all| && p.outcomes == all[..calls]
    }

    /** One turn of the loop. */
    method Turn(
      prev: Node, ptr: Node, calls: nat, ghost p: Progress, all: seq<Outcome>,
      ghost nodes: seq<Node>, ghost free0: seq<Node>)
      returns (prev': Node, ptr': Node?, ghost p': Progress)
      requires InLoop(prev, ptr, calls, p, all, nodes, free0) && calls < |all|
      modifies this`children, this`free, prev`next, ptr`next, childFreeList`next
      ensures InLoop(prev', ptr', calls + 1, p', all, nodes, free0) && |p'.todo| < |p.todo|
    {
      var o := all[calls];
      p.First(nodes, free0, children, free, ptr);
      PrefixMore(all, calls);
      prev', ptr' := Visit(prev, ptr, o, p.kept, p.todo[1..]);
      p' := p.Next(nodes, free0, ptr, o);
      if ptr' != null { p'.First(nodes, free0, children, free, ptr'); }
    }

    lemma CallsLeft(
      prev: Node, ptr: Node, calls: nat, p: Progress, all: seq<Outcome>, nodes: seq<Node>, free0: seq<Node>)
      requires InLoop(prev, ptr, calls, p, all, nodes, free0)
      ensures calls < |all|
    {
      p.First(nodes, free0, children, free, ptr);
    }

    lemma LoopStarts(all: seq<Outcome>)
      requires Valid() && |all| == |children|
      ensures InLoop(childList, childList.next, 0, Progress([], children, [], [], []), all, children, free)
    {
      if children != [] { assert children[0] in children; }
    }

    lemma LoopEnds(prev: Node, calls: nat, p: Progress, all: seq<Outcome>, nodes: seq<Node>, free0: seq<Node>)
      requires InLoop(prev, null, calls, p, all, nodes, free0)
      ensures children == Staying(nodes, all) && free == Leaving(nodes, all) + free0
    {
      p.End(nodes, free0, children, free);
      assert all[..calls] == all;
    }

    /** The handler of SIGCHLD. It goes through the whole list, and takes the
        next node from a node before that goes to the free list. `outcomes` is
        what waitpid(2) says, call by call. */
    method SigchldCallback(outcomes: seq<Outcome>)
      requires Valid() && |outcomes| == |children|
      modifies this`children, this`free, childList`next, childFreeList`next, children`next
      ensures Valid()
      ensures children == Staying(old(children), outcomes)
      ensures free == Leaving(old(children), outcomes) + old(free)
      ensures forall i | 0 <= i < |outcomes| ::
        && (old(children)[i] in children <==> outcomes[i] == Running || outcomes[i] == OtherError)
        && (old(children)[i] in free <==> outcomes[i] == Exited || outcomes[i] == NoChild)
    {
      ghost var p := Progress([], children, [], [], []);
      var ptr, prev, calls := childList.next, childList, 0;
      LoopStarts(outcomes);
      while ptr != null
        invariant InLoop(prev, ptr, calls, p, outcomes, old(children), old(free))
        decreases |p.todo|
      {
        CallsLeft(prev, ptr, calls, p, outcomes, old(children), old(free));
        prev, ptr, p := Turn(prev, ptr, calls, p, outcomes, old(children), old(free));
        calls := calls + 1;
      }
      LoopEnds(prev, calls, p, outcomes, old(children), old(free));
      forall i | 0 <= i < |outcomes|
        ensures old(children)[i] in children <==> outcomes[i] == Running || outcomes[i] == OtherError
        ensures old(children)[i] in free <==> outcomes[i] == Exited || outcomes[i] == NoChild
      {
        WhoStays(old(children), outcomes, i);
        assert old(children)[i] in old(children);
      }
    }
  }
}
