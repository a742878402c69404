/** Exit handlers for C code that R errors can jump out of. Every cleanup
    context has a stack of handlers, with a free slot on top that is allocated
    before it is needed. */
module Cleancall {

  /** An early handler is only for a context that fails. */
  datatype Handler = Handler(id: int, early: bool)

  datatype Slot = Free | Taken(handler: Handler)

  class Stack {
    var slots: seq<Slot>    // the top first

    constructor ()
      ensures slots == []
    {
      slots := [];
    }
  }

  /** Code that runs in a context. `alloc`: the allocations that it needs work,
      otherwise they jump. */
  datatype Code =
    | Return
    | Jump
    | Save(handler: Handler, alloc: bool, rest: Code)           // r_call_on_exit, r_call_on_early_exit
    | Nest(inner: Code, alloc: bool, rest: Code)                // r_with_cleanup_context
    | Try(body: Code, rest: Code)                               // a jump out of the body is caught

  // ----- What it does -----

  /** How code ends, what is on the stack then, and which handlers of inner
      contexts ran. `full`: the top slot is taken. */
  datatype Outcome = Outcome(ok: bool, saved: seq<Handler>, full: bool, ran: seq<int>)

  /** The handlers that run at the end of a context. */
  function Fired(saved: seq<Handler>, ok: bool): seq<int> {
    if saved == [] then []
    else (if !saved[0].early || !ok then [saved[0].id] else []) + Fired(saved[1..], ok)
  }

  ghost function Exec(c: Code, saved: seq<Handler>, full: bool): (r: Outcome)
    requires full ==> saved != []
    ensures r.full ==> r.saved != []
  {
    match c
    case Return => Outcome(true, saved, full, [])
    case Jump => Outcome(false, saved, full, [])
    case Save(h, alloc, rest) =>
      var now := [h] + if full then saved[1..] else saved;
      if alloc then Exec(rest, now, false) else Outcome(false, now, true, [])
    case Nest(inner, alloc, rest) =>
      if !alloc then Outcome(false, saved, full, []) else
      var context := Exec(inner, [], false);
      var ran := context.ran + Fired(context.saved, context.ok);
      if !context.ok then Outcome(false, saved, full, ran) else
      var more := Exec(rest, saved, full);
      more.(ran := ran + more.ran)
    case Try(body, rest) =>
      var first := Exec(body, saved, full);
      var more := Exec(rest, first.saved, first.full);
      more.(ran := first.ran + more.ran)
  }

  // ----- How it does it -----

  function SlotsOf(saved: seq<Handler>, full: bool): (r: seq<Slot>)
    ensures |r| == |saved| + if full then 0 else 1
  {
    (if full then [] else [Free]) + seq(|saved|, i requires 0 <= i < |saved| => Taken(saved[i]))
  }

  function FiredSlots(slots: seq<Slot>, ok: bool): seq<int> {
    if slots == [] then []
    else
      (if slots[0].Taken? && (!slots[0].handler.early || !ok) then [slots[0].handler.id] else [])
        + FiredSlots(slots[1..], ok)
  }

  lemma {:induction false} FiredSlotsAre(saved: seq<Handler>, full: bool, ok: bool)
    ensures FiredSlots(SlotsOf(saved, full), ok) == Fired(saved, ok)
  {
    FiredSlotsTaken(saved, ok);
    if !full { assert SlotsOf(saved, false)[1..] == SlotsOf(saved, true); }
  }

  lemma {:induction false} FiredSlotsTaken(saved: seq<Handler>, ok: bool)
    ensures FiredSlots(SlotsOf(saved, true), ok) == Fired(saved, ok)
  {
    if saved != [] {
      assert SlotsOf(saved, true)[1..] == SlotsOf(saved[1..], true);
      FiredSlotsTaken(saved[1..], ok);
    }
  }

  lemma Regroup(a: seq<int>, b: seq<int>, c: seq<int>)
    ensures a + b + c == a + (b + c)
  {
  }

  class Session {
    var callbacks: Stack?
    var entered: bool       // there was a context before
    var ran: seq<int>

    constructor ()
      ensures callbacks == null && !entered && ran == []
    {
      callbacks, entered, ran := null, false, [];
    }

    /** Allocate the next slot. */
    method PushCallback(stack: Stack, alloc: bool) returns (ok: bool)
      modifies stack
      ensures ok == alloc && stack.slots == if ok then [Free] + old(stack.slots) else old(stack.slots)
    {
      ok := alloc;
      if ok {
        stack.slots := [Free] + stack.slots;
      }
    }

    /** Before any context the handler runs at once, and that is an error. */
    method CallSaveHandler(h: Handler, alloc: bool, ghost saved: seq<Handler>, ghost full: bool) returns (ok: bool)
      requires callbacks == null ==> !entered
      requires callbacks != null ==> callbacks.slots == SlotsOf(saved, full) && (full ==> saved != [])
      modifies `ran, callbacks
      ensures ok <==> alloc && callbacks != null
      ensures callbacks != null ==> callbacks.slots == SlotsOf([h] + if full then saved[1..] else saved, !ok)
      ensures ran == old(ran) + if callbacks == null then [h.id] else []
    {
      if callbacks == null {
        ran := ran + [h.id];
        return false;
      }
      callbacks.slots := callbacks.slots[0 := Taken(h)];
      ghost var now := [h] + if full then saved[1..] else saved;
      assert callbacks.slots == SlotsOf(now, true);
      ok := PushCallback(callbacks, alloc);
      assert [Free] + SlotsOf(now, true) == SlotsOf(now, false);
    }

    /** The context ends: restore the outer stack, and run the handlers. */
    method CallExits(outer: Stack?, success: bool, ghost saved: seq<Handler>, ghost full: bool)
      requires callbacks != null && callbacks.slots == SlotsOf(saved, full)
      modifies this
      ensures callbacks == outer && entered == old(entered) && ran == old(ran) + Fired(saved, success)
    {
      var top := callbacks.slots;
      callbacks := outer;
      FiredSlotsAre(saved, full, success);
      while top != []
        invariant callbacks == outer && entered == old(entered)
        invariant ran + FiredSlots(top, success) == old(ran) + Fired(saved, success)
        decreases |top|
      {
        var cb := top[0];
        top := top[1..];
        if cb.Taken? {
          if !cb.handler.early || !success {
            Regroup(ran, [cb.handler.id], FiredSlots(top, success));
            ran := ran + [cb.handler.id];
          }
        }
      }
    }

    /** Run code in a new context. The stack of the outer one is as before. */
    method WithCleanupContext(c: Code, alloc: bool) returns (ok: bool)
      modifies this
      ensures callbacks == old(callbacks) && entered == (old(entered) || alloc)
      ensures var e := Exec(c, [], false);
        && ok == (alloc && e.ok)
        && ran == if alloc then old(ran) + (e.ran + Fired(e.saved, e.ok)) else old(ran)
      decreases c, 1
    {
      if !alloc {
        return false;
      }
      var new_ := new Stack();
      var _ := PushCallback(new_, true);
      var old_ := callbacks;
      callbacks, entered := new_, true;
      assert new_.slots == SlotsOf([], false);
      ok := Run(c, [], false);
      ghost var e := Exec(c, [], false);
      CallExits(old_, ok, e.saved, e.full);
    }

    /** Run code on the stack of the current context. */
    method Run(c: Code, ghost saved: seq<Handler>, ghost full: bool) returns (ok: bool)
      requires callbacks != null && callbacks.slots == SlotsOf(saved, full) && (full ==> saved != [])
      modifies this, callbacks
      ensures callbacks == old(callbacks) && (old(entered) ==> entered)
      ensures var e := Exec(c, saved, full);
        && ok == e.ok && callbacks.slots == SlotsOf(e.saved, e.full)
        && ran == old(ran) + e.ran
      decreases c, 0
    {
      match c {
        case Return =>
          ok := true;
        case Jump =>
          ok := false;
        case Save(h, alloc, rest) =>
          ok := CallSaveHandler(h, alloc, saved, full);
          if ok {
            ok := Run(rest, [h] + if full then saved[1..] else saved, false);
          }
        case Nest(inner, alloc, rest) =>
          ghost var e := Exec(inner, [], false);
          ok := WithCleanupContext(inner, alloc);
          if ok {
            Regroup(old(ran), e.ran + Fired(e.saved, e.ok), Exec(rest, saved, full).ran);
            ok := Run(rest, saved, full);
          }
        case Try(body, rest) =>
          ghost var first := Exec(body, saved, full);
          var _ := Run(body, saved, full);
          Regroup(old(ran), first.ran, Exec(rest, first.saved, first.full).ran);
          ok := Run(rest, first.saved, first.full);
      }
    }
  }

  // ----- Who runs -----

  /** A call of call_save_handler, and whether it could allocate the next slot. */
  datatype Call = Call(handler: Handler, alloc: bool)

  /** The handlers that the code saves in its own context, in order. */
  ghost function Saves(c: Code): seq<Call> {
    match c
    case Return => []
    case Jump => []
    case Save(h, alloc, rest) => [Call(h, alloc)] + if alloc then Saves(rest) else []
    case Nest(inner, alloc, rest) => if alloc && Exec(inner, [], false).ok then Saves(rest) else []
    case Try(body, rest) => Saves(body) + Saves(rest)
  }

  /** A handler is overwritten if its call could not allocate the next slot, and
      there was another call all the same. */
  predicate Overwritten(calls: seq<Call>, i: nat)
    requires i < |calls|
  {
    !calls[i].alloc && i < |calls| - 1
  }

  /** Handlers that are not overwritten, newest first. */
  function Lasting(calls: seq<Call>): seq<Handler> {
    if calls == [] then []
    else Lasting(calls[1..]) + if Overwritten(calls, 0) then [] else [calls[0].handler]
  }

  ghost predicate TopIsTaken(calls: seq<Call>) { calls != [] && !calls[|calls| - 1].alloc }

  lemma {:induction false} LastingMore(calls: seq<Call>, x: Call)
    ensures calls != [] ==> Lasting(calls) != []
    ensures Lasting(calls + [x]) ==
      [x.handler] + if TopIsTaken(calls) then Lasting(calls)[1..] else Lasting(calls)
  {
    if calls == [] {
      assert calls + [x] == [x] && [x][1..] == [];
    } else {
      assert (calls + [x])[1..] == calls[1..] + [x];
      LastingMore(calls[1..], x);
      if |calls| > 1 {
        assert TopIsTaken(calls[1..]) == TopIsTaken(calls);
        var first := if Overwritten(calls, 0) then [] else [calls[0].handler];
        assert Lasting(calls)[1..] == Lasting(calls[1..])[1..] + first;
      } else {
        assert calls[1..] == [];
      }
    }
  }

  /** The stack holds what was saved and not overwritten. */
  lemma {:induction false} StackIsLasting(c: Code, before: seq<Call>)
    ensures TopIsTaken(before) ==> Lasting(before) != []
    ensures var e := Exec(c, Lasting(before), TopIsTaken(before));
      e.saved == Lasting(before + Saves(c)) && e.full == TopIsTaken(before + Saves(c))
  {
    LastingMore(before, Call(Handler(0, false), true));
    match c {
      case Return =>
        assert before + [] == before;
      case Jump =>
        assert before + [] == before;
      case Save(h, alloc, rest) =>
        LastingMore(before, Call(h, alloc));
        var now := before + [Call(h, alloc)];
        if alloc {
          StackIsLasting(rest, now);
          assert before + Saves(c) == now + Saves(rest);
        } else {
          assert before + Saves(c) == now;
        }
      case Nest(inner, alloc, rest) =>
        if alloc && Exec(inner, [], false).ok {
          StackIsLasting(rest, before);
        } else {
          assert before + [] == before;
        }
      case Try(body, rest) =>
        StackIsLasting(body, before);
        StackIsLasting(rest, before + Saves(body));
        assert before + Saves(c) == before + Saves(body) + Saves(rest);
    }
  }

  /** The handlers at these places are those that run, in order. */
  ghost predicate Picks(saved: seq<Handler>, ok: bool, at: seq<nat>, runs: seq<int>) {
    AreOf(saved, at, runs) && InOrder(at) && AreAll(saved, ok, at)
  }

  ghost predicate AreOf(saved: seq<Handler>, at: seq<nat>, runs: seq<int>) {
    |at| == |runs| && forall j | 0 <= j < |at| :: at[j] < |saved| && runs[j] == saved[at[j]].id
  }

  ghost predicate InOrder(at: seq<nat>) { forall i, j | 0 <= i < j < |at| :: at[i] < at[j] }

  ghost predicate AreAll(saved: seq<Handler>, ok: bool, at: seq<nat>) {
    forall i | 0 <= i < |saved| :: i in at <==> !saved[i].early || !ok
  }

  function Shifted(at: seq<nat>): (r: seq<nat>)
    ensures |r| == |at| && forall j | 0 <= j < |at| :: r[j] == at[j] + 1
  {
    seq(|at|, j requires 0 <= j < |at| => at[j] + 1)
  }

  lemma ShiftedAre(at: seq<nat>, n: nat)
    ensures 0 !in Shifted(at)
    ensures forall i | 1 <= i <= n :: i in Shifted(at) <==> i - 1 in at
  {
    forall i | 1 <= i <= n ensures i in Shifted(at) <==> i - 1 in at {
      if i - 1 in at {
        var j :| 0 <= j < |at| && at[j] == i - 1;
        assert Shifted(at)[j] == i;
      }
    }
  }

  lemma IsIn(i: nat, s: seq<nat>)
    ensures i in [0] + s <==> i == 0 || i in s
  {
  }

  lemma AllWithFirst(saved: seq<Handler>, ok: bool, at: seq<nat>)
    requires saved != [] && AreAll(saved[1..], ok, at) && (!saved[0].early || !ok)
    ensures AreAll(saved, ok, [0] + Shifted(at))
  {
    ShiftedAre(at, |saved|);
    forall i | 0 <= i < |saved| ensures i in [0] + Shifted(at) <==> !saved[i].early || !ok {
      IsIn(i, Shifted(at));
      if i > 0 { assert saved[1..][i - 1] == saved[i]; }
    }
  }

  lemma InOrderWithFirst(at: seq<nat>)
    requires InOrder(at)
    ensures InOrder([0] + Shifted(at))
  {
  }

  lemma OfWithFirst(saved: seq<Handler>, at: seq<nat>, runs: seq<int>)
    requires saved != [] && AreOf(saved[1..], at, runs)
    ensures AreOf(saved, [0] + Shifted(at), [saved[0].id] + runs)
  {
  }

  lemma OfRest(saved: seq<Handler>, at: seq<nat>, runs: seq<int>)
    requires saved != [] && AreOf(saved[1..], at, runs)
    ensures AreOf(saved, Shifted(at), runs)
  {
  }

  lemma AllOfRest(saved: seq<Handler>, ok: bool, at: seq<nat>)
    requires saved != [] && AreAll(saved[1..], ok, at) && saved[0].early && ok
    ensures AreAll(saved, ok, Shifted(at))
  {
    ShiftedAre(at, |saved|);
    forall i | 0 <= i < |saved| ensures i in Shifted(at) <==> !saved[i].early || !ok {
      if i > 0 { assert saved[1..][i - 1] == saved[i]; }
    }
  }

  lemma {:induction false} FiredAre(saved: seq<Handler>, ok: bool) returns (at: seq<nat>)
    ensures Picks(saved, ok, at, Fired(saved, ok))
  {
    if saved == [] {
      at := [];
    } else {
      var rest := FiredAre(saved[1..], ok);
      if !saved[0].early || !ok {
        OfWithFirst(saved, rest, Fired(saved[1..], ok));
        InOrderWithFirst(rest);
        AllWithFirst(saved, ok, rest);
        at := [0] + Shifted(rest);
      } else {
        OfRest(saved, rest, Fired(saved[1..], ok));
        AllOfRest(saved, ok, rest);
        at := Shifted(rest);
        assert [] + Fired(saved[1..], ok) == Fired(saved[1..], ok);
      }
    }
  }

  /** The end of a context runs, newest first, every handler that was not
      overwritten: an early one exactly if the code failed. */
  lemma WhoRuns(c: Code) returns (at: seq<nat>)
    ensures var e := Exec(c, [], false);
      var handlers, runs := Lasting(Saves(c)), Fired(e.saved, e.ok);
      && |at| == |runs|
      && (forall j | 0 <= j < |at| :: at[j] < |handlers| && runs[j] == handlers[at[j]].id)
      && (forall i, j | 0 <= i < j < |at| :: at[i] < at[j])
      && (forall i | 0 <= i < |handlers| :: i in at <==> !handlers[i].early || !e.ok)
  {
    StackIsLasting(c, []);
    assert [] + Saves(c) == Saves(c);
    at := FiredAre(Lasting(Saves(c)), Exec(c, [], false).ok);
    assert Picks(Lasting(Saves(c)), Exec(c, [], false).ok, at, Fired(Lasting(Saves(c)), Exec(c, [], false).ok));
  }

  /** Code fails exactly if it jumps, or needs an allocation that does not work,
      in a place that it gets to and where that is not caught. */
  predicate Fails(c: Code) {
    match c
    case Return => false
    case Jump => true
    case Save(_, alloc, rest) => !alloc || Fails(rest)
    case Nest(inner, alloc, rest) => !alloc || Fails(inner) || Fails(rest)
    case Try(_, rest) => Fails(rest)
  }

  lemma {:induction false} WhoFails(c: Code, saved: seq<Handler>, full: bool)
    requires full ==> saved != []
    ensures Exec(c, saved, full).ok <==> !Fails(c)
  {
    match c
    case Return =>
    case Jump =>
    case Save(h, alloc, rest) => if alloc { WhoFails(rest, [h] + if full then saved[1..] else saved, false); }
    case Nest(inner, alloc, rest) =>
      WhoFails(inner, [], false);
      WhoFails(rest, saved, full);
    case Try(body, rest) =>
      WhoFails(rest, Exec(body, saved, full).saved, Exec(body, saved, full).full);
  }

  /** The handlers of the calls, newest first. */
  function Newest(calls: seq<Call>): seq<Handler> {
    if calls == [] then [] else Newest(calls[1..]) + [calls[0].handler]
  }

  lemma {:induction false} LastingLength(calls: seq<Call>)
    ensures |Lasting(calls)| <= |calls| == |Newest(calls)|
    ensures |Lasting(calls)| == |calls| ==> Lasting(calls) == Newest(calls)
  {
    if calls != [] { LastingLength(calls[1..]); }
  }

  lemma {:induction false} SomeAreLost(calls: seq<Call>, i: nat)
    requires i < |calls| && Overwritten(calls, i)
    ensures |Lasting(calls)| < |calls|
  {
    LastingLength(calls[1..]);
    if i > 0 { SomeAreLost(calls[1..], i - 1); }
  }

  lemma {:induction false} AllLast(calls: seq<Call>)
    requires forall i | 0 <= i < |calls| :: !Overwritten(calls, i)
    ensures |Lasting(calls)| == |calls|
  {
    if calls != [] {
      assert forall i | 0 <= i < |calls[1..]| :: Overwritten(calls[1..], i) == Overwritten(calls, i + 1);
      AllLast(calls[1..]);
    }
  }

  /** All handlers last exactly if no call went on after one whose allocation
      failed. */
  lemma NoneIsLost(calls: seq<Call>)
    ensures Lasting(calls) == Newest(calls) <==> forall i | 0 <= i < |calls| :: !Overwritten(calls, i)
  {
    LastingLength(calls);
    if i :| 0 <= i < |calls| && Overwritten(calls, i) {
      SomeAreLost(calls, i);
    } else {
      AllLast(calls);
    }
  }

  /** Without catching jumps in the same context, no handler is lost: whatever
      happens, all that were saved run once, except for early ones if the code
      succeeds. */
  predicate CatchesNothing(c: Code) {
    match c
    case Return => true
    case Jump => true
    case Save(_, _, rest) => CatchesNothing(rest)
    case Nest(_, _, rest) => CatchesNothing(rest)
    case Try(_, _) => false
  }

  lemma {:induction false} JumpIsLast(c: Code)
    requires CatchesNothing(c)
    ensures forall i | 0 <= i < |Saves(c)| :: !Overwritten(Saves(c), i)
  {
    match c
    case Save(h, alloc, rest) =>
      JumpIsLast(rest);
      if alloc {
        assert forall i | 1 <= i < |Saves(c)| :: Overwritten(Saves(c), i) == Overwritten(Saves(rest), i - 1);
      }
    case Nest(_, _, rest) => JumpIsLast(rest);
    case _ =>
  }

  lemma AllRun(c: Code) returns (at: seq<nat>)
    requires CatchesNothing(c)
    ensures var e := Exec(c, [], false);
      var handlers, runs := Newest(Saves(c)), Fired(e.saved, e.ok);
      && |at| == |runs|
      && (forall j | 0 <= j < |at| :: at[j] < |handlers| && runs[j] == handlers[at[j]].id)
      && (forall i, j | 0 <= i < j < |at| :: at[i] < at[j])
      && (forall i | 0 <= i < |handlers| :: i in at <==> !handlers[i].early || !e.ok)
  {
    JumpIsLast(c);
    NoneIsLost(Saves(c));
    at := WhoRuns(c);
  }

  /** A handler that is lost: the allocation after it fails, that is caught, and
      the next handler goes to the same slot. */
  lemma LostHandler()
    ensures var c := Try(Save(Handler(1, false), false, Return), Save(Handler(2, false), true, Return));
      var e := Exec(c, [], false);
      e.ok && Saves(c) == [Call(Handler(1, false), false), Call(Handler(2, false), true)] && Fired(e.saved, e.ok) == [2]
  {
    var body := Save(Handler(1, false), false, Return);
    assert Exec(body, [], false) == Outcome(false, [Handler(1, false)], true, []);
    assert Fired([Handler(2, false)], true) == [2] + Fired([], true);
  }
}
