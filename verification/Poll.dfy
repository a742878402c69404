/** Polling processes, connections and curl handles together (Unix). */
module Poll {
  import opened Common

  datatype Event = NoPipe | Ready | Timeout | Closed | Silent | CurlEvent | Connect

  /** What the pre-poll function of a pollable says: its event is known
      already, or there are descriptors to poll. */
  datatype PrePoll =
    | Known(event: Event)                                             // NoPipe, Ready, Closed or Silent
    | Handle(fd: int)
    | Select(reading: seq<int>, writing: seq<int>, both: seq<int>)

  predicate Usable(p: PrePoll) {
    p.Known? ==> p.event in {NoPipe, Ready, Closed, Silent}
  }

  /** A slot of the array of pollables. `listening`: its object is a server
      socket. No pre-poll function: None. */
  datatype Pollable = Pollable(prePoll: Option<PrePoll>, listening: bool, event: Event)

  datatype Flag = In | Out | Hup | Err | Nval

  /** An entry of the array for poll(2), with the pollable it belongs to. */
  datatype PollFd = PollFd(fd: int, events: set<Flag>, owner: nat, revents: set<Flag>)

  // ----- What is polled -----

  function Events(p: Pollable): PrePoll {
    if p.prePoll.None? then Known(Silent) else p.prePoll.value
  }

  function Entries(fds: seq<int>, events: set<Flag>, owner: nat): (r: seq<PollFd>)
    ensures |r| == |fds|
  {
    seq(|fds|, k requires 0 <= k < |fds| => PollFd(fds[k], events, owner, {}))
  }

  function Size(p: Pollable): nat {
    match Events(p)
    case Known(_) => 0
    case Handle(_) => 1
    case Select(r, w, b) => |r| + |w| + |b|
  }

  /** The entries of one pollable. */
  function FdsOf(p: Pollable, owner: nat): (r: seq<PollFd>)
    ensures |r| == Size(p)
  {
    match Events(p)
    case Known(_) => []
    case Handle(fd) => [PollFd(fd, {In}, owner, {})]
    case Select(r, w, b) => Entries(r, {In}, owner) + Entries(w, {Out}, owner) + Entries(b, {In, Out}, owner)
  }

  /** Where the entries of pollable q begin. */
  function Offset(ps: seq<Pollable>, q: nat): nat
    requires q <= |ps|
  {
    if q == 0 then 0 else Offset(ps, q - 1) + Size(ps[q - 1])
  }

  /** The entries of the first n pollables. */
  function AllFds(ps: seq<Pollable>, n: nat): (r: seq<PollFd>)
    requires n <= |ps|
    ensures |r| == Offset(ps, n)
  {
    if n == 0 then [] else AllFds(ps, n - 1) + FdsOf(ps[n - 1], n - 1)
  }

  lemma {:induction false} OffsetGrows(ps: seq<Pollable>, q: nat, n: nat)
    requires q <= n <= |ps|
    ensures Offset(ps, q) <= Offset(ps, n)
  {
    if q < n { OffsetGrows(ps, q, n - 1); }
  }

  lemma Pick(a: seq<PollFd>, b: seq<PollFd>, x: nat)
    requires x < |a| + |b|
    ensures (a + b)[x] == if x < |a| then a[x] else b[x - |a|]
  {
  }

  /** Entry x is of the pollable that it names. */
  ghost predicate Owned(ps: seq<Pollable>, x: nat, e: PollFd) {
    e.owner < |ps| && Offset(ps, e.owner) <= x < Offset(ps, e.owner + 1) && e.revents == {}
  }

  lemma {:induction false} OwnerOf(ps: seq<Pollable>, n: nat, x: nat)
    requires n <= |ps| && x < Offset(ps, n)
    ensures Owned(ps, x, AllFds(ps, n)[x])
  {
    var m := n - 1;
    var a, b := AllFds(ps, m), FdsOf(ps[m], m);
    assert AllFds(ps, n) == a + b;
    Pick(a, b, x);
    if x < Offset(ps, m) {
      OwnerOf(ps, m, x);
    } else {
      EntryOwner(ps[m], m, x - Offset(ps, m));
      assert b[x - |a|].owner == m;
    }
  }

  lemma EntryOwner(p: Pollable, owner: nat, k: nat)
    requires k < Size(p)
    ensures FdsOf(p, owner)[k].owner == owner && FdsOf(p, owner)[k].revents == {}
  {
  }

  // ----- What it means -----

  function Decode(revents: set<Flag>): Event {
    if Nval in revents then Closed
    else if In in revents || Hup in revents || Out in revents then Ready
    else Silent
  }

  predicate Stirred(revents: set<Flag>) { revents * {Nval, In, Hup, Out} != {} }

  /** The event of a pollable, from the answers seen so far for its entries. */
  ghost function Seen(p: Pollable, answers: seq<set<Flag>>): Event {
    match Events(p)
    case Known(e) => e
    case Handle(_) =>
      if answers == [] then Silent
      else if Decode(answers[0]) == Ready && p.listening then Connect
      else Decode(answers[0])
    case Select(_, _, _) =>
      if exists k | 0 <= k < |answers| :: Stirred(answers[k]) then CurlEvent else Silent
  }

  predicate HasData(e: Event) { e.Ready? || e.Connect? }

  function Count(ps: seq<Pollable>, n: nat): nat
    requires n <= |ps|
  {
    if n == 0 then 0 else Count(ps, n - 1) + if HasData(ps[n - 1].event) then 1 else 0
  }

  /** Ready before polling. */
  function ReadyNow(ps: seq<Pollable>, n: nat): nat
    requires n <= |ps|
  {
    if n == 0 then 0 else ReadyNow(ps, n - 1) + if Events(ps[n - 1]) == Known(Ready) then 1 else 0
  }

  /** The answers from one position to another, among the first i. */
  ghost function Part(answers: seq<set<Flag>>, from: nat, to: nat, i: nat): seq<set<Flag>>
    requires from <= to && i <= |answers|
  {
    if i <= from then [] else if i <= to then answers[from..i] else answers[from..to]
  }

  lemma PartNext(answers: seq<set<Flag>>, from: nat, to: nat, i: nat)
    requires from <= i < to && i < |answers|
    ensures Part(answers, from, to, i + 1) == Part(answers, from, to, i) + [answers[i]]
  {
    assert answers[from..i + 1] == answers[from..i] + [answers[i]];
  }

  /** The answers for the entries of pollable q among the first i. */
  ghost function Mine(ps: seq<Pollable>, q: nat, answers: seq<set<Flag>>, i: nat): seq<set<Flag>>
    requires q < |ps| && i <= |answers|
  {
    Part(answers, Offset(ps, q), Offset(ps, q + 1), i)
  }

  ghost predicate AllQuiet(answers: seq<set<Flag>>) { forall k | 0 <= k < |answers| :: answers[k] == {} }

  /** The poll timed out: it had something to wait for, nothing was ready before,
      and nothing happened. */
  ghost predicate TimedOut(ps: seq<Pollable>, answers: seq<set<Flag>>) {
    answers != [] && AllQuiet(answers) && ReadyNow(ps, |ps|) == 0
  }

  ghost function Final(ps: seq<Pollable>, q: nat, answers: seq<set<Flag>>): Event
    requires q < |ps|
  {
    if TimedOut(ps, answers) && Size(ps[q]) > 0 then Timeout
    else Seen(ps[q], Mine(ps, q, answers, |answers|))
  }

  /** What a poll makes of the pollables, given an answer for each entry. */
  ghost function Polled(ps: seq<Pollable>, answers: seq<set<Flag>>): (r: seq<Pollable>)
    ensures |r| == |ps|
  {
    seq(|ps|, q requires 0 <= q < |ps| => ps[q].(event := Final(ps, q, answers)))
  }

  // ----- Properties of the result -----

  ghost predicate AllUsable(ps: seq<Pollable>) { forall q | 0 <= q < |ps| :: Usable(Events(ps[q])) }

  /** Somebody timed out only if all that were polled did, and nobody has
      anything. */
  lemma TimeoutIsForAll(ps: seq<Pollable>, answers: seq<set<Flag>>, t: nat)
    requires AllUsable(ps) && t < |ps| && Final(ps, t, answers) == Timeout
    ensures forall q | 0 <= q < |ps| ::
      var e := Final(ps, q, answers);
      && (e == Timeout <==> Size(ps[q]) > 0)
      && e !in {Ready, Connect, CurlEvent}
  {
    assert Usable(Events(ps[t]));
    forall q | 0 <= q < |ps|
      ensures Final(ps, q, answers) == Timeout <==> Size(ps[q]) > 0
      ensures Final(ps, q, answers) !in {Ready, Connect, CurlEvent}
    {
      assert Usable(Events(ps[q]));
      if Size(ps[q]) == 0 {
        NotReadyNow(ps, |ps|, q);
      }
    }
  }

  lemma {:induction false} NotReadyNow(ps: seq<Pollable>, n: nat, q: nat)
    requires q < n <= |ps| && ReadyNow(ps, n) == 0
    ensures Events(ps[q]) != Known(Ready)
  {
    if q < n - 1 { NotReadyNow(ps, n - 1, q); }
  }

  lemma {:induction false} CountOfUpdate(ps: seq<Pollable>, q: nat, p: Pollable, n: nat)
    requires q < |ps| && n <= |ps|
    ensures Count(ps[q := p], n) == Count(ps, n) +
      if q >= n || HasData(p.event) == HasData(ps[q].event) then 0 else if HasData(p.event) then 1 else -1
  {
    if n > 0 { CountOfUpdate(ps, q, p, n - 1); }
  }

  /** Entry x is one of those of the pollable that it names. */
  ghost predicate IsEntry(ps: seq<Pollable>, x: nat, e: PollFd) {
    && e.owner < |ps| && Offset(ps, e.owner) <= x < Offset(ps, e.owner) + Size(ps[e.owner])
    && e == FdsOf(ps[e.owner], e.owner)[x - Offset(ps, e.owner)]
  }

  lemma {:induction false} EntryIn(ps: seq<Pollable>, n: nat, x: nat)
    requires n <= |ps| && x < Offset(ps, n)
    ensures IsEntry(ps, x, AllFds(ps, n)[x])
  {
    var m := n - 1;
    var a, b := AllFds(ps, m), FdsOf(ps[m], m);
    assert AllFds(ps, n) == a + b;
    Pick(a, b, x);
    if x < Offset(ps, m) {
      EntryIn(ps, m, x);
    } else {
      EntryOwner(ps[m], m, x - Offset(ps, m));
      assert b[x - |a|].owner == m;
    }
  }

  lemma EntryIs(p: Pollable, owner: nat, k: nat)
    requires k < Size(p)
    ensures p.prePoll.Some? && !p.prePoll.value.Known?
    ensures var e := FdsOf(p, owner)[k];
      match p.prePoll.value
      case Handle(fd) => k == 0 && e.fd == fd && e.events == {In}
      case Select(r, w, b) =>
        if k < |r| then e.fd == r[k] && e.events == {In}
        else if k < |r| + |w| then e.fd == w[k - |r|] && e.events == {Out}
        else e.fd == b[k - |r| - |w|] && e.events == {In, Out}
  {
  }

  /** What is polled: a connection for reading, and each descriptor of a curl
      handle for what that wants of it. */
  lemma PolledFor(ps: seq<Pollable>, x: nat)
    requires x < Offset(ps, |ps|)
    ensures var e := AllFds(ps, |ps|)[x];
      && e.owner < |ps| && Offset(ps, e.owner) <= x < Offset(ps, e.owner) + Size(ps[e.owner])
      && ps[e.owner].prePoll.Some?
      && match ps[e.owner].prePoll.value
         case Known(_) => false
         case Handle(fd) => e.fd == fd && e.events == {In}
         case Select(r, w, b) =>
           var k := x - Offset(ps, e.owner);
           if k < |r| then e.fd == r[k] && e.events == {In}
           else if k < |r| + |w| then e.fd == w[k - |r|] && e.events == {Out}
           else e.fd == b[k - |r| - |w|] && e.events == {In, Out}
  {
    EntryIn(ps, |ps|, x);
    var e := AllFds(ps, |ps|)[x];
    EntryIs(ps[e.owner], e.owner, x - Offset(ps, e.owner));
  }

  /** Nothing happened, and nothing was ready before. */
  ghost predicate Quiet(ps: seq<Pollable>, answers: seq<set<Flag>>) {
    && (forall k | 0 <= k < |answers| :: answers[k] == {})
    && (forall p | 0 <= p < |ps| :: ps[p].prePoll != Some(Known(Ready)))
  }

  /** Is e the event of pollable p, given the answers for its entries? If
      nothing is to be polled for it, its event is known. Everything that is
      polled times out if all is quiet. Otherwise a connection is closed if its
      descriptor is not open, and ready if there is something to read or the
      other end hung up, and a curl handle has an event if one of its
      descriptors has. */
  ghost predicate IsEvent(p: Pollable, mine: seq<set<Flag>>, quiet: bool, e: Event)
    requires |mine| == Size(p)
  {
    if p.prePoll.None? then e == Silent else
    match p.prePoll.value
    case Known(known) => e == known
    case Handle(_) =>
      e == (if quiet then Timeout
            else if Nval in mine[0] then Closed
            else if In !in mine[0] && Hup !in mine[0] && Out !in mine[0] then Silent
            else if p.listening then Connect else Ready)
    case Select(_, _, _) =>
      e == (if mine == [] then Silent
            else if quiet then Timeout
            else if exists k, f | 0 <= k < |mine| && f in [Nval, In, Hup, Out] :: f in mine[k] then CurlEvent
            else Silent)
  }

  lemma {:induction false} SomeReady(ps: seq<Pollable>, n: nat)
    requires n <= |ps|
    ensures ReadyNow(ps, n) == 0 <==> forall p | 0 <= p < n :: ps[p].prePoll != Some(Known(Ready))
  {
    if n > 0 { SomeReady(ps, n - 1); }
  }

  lemma QuietIs(ps: seq<Pollable>, answers: seq<set<Flag>>)
    ensures TimedOut(ps, answers) <==> answers != [] && Quiet(ps, answers)
  {
    SomeReady(ps, |ps|);
  }

  lemma StirredBy(revents: set<Flag>)
    ensures Stirred(revents) <==> exists f | f in [Nval, In, Hup, Out] :: f in revents
  {
    assert forall f :: f in [Nval, In, Hup, Out] <==> f in {Nval, In, Hup, Out};
    if f :| f in [Nval, In, Hup, Out] && f in revents { assert f in revents * {Nval, In, Hup, Out}; }
    if f :| f in revents * {Nval, In, Hup, Out} { assert f in revents; }
  }

  lemma SomeStirred(mine: seq<set<Flag>>)
    ensures (exists k | 0 <= k < |mine| :: Stirred(mine[k]))
      <==> exists k, f | 0 <= k < |mine| && f in [Nval, In, Hup, Out] :: f in mine[k]
  {
    forall k | 0 <= k < |mine| ensures Stirred(mine[k]) <==> exists f | f in [Nval, In, Hup, Out] :: f in mine[k] {
      StirredBy(mine[k]);
    }
  }

  lemma SeenIs(p: Pollable, mine: seq<set<Flag>>, quiet: bool)
    requires |mine| == Size(p)
    ensures IsEvent(p, mine, quiet, if quiet && Size(p) > 0 then Timeout else Seen(p, mine))
  {
    SomeStirred(mine);
  }

  /** The answers for the entries of pollable q. */
  function AnswersOf(ps: seq<Pollable>, answers: seq<set<Flag>>, q: nat): (mine: seq<set<Flag>>)
    requires q < |ps| && |answers| == Offset(ps, |ps|)
    ensures |mine| == Size(ps[q])
  {
    OffsetGrows(ps, q + 1, |ps|);
    answers[Offset(ps, q)..Offset(ps, q + 1)]
  }

  lemma FinalIs(ps: seq<Pollable>, answers: seq<set<Flag>>, q: nat)
    requires q < |ps| && |answers| == Offset(ps, |ps|)
    ensures IsEvent(ps[q], AnswersOf(ps, answers, q), Quiet(ps, answers), Final(ps, q, answers))
  {
    OffsetGrows(ps, q + 1, |ps|);
    QuietIs(ps, answers);
    assert Mine(ps, q, answers, |answers|) == AnswersOf(ps, answers, q);
    SeenIs(ps[q], AnswersOf(ps, answers, q), Quiet(ps, answers));
  }

  // ----- The passes -----

  /** First pass: how many entries are needed? */
  method CountFds(pollables: array<Pollable>) returns (j: nat)
    ensures j == Offset(pollables[..], pollables.Length)
  {
    j := 0;
    for i := 0 to pollables.Length
      invariant j == Offset(pollables[..], i)
    {
      match Events(pollables[i])
      case Handle(_) =>
        j := j + 1;
      case Select(r, w, b) =>
        j := j + |r| + |w| + |b|;
      case Known(_) =>
    }
  }

  method AddFds(fds: array<PollFd>, j: nat, more: seq<int>, events: set<Flag>, owner: nat) returns (j': nat)
    requires j + |more| <= fds.Length
    modifies fds
    ensures j' == j + |more| && fds[..j'] == old(fds[..j]) + Entries(more, events, owner)
  {
    for k := 0 to |more|
      invariant fds[..j + k] == old(fds[..j]) + Entries(more, events, owner)[..k]
    {
      fds[j + k] := PollFd(more[k], events, owner, {});
    }
    j' := j + |more|;
  }

  /** The entries of one pollable, in the second pass. */
  method AddEntries(p: Pollable, i: nat, fds: array<PollFd>, j: nat) returns (j': nat)
    requires j + Size(p) <= fds.Length
    modifies fds
    ensures j' == j + Size(p) && fds[..j'] == old(fds[..j]) + FdsOf(p, i)
  {
    j' := j;
    match Events(p) {
      case Known(_) =>
      case Handle(fd) =>
        fds[j] := PollFd(fd, {In}, i, {});
        j' := j + 1;
      case Select(r, w, b) =>
        ghost var before := fds[..j];
        j' := AddFds(fds, j', r, {In}, i);
        j' := AddFds(fds, j', w, {Out}, i);
        j' := AddFds(fds, j', b, {In, Out}, i);
        Regroup(before, Entries(r, {In}, i), Entries(w, {Out}, i), Entries(b, {In, Out}, i));
    }
  }

  lemma Regroup(a: seq<PollFd>, b: seq<PollFd>, c: seq<PollFd>, d: seq<PollFd>)
    ensures a + (b + c + d) == a + b + c + d
  {
  }

  /** The first n pollables have their event of the second pass. */
  ghost function Started(ps: seq<Pollable>, n: nat): (r: seq<Pollable>)
    ensures |r| == |ps|
  {
    seq(|ps|, q requires 0 <= q < |ps| => if q < n then ps[q].(event := Seen(ps[q], [])) else ps[q])
  }

  /** The second pass counts what is ready. */
  lemma {:induction false} CountStarted(ps: seq<Pollable>, n: nat)
    requires n <= |ps| && AllUsable(ps)
    ensures Count(Started(ps, |ps|), n) == ReadyNow(ps, n)
  {
    if n > 0 {
      CountStarted(ps, n - 1);
      assert Usable(Events(ps[n - 1]));
    }
  }

  method SetKnown(pollables: array<Pollable>, i: nat, ghost ps: seq<Pollable>) returns (ready: bool)
    requires |ps| == pollables.Length && i < |ps| && pollables[..] == Started(ps, i) && Usable(Events(ps[i]))
    modifies pollables
    ensures pollables[..] == Started(ps, i + 1) && (ready <==> Events(ps[i]) == Known(Ready))
  {
    var p := pollables[i];
    assert p == pollables[..][i] == ps[i];
    match Events(p) {
      case Known(e) =>
        ready := e == Ready;
        pollables[i] := p.(event := e);
      case _ =>
        ready := false;
        pollables[i] := p.(event := Silent);
    }
    assert pollables[..] == Started(ps, i)[i := pollables[i]];
  }

  /** What the second pass has done after i pollables. */
  ghost predicate Collected(
    ps: seq<Pollable>, pollables: seq<Pollable>, fds: seq<PollFd>, i: nat, j: nat, hasData: nat)
  {
    && i <= |ps| == |pollables| && pollables == Started(ps, i)
    && |fds| == Offset(ps, |ps|) && j == Offset(ps, i) <= |fds| && fds[..j] == AllFds(ps, i)
    && hasData == ReadyNow(ps, i)
  }

  /** The second pass, for one pollable. */
  method CollectOne(
    pollables: array<Pollable>, i: nat, fds: array<PollFd>, j: nat, hasData: nat, ghost ps: seq<Pollable>)
    returns (j': nat, hasData': nat)
    requires i < |ps| && Usable(Events(ps[i])) && Collected(ps, pollables[..], fds[..], i, j, hasData)
    modifies pollables, fds
    ensures Collected(ps, pollables[..], fds[..], i + 1, j', hasData')
  {
    OffsetGrows(ps, i + 1, |ps|);
    assert pollables[i] == pollables[..][i] == ps[i];
    assert fds[..][..j] == fds[..j];
    j' := AddEntries(pollables[i], i, fds, j);
    assert fds[..][..j'] == fds[..j'];
    var ready := SetKnown(pollables, i, ps);
    hasData' := if ready then hasData + 1 else hasData;
  }

  lemma NoneStarted(ps: seq<Pollable>)
    ensures Started(ps, 0) == ps
  {
  }

  method CollectAll(pollables: array<Pollable>, fds: array<PollFd>, ghost ps: seq<Pollable>) returns (hasData: nat)
    requires AllUsable(ps) && |ps| == pollables.Length && pollables[..] == Started(ps, 0)
    requires fds.Length == Offset(ps, |ps|)
    modifies pollables, fds
    ensures fds[..] == AllFds(ps, |ps|) && pollables[..] == Started(ps, |ps|)
    ensures hasData == ReadyNow(ps, |ps|)
  {
    hasData := 0;
    var j: nat := 0;
    for i := 0 to pollables.Length
      invariant Collected(ps, pollables[..], fds[..], i, j, hasData)
    {
      assert Usable(Events(ps[i]));
      j, hasData := CollectOne(pollables, i, fds, j, hasData, ps);
    }
    assert fds[..][..j] == fds[..];
  }

  /** Second pass: collect the entries, and set the events that are known. As
      many entries as the first pass counted. */
  method Collect(pollables: array<Pollable>, j: nat) returns (fds: array<PollFd>, hasData: nat)
    requires AllUsable(pollables[..]) && j == Offset(pollables[..], pollables.Length)
    modifies pollables
    ensures fresh(fds) && fds[..] == AllFds(old(pollables[..]), pollables.Length)
    ensures pollables[..] == Started(old(pollables[..]), pollables.Length)
    ensures hasData == Count(pollables[..], pollables.Length) == ReadyNow(old(pollables[..]), pollables.Length)
  {
    fds := new PollFd[j](_ => PollFd(0, {}, 0, {}));
    NoneStarted(pollables[..]);
    CountStarted(pollables[..], pollables.Length);
    hasData := CollectAll(pollables, fds, pollables[..]);
  }

  /** poll(2), with its time slices and interrupts: the answers for the entries
      it gets, within a time. None is an error, which is thrown. */
  type Kernel = (seq<PollFd>, int) -> Option<seq<set<Flag>>>

  ghost predicate AnswersAll(kernel: Kernel) {
    forall fds: seq<PollFd>, timeout: int ::
      kernel(fds, timeout).Some? ==> |kernel(fds, timeout).value| == |fds|
  }

  /** What poll(2) says about these pollables. If some are ready already, it
      does not wait. It is not called if there is nothing to poll. */
  ghost function AnswersFor(ps: seq<Pollable>, timeout: int, kernel: Kernel): (r: Option<seq<set<Flag>>>)
    requires AnswersAll(kernel)
    ensures r.Some? ==> |r.value| == Offset(ps, |ps|)
  {
    var fds := AllFds(ps, |ps|);
    if fds == [] then Some([]) else kernel(fds, if ReadyNow(ps, |ps|) > 0 then 0 else timeout)
  }

  /** poll(2) is told not to wait exactly if something is ready already. */
  lemma NoWaiting(ps: seq<Pollable>, timeout: int, kernel: Kernel)
    requires AnswersAll(kernel) && AllFds(ps, |ps|) != []
    ensures (exists p :: 0 <= p < |ps| && ps[p].prePoll == Some(Known(Ready))) ==>
      AnswersFor(ps, timeout, kernel) == kernel(AllFds(ps, |ps|), 0)
    ensures (forall p | 0 <= p < |ps| :: ps[p].prePoll != Some(Known(Ready))) ==>
      AnswersFor(ps, timeout, kernel) == kernel(AllFds(ps, |ps|), timeout)
  {
    SomeReady(ps, |ps|);
  }

  /** The number of entries with an answer. */
  function Answered(answers: seq<set<Flag>>): nat {
    if answers == [] then 0
    else Answered(answers[..|answers| - 1]) + if answers[|answers| - 1] == {} then 0 else 1
  }

  lemma {:induction false} NoneAnswered(answers: seq<set<Flag>>)
    ensures Answered(answers) == 0 <==> AllQuiet(answers)
  {
    if answers != [] {
      var n := |answers| - 1;
      NoneAnswered(answers[..n]);
      assert AllQuiet(answers) ==> AllQuiet(answers[..n]);
      if AllQuiet(answers[..n]) && answers[n] == {} {
        assert forall k | 0 <= k < n :: answers[k] == answers[..n][k];
      }
    }
  }

  // ----- After poll(2) -----

  /** The pollables once the first i answers were looked at. */
  ghost function SeenUpTo(ps: seq<Pollable>, answers: seq<set<Flag>>, i: nat): (r: seq<Pollable>)
    requires i <= |answers|
    ensures |r| == |ps|
  {
    seq(|ps|, q requires 0 <= q < |ps| => ps[q].(event := Seen(ps[q], Mine(ps, q, answers, i))))
  }

  lemma NoNews(ps: seq<Pollable>, answers: seq<set<Flag>>, i: nat, q: nat, r: nat)
    requires i < |answers| == Offset(ps, |ps|) && q < |ps| && Offset(ps, q) <= i < Offset(ps, q + 1)
    requires r < |ps| && r != q
    ensures Mine(ps, r, answers, i + 1) == Mine(ps, r, answers, i)
  {
    if r < q { OffsetGrows(ps, r + 1, q); } else { OffsetGrows(ps, q + 1, r); }
  }

  lemma MineNext(ps: seq<Pollable>, answers: seq<set<Flag>>, i: nat, q: nat)
    requires i < |answers| == Offset(ps, |ps|) && q < |ps| && Offset(ps, q) <= i < Offset(ps, q + 1)
    ensures Mine(ps, q, answers, i + 1) == Mine(ps, q, answers, i) + [answers[i]]
  {
    PartNext(answers, Offset(ps, q), Offset(ps, q + 1), i);
  }

  lemma SameBut(a: seq<Pollable>, b: seq<Pollable>, q: nat)
    requires |a| == |b| && q < |a| && forall r | 0 <= r < |a| && r != q :: a[r] == b[r]
    ensures b == a[q := b[q]]
  {
  }

  /** One more answer is only news for the pollable that it belongs to. */
  lemma NewsFor(ps: seq<Pollable>, answers: seq<set<Flag>>, i: nat, q: nat)
    requires i < |answers| == Offset(ps, |ps|) && q < |ps| && Offset(ps, q) <= i < Offset(ps, q + 1)
    ensures SeenUpTo(ps, answers, i + 1)
         == SeenUpTo(ps, answers, i)[q := ps[q].(event := Seen(ps[q], Mine(ps, q, answers, i + 1)))]
  {
    var next, now := SeenUpTo(ps, answers, i + 1), SeenUpTo(ps, answers, i);
    forall r | 0 <= r < |ps| && r != q ensures now[r] == next[r] {
      NoNews(ps, answers, i, q, r);
    }
    SameBut(now, next, q);
  }

  /** Look at the answer for one entry of p. `first`: it is the only entry, if
      p has one descriptor. */
  method Answer(p: Pollable, revents: set<Flag>, ghost before: seq<set<Flag>>) returns (p': Pollable, ready: bool)
    requires !Events(p).Known? && p.event == Seen(p, before)
    requires Events(p).Handle? ==> before == []
    ensures p' == p.(event := Seen(p, before + [revents]))
    ensures ready <==> HasData(p'.event)
    ensures !HasData(p.event)
  {
    p', ready := p, false;
    ghost var more := before + [revents];
    assert more[|before|] == revents;
    assert forall k | 0 <= k < |before| :: more[k] == before[k];
    if Events(p).Select? {
      if p.event == Silent {
        if revents * {Nval, In, Hup, Out} != {} {
          p' := p.(event := CurlEvent);
        }
      }
    } else {
      var event := Decode(revents);
      if event == Ready {
        ready := true;
        if p.listening {
          event := Connect;
        }
      }
      p' := p.(event := event);
    }
  }

  lemma HandleHasOne(ps: seq<Pollable>, answers: seq<set<Flag>>, i: nat, q: nat)
    requires i < |answers| && q < |ps| && Offset(ps, q) <= i < Offset(ps, q + 1)
    ensures !Events(ps[q]).Known?
    ensures Events(ps[q]).Handle? ==> Mine(ps, q, answers, i) == []
  {
  }

  /** What is known about the pollable that answer i belongs to. */
  lemma AnswerFor(ps: seq<Pollable>, answers: seq<set<Flag>>, i: nat, q: nat)
    requires i < |answers| == Offset(ps, |ps|) && q == AllFds(ps, |ps|)[i].owner
    ensures q < |ps| && !Events(ps[q]).Known?
    ensures var seen := Mine(ps, q, answers, i);
      && (Events(ps[q]).Handle? ==> seen == [])
      && SeenUpTo(ps, answers, i)[q] == ps[q].(event := Seen(ps[q], seen))
      && SeenUpTo(ps, answers, i + 1)
         == SeenUpTo(ps, answers, i)[q := ps[q].(event := Seen(ps[q], seen + [answers[i]]))]
  {
    OwnerOf(ps, |ps|, i);
    HandleHasOne(ps, answers, i, q);
    NewsFor(ps, answers, i, q);
    MineNext(ps, answers, i, q);
  }

  /** The answer for entry i. */
  method AnswerOne(
    pollables: array<Pollable>, fds: array<PollFd>, i: nat, ghost ps: seq<Pollable>, answers: seq<set<Flag>>)
    returns (ready: bool)
    requires |ps| == pollables.Length && fds[..] == AllFds(ps, |ps|)
    requires i < |answers| == fds.Length && pollables[..] == SeenUpTo(ps, answers, i)
    modifies pollables
    ensures pollables[..] == SeenUpTo(ps, answers, i + 1)
    ensures Count(pollables[..], |ps|) == old(Count(pollables[..], |ps|)) + if ready then 1 else 0
  {
    var q := fds[i].owner;
    ghost var before := pollables[..];
    AnswerFor(ps, answers, i, q);
    assert pollables[q] == before[q];
    var p;
    p, ready := Answer(pollables[q], answers[i], Mine(ps, q, answers, i));
    CountOfUpdate(before, q, p, |ps|);
    pollables[q] := p;
    assert pollables[..] == before[q := p];
  }

  /** All answers are in: the events are those of the poll. */
  lemma AllSeen(ps: seq<Pollable>, answers: seq<set<Flag>>)
    requires |answers| == Offset(ps, |ps|) && !TimedOut(ps, answers)
    ensures SeenUpTo(ps, answers, |answers|) == Polled(ps, answers)
  {
  }

  /** Before any answer. */
  lemma NoneSeen(ps: seq<Pollable>, answers: seq<set<Flag>>)
    ensures Started(ps, |ps|) == SeenUpTo(ps, answers, 0)
  {
    forall q | 0 <= q < |ps| ensures Mine(ps, q, answers, 0) == [] {
    }
  }

  lemma QuietPart(answers: seq<set<Flag>>, from: nat, to: nat)
    requires AllQuiet(answers) && from <= to <= |answers|
    ensures AllQuiet(Part(answers, from, to, |answers|))
  {
    forall k | from <= k < to ensures answers[k] == {} {
    }
  }

  lemma QuietSeen(p: Pollable, answers: seq<set<Flag>>)
    requires AllQuiet(answers)
    ensures Seen(p, answers) == Seen(p, [])
  {
  }

  lemma QuietMine(ps: seq<Pollable>, answers: seq<set<Flag>>, q: nat)
    requires |answers| == Offset(ps, |ps|) && AllQuiet(answers) && q < |ps|
    ensures Seen(ps[q], Mine(ps, q, answers, |answers|)) == Seen(ps[q], [])
  {
    OffsetGrows(ps, q + 1, |ps|);
    QuietPart(answers, Offset(ps, q), Offset(ps, q + 1));
    QuietSeen(ps[q], Mine(ps, q, answers, |answers|));
  }

  /** An answer without events is no news. */
  lemma QuietIsNothing(ps: seq<Pollable>, answers: seq<set<Flag>>)
    requires |answers| == Offset(ps, |ps|) && AllQuiet(answers)
    ensures Started(ps, |ps|) == SeenUpTo(ps, answers, |answers|)
  {
    var a, b := Started(ps, |ps|), SeenUpTo(ps, answers, |answers|);
    forall q | 0 <= q < |ps| ensures a[q] == b[q] {
      QuietMine(ps, answers, q);
    }
  }

  /** Everything that was polled timed out. */
  lemma {:induction false} TimedOutCount(ps: seq<Pollable>, answers: seq<set<Flag>>, n: nat)
    requires n <= |ps| && AllUsable(ps) && TimedOut(ps, answers)
    ensures Count(Polled(ps, answers), n) == 0
  {
    if n > 0 {
      TimedOutCount(ps, answers, n - 1);
      assert Usable(Events(ps[n - 1]));
      NotReadyNow(ps, |ps|, n - 1);
    }
  }

  /** The pollables once the owners of the first i entries are timed out. */
  ghost function TimedOutUpTo(ps: seq<Pollable>, i: nat): (r: seq<Pollable>)
    ensures |r| == |ps|
  {
    seq(|ps|, q requires 0 <= q < |ps| =>
      ps[q].(event := if Size(ps[q]) > 0 && Offset(ps, q) < i then Timeout else Seen(ps[q], [])))
  }

  lemma TimedOutBefore(ps: seq<Pollable>, i: nat, q: nat, r: nat)
    requires i < Offset(ps, |ps|) && q < |ps| && Offset(ps, q) <= i < Offset(ps, q + 1)
    requires r < |ps| && r != q
    ensures TimedOutUpTo(ps, i)[r] == TimedOutUpTo(ps, i + 1)[r]
  {
    if r < q { OffsetGrows(ps, r + 1, q); } else { OffsetGrows(ps, q + 1, r); }
  }

  lemma OneMoreTimedOut(ps: seq<Pollable>, i: nat, q: nat)
    requires i < Offset(ps, |ps|) && q < |ps| && Offset(ps, q) <= i < Offset(ps, q + 1)
    ensures TimedOutUpTo(ps, i + 1) == TimedOutUpTo(ps, i)[q := ps[q].(event := Timeout)]
  {
    var now, next := TimedOutUpTo(ps, i), TimedOutUpTo(ps, i + 1);
    forall r | 0 <= r < |ps| && r != q ensures now[r] == next[r] {
      TimedOutBefore(ps, i, q, r);
    }
    SameBut(now, next, q);
  }

  lemma IsTimedOut(ps: seq<Pollable>, answers: seq<set<Flag>>, q: nat)
    requires |answers| == Offset(ps, |ps|) && TimedOut(ps, answers) && q < |ps|
    ensures TimedOutUpTo(ps, |answers|)[q].event == Final(ps, q, answers)
  {
    OffsetGrows(ps, q + 1, |ps|);
    if Size(ps[q]) == 0 { assert Mine(ps, q, answers, |answers|) == []; }
  }

  lemma AllTimedOut(ps: seq<Pollable>, answers: seq<set<Flag>>)
    requires |answers| == Offset(ps, |ps|) && TimedOut(ps, answers)
    ensures TimedOutUpTo(ps, |answers|) == Polled(ps, answers)
  {
    var a, b := TimedOutUpTo(ps, |answers|), Polled(ps, answers);
    forall q | 0 <= q < |ps| ensures a[q] == b[q] {
      IsTimedOut(ps, answers, q);
    }
  }

  /** Nothing happened: every pollable that has an entry times out. */
  method SetTimeouts(pollables: array<Pollable>, fds: array<PollFd>, ghost ps: seq<Pollable>)
    requires |ps| == pollables.Length && fds[..] == AllFds(ps, |ps|) && pollables[..] == TimedOutUpTo(ps, 0)
    modifies pollables
    ensures pollables[..] == TimedOutUpTo(ps, fds.Length)
  {
    for i := 0 to fds.Length
      invariant pollables[..] == TimedOutUpTo(ps, i)
    {
      var q := fds[i].owner;
      OwnerOf(ps, |ps|, i);
      OneMoreTimedOut(ps, i, q);
      ghost var before := pollables[..];
      assert pollables[q] == before[q];
      pollables[q] := pollables[q].(event := Timeout);
      assert pollables[..] == before[q := pollables[q]];
    }
  }

  /** Look at all answers. */
  method SetAnswers(
    pollables: array<Pollable>, fds: array<PollFd>, ghost ps: seq<Pollable>, answers: seq<set<Flag>>, hasData0: nat)
    returns (hasData: nat)
    requires |ps| == pollables.Length && fds[..] == AllFds(ps, |ps|) && |answers| == fds.Length
    requires pollables[..] == SeenUpTo(ps, answers, 0) && hasData0 == Count(pollables[..], |ps|)
    modifies pollables
    ensures pollables[..] == SeenUpTo(ps, answers, |answers|) && hasData == Count(pollables[..], |ps|)
  {
    hasData := hasData0;
    for i := 0 to fds.Length
      invariant pollables[..] == SeenUpTo(ps, answers, i) && hasData == Count(pollables[..], |ps|)
    {
      var ready := AnswerOne(pollables, fds, i, ps, answers);
      if ready { hasData := hasData + 1; }
    }
  }

  /** Poll. The number is that of the pollables with data or a connection.
      None is an error of poll(2). */
  method ConnectionPoll(pollables: array<Pollable>, timeout: int, kernel: Kernel) returns (hasData: Option<nat>)
    requires AllUsable(pollables[..]) && AnswersAll(kernel)
    modifies pollables
    ensures hasData.Some? <==> AnswersFor(old(pollables[..]), timeout, kernel).Some?
    ensures hasData.Some? ==>
      && pollables[..] == Polled(old(pollables[..]), AnswersFor(old(pollables[..]), timeout, kernel).value)
      && hasData.value == Count(pollables[..], pollables.Length)
  {
    ghost var ps := pollables[..];
    if pollables.Length == 0 {
      return Some(0);
    }
    var j := CountFds(pollables);
    var fds, n := Collect(pollables, j);
    if j == 0 {
      NoneSeen(ps, []);
      AllSeen(ps, []);
      return Some(n);
    }
    var revents := kernel(fds[..], if n > 0 then 0 else timeout);
    if revents.None? {
      return None;
    }
    n := SetEvents(pollables, fds, ps, revents.value, n);
    hasData := Some(n);
  }

  /** What the poll found, entry by entry. */
  method SetEvents(
    pollables: array<Pollable>, fds: array<PollFd>, ghost ps: seq<Pollable>, answers: seq<set<Flag>>, ready: nat)
    returns (hasData: nat)
    requires |ps| == pollables.Length && AllUsable(ps)
    requires fds[..] == AllFds(ps, |ps|) && |answers| == fds.Length > 0
    requires pollables[..] == Started(ps, |ps|) && ready == Count(pollables[..], |ps|) == ReadyNow(ps, |ps|)
    modifies pollables
    ensures pollables[..] == Polled(ps, answers) && hasData == Count(pollables[..], |ps|)
  {
    hasData := ready;
    NoneAnswered(answers);
    NoneSeen(ps, answers);
    if Answered(answers) == 0 {
      QuietIsNothing(ps, answers);
      if ready == 0 {
        assert TimedOutUpTo(ps, 0) == Started(ps, |ps|);
        SetTimeouts(pollables, fds, ps);
        AllTimedOut(ps, answers);
        TimedOutCount(ps, answers, |ps|);
      } else {
        AllSeen(ps, answers);
      }
    } else {
      hasData := SetAnswers(pollables, fds, ps, answers, ready);
      AllSeen(ps, answers);
    }
  }

  // ----- Processes, connections and curl handles -----

  /** A process has three slots: its output, its error, and a connection that
      ends with the process. */
  datatype Input = Process(stdout: Pollable, stderr: Pollable, ends: Pollable) | Single(slot: Pollable)

  function Slots(x: Input): (r: seq<Pollable>)
    ensures |r| == if x.Process? then 3 else 1
  {
    if x.Process? then [x.stdout, x.stderr, x.ends] else [x.slot]
  }

  function AllSlots(xs: seq<Input>, n: nat): seq<Pollable>
    requires n <= |xs|
  {
    if n == 0 then [] else AllSlots(xs, n - 1) + Slots(xs[n - 1])
  }

  /** Where the slots of input i begin. */
  function Start(xs: seq<Input>, i: nat): (r: nat)
    requires i <= |xs|
    ensures r == |AllSlots(xs, i)|
  {
    if i == 0 then 0 else Start(xs, i - 1) + |Slots(xs[i - 1])|
  }

  function Processes(xs: seq<Input>, n: nat): nat
    requires n <= |xs|
  {
    if n == 0 then 0 else Processes(xs, n - 1) + if xs[n - 1].Process? then 1 else 0
  }

  lemma {:induction false} SlotCount(xs: seq<Input>, n: nat)
    requires n <= |xs|
    ensures Start(xs, n) == n + 2 * Processes(xs, n)
  {
    if n > 0 { SlotCount(xs, n - 1); }
  }

  lemma {:induction false} StartGrows(xs: seq<Input>, i: nat, n: nat)
    requires i <= n <= |xs|
    ensures Start(xs, i) <= Start(xs, n)
  {
    if i < n { StartGrows(xs, i, n - 1); }
  }

  /** The events of input i. */
  ghost function EventsOf(xs: seq<Input>, polled: seq<Pollable>, i: nat): seq<Event>
    requires i < |xs| && |polled| == Start(xs, |xs|)
  {
    StartGrows(xs, i + 1, |xs|);
    seq(|Slots(xs[i])|, k requires 0 <= k < |Slots(xs[i])| => polled[Start(xs, i) + k].event)
  }

  lemma {:induction false} SlotsGrow(xs: seq<Input>, m: nat, n: nat)
    requires m <= n <= |xs|
    ensures AllSlots(xs, m) <= AllSlots(xs, n)
  {
    if m < n { SlotsGrow(xs, m, n - 1); }
  }

  lemma SlotOf(xs: seq<Input>, i: nat, k: nat)
    requires i < |xs| && k < |Slots(xs[i])|
    ensures Start(xs, i) + k < |AllSlots(xs, |xs|)| && AllSlots(xs, |xs|)[Start(xs, i) + k] == Slots(xs[i])[k]
  {
    SlotsGrow(xs, i + 1, |xs|);
    assert AllSlots(xs, i + 1)[Start(xs, i) + k] == Slots(xs[i])[k];
  }

  /** Is e the event of slot k of input i? */
  ghost predicate SlotEvent(xs: seq<Input>, answers: seq<set<Flag>>, i: nat, k: nat, e: Event)
    requires i < |xs| && k < |Slots(xs[i])| && |answers| == Offset(AllSlots(xs, |xs|), Start(xs, |xs|))
  {
    var ps := AllSlots(xs, |xs|);
    SlotOf(xs, i, k);
    IsEvent(Slots(xs[i])[k], AnswersOf(ps, answers, Start(xs, i) + k), Quiet(ps, answers), e)
  }

  lemma SlotEventIs(xs: seq<Input>, answers: seq<set<Flag>>, i: nat, k: nat)
    requires i < |xs| && k < |Slots(xs[i])| && |answers| == Offset(AllSlots(xs, |xs|), Start(xs, |xs|))
    ensures SlotEvent(xs, answers, i, k, EventsOf(xs, Polled(AllSlots(xs, |xs|), answers), i)[k])
  {
    SlotOf(xs, i, k);
    FinalIs(AllSlots(xs, |xs|), answers, Start(xs, i) + k);
  }

  method Place(x: Input, pollables: array<Pollable>, j: nat) returns (j': nat)
    requires j + |Slots(x)| <= pollables.Length
    modifies pollables
    ensures j' == j + |Slots(x)| && pollables[..j'] == old(pollables[..j]) + Slots(x)
  {
    match x {
      case Process(out, err, ends) =>
        pollables[j] := out;
        pollables[j + 1] := err;
        pollables[j + 2] := ends;
        j' := j + 3;
      case Single(slot) =>
        pollables[j] := slot;
        j' := j + 1;
    }
  }

  method Layout(xs: seq<Input>) returns (pollables: array<Pollable>)
    ensures fresh(pollables) && pollables[..] == AllSlots(xs, |xs|)
  {
    var numProc := 0;
    for i := 0 to |xs|
      invariant numProc == Processes(xs, i)
    {
      if xs[i].Process? { numProc := numProc + 1; }
    }
    SlotCount(xs, |xs|);
    pollables := new Pollable[|xs| + numProc * 2](_ => Pollable(None, false, Silent));
    var j := 0;
    for i := 0 to |xs|
      invariant j == Start(xs, i) <= pollables.Length && pollables[..j] == AllSlots(xs, i)
    {
      StartGrows(xs, i + 1, |xs|);
      j := Place(xs[i], pollables, j);
    }
  }

  method Take(x: Input, pollables: array<Pollable>, j: nat) returns (j': nat, events: seq<Event>)
    requires j + |Slots(x)| <= pollables.Length
    ensures j' == j + |Slots(x)| && |events| == |Slots(x)|
    ensures forall k | 0 <= k < |events| :: events[k] == pollables[j + k].event
  {
    if x.Process? {
      events := [pollables[j].event, pollables[j + 1].event, pollables[j + 2].event];
      j' := j + 3;
    } else {
      events := [pollables[j].event];
      j' := j + 1;
    }
  }

  method Results(xs: seq<Input>, pollables: array<Pollable>) returns (r: seq<seq<Event>>)
    requires pollables.Length == Start(xs, |xs|)
    ensures |r| == |xs| && forall i | 0 <= i < |xs| :: r[i] == EventsOf(xs, pollables[..], i)
  {
    var j := 0;
    r := [];
    for i := 0 to |xs|
      invariant j == Start(xs, i) && |r| == i
      invariant forall q | 0 <= q < i :: r[q] == EventsOf(xs, pollables[..], q)
    {
      StartGrows(xs, i + 1, |xs|);
      var events;
      j, events := Take(xs[i], pollables, j);
      assert events == EventsOf(xs, pollables[..], i);
      r := r + [events];
    }
  }

  /** Every input gets the events of its own slots. None is an error of
      poll(2). */
  method PollAll(xs: seq<Input>, ms: int, kernel: Kernel) returns (result: Option<seq<seq<Event>>>)
    requires AllUsable(AllSlots(xs, |xs|)) && AnswersAll(kernel)
    ensures var answers := AnswersFor(AllSlots(xs, |xs|), ms, kernel);
      if answers.None? then result.None?
      else
        && result.Some? && |result.value| == |xs|
        && (forall i | 0 <= i < |xs| :: result.value[i] == EventsOf(xs, Polled(AllSlots(xs, |xs|), answers.value), i))
        && (forall i, k | 0 <= i < |xs| && 0 <= k < |Slots(xs[i])| ::
              SlotEvent(xs, answers.value, i, k, result.value[i][k]))
  {
    var pollables := Layout(xs);
    var hasData := ConnectionPoll(pollables, ms, kernel);
    if hasData.None? {
      return None;
    }
    var r := Results(xs, pollables);
    ghost var answers := AnswersFor(AllSlots(xs, |xs|), ms, kernel).value;
    forall i, k | 0 <= i < |xs| && 0 <= k < |Slots(xs[i])| ensures SlotEvent(xs, answers, i, k, r[i][k]) {
      SlotEventIs(xs, answers, i, k);
    }
    result := Some(r);
  }
}
