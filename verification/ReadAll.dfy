/** Reading everything that a process writes, and any other series of reads. */
module ReadAll {
  import opened Codec
  import opened Lines
  import opened Connections

  /** Wait until something happens. `ready`: the connection can be read. It may
      also be another connection that was polled with it. */
  method PollIo(con: Connection) returns (ready: bool)
    requires con.Valid() && !con.rawMode
    modifies con, con.buffer, con.utf8, con.source`ready
    ensures con.Valid() && !con.rawMode && con.isEof == old(con.isEof) && con.isEofRaw == old(con.isEofRaw)
    ensures con.buffer == old(con.buffer) && con.utf8 == old(con.utf8)
    ensures con.Pending() == old(con.Pending())
    ensures con.Left() <= old(con.Left())
    ensures con.utf8DataSize > old(con.utf8DataSize) ==> con.Left() < old(con.Left())
    ensures ready ==>
      con.isEof || con.utf8DataSize > 0 || (con.isEofRaw && con.bufferDataSize > 0) || con.source.ready
  {
    ready := con.PrePoll();
    if !ready { ready := con.source.Wait(); }
  }

  /** One turn of the loop. It gets the reader nearer to the end of the file,
      or the poll returned for another connection, and the read found nothing. */
  method PollAndRead(con: Connection) returns (out: Result<seq<Byte>>, ghost ready: bool)
    requires con.Valid() && !con.rawMode && !con.isEof
    modifies con, con.buffer, con.utf8, con.source
    ensures con.Valid() && !con.rawMode
    ensures (con.buffer == old(con.buffer) || fresh(con.buffer)) && (con.utf8 == old(con.utf8) || fresh(con.utf8))
    ensures old(con.isEofRaw) ==> con.isEofRaw
    ensures con.source.failures == old(con.source.failures) + if out.Error? then 1 else 0
    ensures out.Ok? ==> old(con.Pending()) == out.value + con.Pending() && con.utf8DataSize == 0
    ensures con.Left() <= old(con.Left()) && con.source.stalls <= old(con.source.stalls)
    ensures
      out.Ok? && con.Left() == old(con.Left()) && con.isEofRaw == old(con.isEofRaw)
      ==>
      || con.utf8DataSize < old(con.utf8DataSize)
      || con.isEof
      || (con.source.stalls < old(con.source.stalls) && !ready)
  {
    ready := PollIo(con);
    out := con.ReadChars(-1);
  }

  /** Read the text to its end. It is all there, once and in order, however
      the operating system splits it. */
  method ReadAllText(con: Connection) returns (r: Result<seq<Byte>>)
    requires con.Valid() && !con.rawMode
    modifies con, con.buffer, con.utf8, con.source
    ensures con.Valid()
    ensures r.Ok? ==> r.value == old(con.Pending()) && con.isEof
    ensures con.source.failures == old(con.source.failures) + if r.Error? then 1 else 0
  {
    var result := [];
    while !con.isEof
      invariant con.Valid() && !con.rawMode
      invariant con.buffer == old(con.buffer) || fresh(con.buffer)
      invariant con.utf8 == old(con.utf8) || fresh(con.utf8)
      invariant result + con.Pending() == old(con.Pending())
      invariant con.source.failures == old(con.source.failures)
      decreases con.Left(), con.source.stalls, !con.isEofRaw, con.utf8DataSize, !con.isEof
    {
      var out;
      ghost var ready;
      out, ready := PollAndRead(con);
      if out.Error? { return Error; }
      Regroup(result, out.value, con.Pending());
      result := result + out.value;
    }
    con.NothingAfterEof();
    assert result + [] == result;
    r := Ok(result);
  }

  /** One turn of the loop for lines. With part of a line in the buffer it
      does not wait, but then the source stalls, which it does finitely
      often. */
  method PollAndReadLines(con: Connection) returns (
      lines: Result<seq<seq<Byte>>>, ghost text: seq<Byte>, ghost more: seq<Byte>, ghost seen: nat, ghost eof: bool)
    requires con.Valid() && !con.rawMode && !con.isEof
    modifies con, con.buffer, con.utf8, con.source
    ensures con.Valid() && !con.rawMode
    ensures (con.buffer == old(con.buffer) || fresh(con.buffer)) && (con.utf8 == old(con.utf8) || fresh(con.utf8))
    ensures old(con.isEofRaw) ==> con.isEofRaw
    ensures old(con.Pending()) == more + con.Pending() && text <= old(con.Pending()) && more <= text
    ensures con.source.failures == old(con.source.failures) + if lines.Error? then 1 else 0
    ensures text != [] ==> seen > 0
    ensures lines.Ok? ==> lines.value == LinesRead(text, seen, -1, eof)
    ensures lines.Ok? ==>
      if eof then con.Pending() == [] && Unended(text)
      else |more| == LineStart(text, LineCount(text, seen, -1))
    ensures con.Left() <= old(con.Left()) && con.source.stalls <= old(con.source.stalls)
    ensures
      lines.Ok? && con.Left() == old(con.Left()) && con.source.stalls == old(con.source.stalls)
      && con.isEofRaw == old(con.isEofRaw)
      ==> con.utf8DataSize < old(con.utf8DataSize) || (con.utf8DataSize == old(con.utf8DataSize) && con.isEof)
  {
    var _ := PollIo(con);
    lines, text, more, seen, eof := con.ReadLines(-1);
    assert lines.Ok? && eof ==> con.Raw() + con.source.unread == [];
  }

  /** What the loop for lines has done when `pending` is left of the text t. */
  ghost predicate LinesSoFar(
    t: seq<Byte>, pending: seq<Byte>, k: nat, last: bool, results: seq<seq<Byte>>)
  {
    && |pending| <= |t| && pending == t[|t| - |pending|..]
    && k <= CountNewlines(t)
    && (if last then pending == [] && LineStart(t, k) < |t| && Unended(t) else |t| - |pending| == LineStart(t, k))
    && results == if last then LinesAndRest(t, k) else LinesOf(t, k)
  }

  lemma PartContinues(t: seq<Byte>, at: nat, pending: seq<Byte>, text: seq<Byte>)
    requires at <= |t| && pending == t[at..] && text <= pending
    ensures Continues(t, at, text)
  {
    assert forall j | at <= j < at + |text| :: t[j] == pending[j - at];
  }

  lemma RestOfRest(t: seq<Byte>, pending: seq<Byte>, more: seq<Byte>, after: seq<Byte>)
    requires |pending| <= |t| && pending == t[|t| - |pending|..] && pending == more + after
    ensures |after| <= |t| && after == t[|t| - |after|..]
  {
    assert after == pending[|more|..];
  }

  lemma EndsAlike(t: seq<Byte>, at: nat, text: seq<Byte>)
    requires Continues(t, at, text) && at + |text| == |t| && Unended(text)
    ensures Unended(t)
  {
    assert t[|t| - 1] == text[|text| - 1];
  }

  lemma LinesNext(t: seq<Byte>, k: nat, results: seq<seq<Byte>>, text: seq<Byte>, after: seq<Byte>, seen: nat)
    requires k <= CountNewlines(t) && results == LinesOf(t, k) && Continues(t, LineStart(t, k), text)
    requires |after| <= |t| && after == t[|t| - |after|..]
    requires |t| - |after| == LineStart(t, k) + LineStart(text, LineCount(text, seen, -1))
    ensures LinesSoFar(t, after, k + LineCount(text, seen, -1), false, results + LinesRead(text, seen, -1, false))
  {
    JustLines(text, seen, -1);
    StartsContinue(t, k, text, LineCount(text, seen, -1));
    LinesContinue(t, k, text, LineCount(text, seen, -1));
    AreLinesSoFar(t, after, k + LineCount(text, seen, -1), results + LinesRead(text, seen, -1, false));
  }

  lemma AreLinesSoFar(t: seq<Byte>, pending: seq<Byte>, k: nat, results: seq<seq<Byte>>)
    requires |pending| <= |t| && pending == t[|t| - |pending|..]
    requires k <= CountNewlines(t) && |t| - |pending| == LineStart(t, k) && results == LinesOf(t, k)
    ensures LinesSoFar(t, pending, k, false, results)
  {
  }

  lemma RestNext(t: seq<Byte>, k: nat, results: seq<seq<Byte>>, text: seq<Byte>, seen: nat)
    requires k <= CountNewlines(t) && results == LinesOf(t, k) && Continues(t, LineStart(t, k), text)
    requires Unended(text) && LineStart(t, k) + |text| == |t|
    ensures LinesSoFar(t, [], k + LineCount(text, seen, -1), true, results + LinesRead(text, seen, -1, true))
  {
    AddRead(t, k, text, seen, -1, true);
    EndsAlike(t, LineStart(t, k), text);
  }

  /** Lines up to the end are all lines. */
  lemma AllLines(t: seq<Byte>, k: nat)
    requires k <= CountNewlines(t) && LineStart(t, k) == |t|
    ensures k == CountNewlines(t) && LinesAndRest(t, k) == LinesOf(t, k) && !Unended(t)
  {
    NextLine(t, k);
  }

  lemma Lengths(pending: seq<Byte>, text: seq<Byte>, more: seq<Byte>, after: seq<Byte>)
    requires pending == more + after && text <= pending && more <= text
    ensures |pending| == |more| + |after| && (after == [] ==> |text| == |pending|)
  {
  }

  lemma LinesSoFarNext(
    t: seq<Byte>, pending: seq<Byte>, k: nat, last: bool, results: seq<seq<Byte>>,
    text: seq<Byte>, more: seq<Byte>, after: seq<Byte>, seen: nat, eof: bool)
    requires LinesSoFar(t, pending, k, last, results)
    requires pending == more + after && text <= pending && more <= text
    requires if eof then after == [] && Unended(text) else |more| == LineStart(text, LineCount(text, seen, -1))
    ensures var k' := if last then k else k + LineCount(text, seen, -1);
            LinesSoFar(t, after, k', last || eof, results + LinesRead(text, seen, -1, eof))
  {
    if last {
      assert text == [];
      assert results + LinesRead(text, seen, -1, eof) == results;
    } else {
      Lengths(pending, text, more, after);
      PartContinues(t, LineStart(t, k), pending, text);
      RestOfRest(t, pending, more, after);
      if eof { RestNext(t, k, results, text, seen); } else { LinesNext(t, k, results, text, after, seen); }
    }
  }

  /** The call that gets the rest of the file has all of it in the buffer. */
  lemma IsLastCall(t: seq<Byte>, pending: seq<Byte>, k: nat, results: seq<seq<Byte>>, text: seq<Byte>, seen: nat)
    requires LinesSoFar(t, pending, k, false, results) && text == pending
    ensures LastCall(t, k + LineCount(text, seen, -1), text, seen)
  {
    CountAfter(t, k);
  }

  /** What the loop knows about the call that got the rest of the file. */
  datatype Rest = NoRest | Rest(text: seq<Byte>, seen: nat)

  ghost predicate Gathered(t: seq<Byte>, pending: seq<Byte>, k: nat, rest: Rest, results: seq<seq<Byte>>) {
    && LinesSoFar(t, pending, k, rest.Rest?, results)
    && (rest.Rest? ==> LastCall(t, k, rest.text, rest.seen) && rest.seen > 0)
  }

  lemma GatherMore(
    t: seq<Byte>, pending: seq<Byte>, k: nat, rest: Rest, results: seq<seq<Byte>>,
    text: seq<Byte>, more: seq<Byte>, after: seq<Byte>, seen: nat, eof: bool, lines: seq<seq<Byte>>)
    returns (k': nat, rest': Rest)
    requires Gathered(t, pending, k, rest, results) && lines == LinesRead(text, seen, -1, eof)
    requires pending == more + after && text <= pending && more <= text && (text != [] ==> seen > 0)
    requires if eof then after == [] && Unended(text) else |more| == LineStart(text, LineCount(text, seen, -1))
    ensures Gathered(t, after, k', rest', results + lines)
  {
    LinesSoFarNext(t, pending, k, rest.Rest?, results, text, more, after, seen, eof);
    if eof {
      Lengths(pending, text, more, after);
      IsLastCall(t, pending, k, results, text, seen);
    }
    k' := if rest.Rest? then k else k + LineCount(text, seen, -1);
    rest' := if eof then Rest(text, seen) else rest;
  }

  /** One turn of the loop. */
  method GatherLines(con: Connection, results: seq<seq<Byte>>, ghost t: seq<Byte>, ghost k: nat, ghost rest: Rest)
    returns (r: Result<seq<seq<Byte>>>, ghost k': nat, ghost rest': Rest)
    requires con.Valid() && !con.rawMode && !con.isEof && Gathered(t, con.Pending(), k, rest, results)
    modifies con, con.buffer, con.utf8, con.source
    ensures con.Valid() && !con.rawMode
    ensures (con.buffer == old(con.buffer) || fresh(con.buffer)) && (con.utf8 == old(con.utf8) || fresh(con.utf8))
    ensures con.source.failures == old(con.source.failures) + if r.Error? then 1 else 0
    ensures r.Ok? ==> Gathered(t, con.Pending(), k', rest', r.value)
    ensures old(con.isEofRaw) ==> con.isEofRaw
    ensures con.Left() <= old(con.Left()) && con.source.stalls <= old(con.source.stalls)
    ensures
      r.Ok? && con.Left() == old(con.Left()) && con.source.stalls == old(con.source.stalls)
      && con.isEofRaw == old(con.isEofRaw)
      ==> con.utf8DataSize < old(con.utf8DataSize) || (con.utf8DataSize == old(con.utf8DataSize) && con.isEof)
  {
    ghost var pending := con.Pending();
    var lines;
    ghost var text, more, seen, eof;
    lines, text, more, seen, eof := PollAndReadLines(con);
    if lines.Error? { return Error, k, rest; }
    k', rest' := GatherMore(t, pending, k, rest, results, text, more, con.Pending(), seen, eof, lines.value);
    r := Ok(results + lines.value);
  }

  /** Read all lines. They are the first k lines of the text and, if there is
      text after them, all of that as one more element. If the text ends with a
      newline, they are just its lines, however it is split into reads.
      Otherwise that depends on the call that got the rest: its text is what it
      had in the buffer, and it searched `seen` bytes of that. */
  method ReadAllLines(con: Connection) returns (r: Result<seq<seq<Byte>>>, ghost k: nat, ghost rest: Rest)
    requires con.Valid() && !con.rawMode
    modifies con, con.buffer, con.utf8, con.source
    ensures con.Valid()
    ensures r.Ok? ==> con.isEof && k <= CountNewlines(old(con.Pending()))
    ensures r.Ok? ==> r.value == LinesAndRest(old(con.Pending()), k)
    ensures r.Ok? && !Unended(old(con.Pending())) ==>
      r.value == LinesOf(old(con.Pending()), CountNewlines(old(con.Pending())))
    ensures r.Ok? && Unended(old(con.Pending())) ==>
      && rest.Rest? && rest.seen > 0 && LastCall(old(con.Pending()), k, rest.text, rest.seen)
      && (k < CountNewlines(old(con.Pending())) <==> Misses(rest.text, rest.seen))
    ensures con.source.failures == old(con.source.failures) + if r.Error? then 1 else 0
  {
    var results := [];
    ghost var t := con.Pending();
    k, rest := 0, NoRest;
    while !con.isEof
      invariant con.Valid() && !con.rawMode
      invariant con.buffer == old(con.buffer) || fresh(con.buffer)
      invariant con.utf8 == old(con.utf8) || fresh(con.utf8)
      invariant Gathered(t, con.Pending(), k, rest, results)
      invariant con.source.failures == old(con.source.failures)
      decreases con.Left(), con.source.stalls, !con.isEofRaw, con.utf8DataSize, !con.isEof
    {
      var lines;
      lines, k, rest := GatherLines(con, results, t, k, rest);
      if lines.Error? { return Error, k, rest; }
      results := lines.value;
    }
    con.NothingAfterEof();
    AllGathered(t, k, rest, results);
    r := Ok(results);
  }

  lemma AllGathered(t: seq<Byte>, k: nat, rest: Rest, results: seq<seq<Byte>>)
    requires Gathered(t, [], k, rest, results)
    ensures k <= CountNewlines(t) && results == LinesAndRest(t, k)
    ensures !Unended(t) ==> results == LinesOf(t, CountNewlines(t))
    ensures Unended(t) ==>
      && rest.Rest? && rest.seen > 0 && LastCall(t, k, rest.text, rest.seen)
      && (k < CountNewlines(t) <==> Misses(rest.text, rest.seen))
  {
    if rest.Rest? { StopsShort(t, k, rest.text, rest.seen); } else { AllLines(t, k); }
  }

  // ----- Any series of reads -----

  datatype Request =
    | Chars(nchars: int)
    | CChars(nbyte: nat)
    | GetLines(nlines: int)
    | Poll

  /** Serve one request. Returns the text that left the connection. */
  method Serve(con: Connection, request: Request) returns (ghost taken: seq<Byte>)
    requires con.Valid() && !con.rawMode
    modifies con, con.buffer, con.utf8, con.source
    ensures con.Valid() && !con.rawMode
    ensures (con.buffer == old(con.buffer) || fresh(con.buffer)) && (con.utf8 == old(con.utf8) || fresh(con.utf8))
    ensures old(con.isEof) ==> con.isEof && taken == []
    ensures old(con.Pending()) == taken + con.Pending()
  {
    taken := [];
    if old(con.isEof) { con.NothingAfterEof(); }
    match request {
      case Chars(n) =>
        var out := con.ReadChars(n);
        if out.Ok? { taken := out.value; }
      case CChars(n) =>
        var out := con.CReadChars(n);
        if out.Ok? { taken := out.value; }
      case GetLines(n) =>
        var out;
        ghost var text, seen, eof;
        out, text, taken, seen, eof := con.ReadLines(n);
      case Poll =>
        var _ := PollIo(con);
    }
  }

  /** Nothing is lost and nothing is added, whatever is read and in whatever
      amounts; once the connection reports its end, all was handed out. */
  method ServeAll(con: Connection, requests: seq<Request>) returns (ghost taken: seq<Byte>)
    requires con.Valid() && !con.rawMode
    modifies con, con.buffer, con.utf8, con.source
    ensures con.Valid() && !con.rawMode
    ensures old(con.Pending()) == taken + con.Pending()
    ensures con.isEof ==> taken == old(con.Pending())
  {
    taken := [];
    for i := 0 to |requests|
      invariant con.Valid() && !con.rawMode
      invariant con.buffer == old(con.buffer) || fresh(con.buffer)
      invariant con.utf8 == old(con.utf8) || fresh(con.utf8)
      invariant old(con.Pending()) == taken + con.Pending()
    {
      ghost var more := Serve(con, requests[i]);
      Regroup(taken, more, con.Pending());
      taken := taken + more;
    }
    if con.isEof {
      con.NothingAfterEof();
      assert taken + [] == taken;
    }
  }
}
