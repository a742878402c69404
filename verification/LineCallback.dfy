/** Line callbacks: output arrives in chunks, a callback gets it line by line. */
module LineCallback {
  import opened Codec
  import opened Lines

  /** strsplit with "\r?\n", from `at` on: what is before each match, and the
      rest, unless it is empty. */
  function SplitFrom(t: seq<Byte>, at: nat): seq<seq<Byte>>
    requires at <= |t|
    decreases |t| - at
  {
    if at == |t| then [] else
    var i := NextNewline(t, at);
    if i == |t| then [t[at..]] else [LineAt(t, at, i)] + SplitFrom(t, i + 1)
  }

  function StrSplit(t: seq<Byte>): seq<seq<Byte>> { SplitFrom(t, 0) }

  function Complete(t: seq<Byte>): seq<seq<Byte>> { LinesOf(t, CountNewlines(t)) }

  /** What is after the last newline. */
  function Remainder(t: seq<Byte>): seq<Byte> { AfterLines(t, CountNewlines(t)) }

  lemma Cut(s: seq<seq<Byte>>, k: nat, rest: seq<seq<Byte>>)
    requires k < |s|
    ensures s[k..] + rest == [s[k]] + (s[k + 1..] + rest)
  {
  }

  lemma {:induction false} SplitRest(t: seq<Byte>, k: nat)
    requires k <= CountNewlines(t)
    ensures SplitFrom(t, LineStart(t, k))
         == Complete(t)[k..] + if Remainder(t) == [] then [] else [Remainder(t)]
    decreases CountNewlines(t) - k
  {
    NextLine(t, k);
    if k < CountNewlines(t) {
      SplitRest(t, k + 1);
      Cut(Complete(t), k, if Remainder(t) == [] then [] else [Remainder(t)]);
      assert Complete(t)[k] == Line(t, k);
      assert LineStart(t, k) < |t|;
    } else {
      assert Complete(t)[k..] == [];
    }
  }

  /** The pieces are the complete lines, and the rest if there is one. */
  lemma SplitIsLines(t: seq<Byte>)
    ensures StrSplit(t) == Complete(t) + if Remainder(t) == [] then [] else [Remainder(t)]
    ensures Remainder(t) != [] <==> Unended(t)
  {
    SplitRest(t, 0);
    assert Complete(t)[0..] == Complete(t);
    NextLine(t, CountNewlines(t));
    SkipToNewline(t, LineStart(t, CountNewlines(t)));
  }

  /** No line is left after the last newline. */
  lemma CountIs(t: seq<Byte>, k: nat)
    requires k <= CountNewlines(t) && NL !in t[LineStart(t, k)..]
    ensures k == CountNewlines(t)
  {
    NextLine(t, k);
    SkipToNewline(t, LineStart(t, k));
  }

  lemma NoneInRemainder(t: seq<Byte>)
    ensures NL !in Remainder(t)
  {
    NextLine(t, CountNewlines(t));
    SkipToNewline(t, LineStart(t, CountNewlines(t)));
  }

  /** The lines of a first part are lines of the whole. */
  lemma FirstLines(t: seq<Byte>, more: seq<Byte>)
    ensures CountNewlines(t) <= CountNewlines(t + more)
    ensures LineStart(t + more, CountNewlines(t)) == LineStart(t, CountNewlines(t))
    ensures LinesOf(t + more, CountNewlines(t)) == Complete(t)
  {
    StartsContinue(t + more, 0, t, CountNewlines(t));
    LinesContinue(t + more, 0, t, CountNewlines(t));
    assert LinesOf(t + more, 0) + Complete(t) == Complete(t);
  }

  /** k lines before u, which is the rest of t. */
  lemma LastLines(t: seq<Byte>, k: nat, u: seq<Byte>)
    requires k <= CountNewlines(t) && u == AfterLines(t, k)
    ensures Complete(t) == LinesOf(t, k) + Complete(u)
    ensures Remainder(t) == Remainder(u)
  {
    var m := CountNewlines(u);
    StartsContinue(t, k, u, m);
    LinesContinue(t, k, u, m);
    NoneInRemainder(u);
    assert t[LineStart(t, k + m)..] == u[LineStart(u, m)..];
    CountIs(t, k + m);
  }

  /** A text that goes on after a chunk: its first lines are known, and the
      others begin with the rest of the chunk. */
  lemma LinesOfMore(t: seq<Byte>, more: seq<Byte>)
    ensures Complete(t + more) == Complete(t) + Complete(Remainder(t) + more)
    ensures Remainder(t + more) == Remainder(Remainder(t) + more)
  {
    FirstLines(t, more);
    assert (t + more)[LineStart(t, CountNewlines(t))..] == Remainder(t) + more;
    LastLines(t + more, CountNewlines(t), Remainder(t) + more);
  }

  function Concat(chunks: seq<seq<Byte>>): seq<Byte> {
    if chunks == [] then [] else Concat(chunks[..|chunks| - 1]) + chunks[|chunks| - 1]
  }

  /** One stream of a process, and the calls of its callback. */
  class Stream {
    var pushback: seq<Byte>
    var calls: seq<seq<Byte>>
    ghost var text: seq<Byte>

    ghost predicate Valid()
      reads this
    {
      calls == Complete(text) && pushback == Remainder(text)
    }

    constructor ()
      ensures Valid() && text == []
    {
      pushback, calls, text := [], [], [];
    }

    /** Call the callback with every line. */
    method Call(lines: seq<seq<Byte>>)
      modifies this`calls
      ensures calls == old(calls) + lines
    {
      for i := 0 to |lines|
        invariant calls == old(calls) + lines[..i]
      {
        calls := calls + [lines[i]];
      }
    }

    /** Output was read. */
    method Output(chunk: seq<Byte>)
      requires Valid()
      modifies this
      ensures Valid() && text == old(text) + chunk
    {
      if chunk == [] {
        assert text == text + chunk;
        return;
      }
      LinesOfMore(text, chunk);
      text := text + chunk;
      var newout := pushback + chunk;
      pushback := [];
      var lines := StrSplit(newout);
      SplitIsLines(newout);
      if newout[|newout| - 1] != NL {
        pushback := lines[|lines| - 1];
        lines := lines[..|lines| - 1];
      }
      assert lines == Complete(newout) && pushback == Remainder(newout);
      Call(lines);
    }
  }

  /** The calls do not depend on where the output was cut into chunks: they are
      the complete lines of all of it. */
  method Deliver(chunks: seq<seq<Byte>>) returns (calls: seq<seq<Byte>>, lost: seq<Byte>)
    ensures calls == Complete(Concat(chunks)) && lost == Remainder(Concat(chunks))
  {
    var s := new Stream();
    for k := 0 to |chunks|
      invariant s.Valid() && s.text == Concat(chunks[..k])
    {
      assert chunks[..k + 1][..k] == chunks[..k];
      s.Output(chunks[k]);
    }
    assert chunks[..|chunks|] == chunks;
    return s.calls, s.pushback;
  }

  /** All of the output but its last line, if that has no newline, goes to the
      callback. */
  lemma LostIsUnended(t: seq<Byte>)
    ensures Join(Complete(t), Terminators(t, CountNewlines(t))) + Remainder(t) == t
    ensures Proper(Complete(t), Terminators(t, CountNewlines(t)))
    ensures Remainder(t) != [] <==> Unended(t)
  {
    LinesRestore(t, CountNewlines(t));
    LinesAreProper(t, CountNewlines(t));
    SplitIsLines(t);
  }
}
