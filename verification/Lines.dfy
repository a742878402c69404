/** Cutting a text into lines that end in "\n" or "\r\n". */
module Lines {
  import opened Codec

  /** Position of the first newline from i on, |t| if there is none. */
  function NextNewline(t: seq<Byte>, i: nat): (j: nat)
    requires i <= |t|
    ensures i <= j <= |t|
    decreases |t| - i
  {
    if i == |t| || t[i] == NL then i else NextNewline(t, i + 1)
  }

  /** Number of newlines from i on. */
  function Newlines(t: seq<Byte>, i: nat): nat
    requires i <= |t|
    decreases |t| - i
  {
    if i == |t| then 0 else (if t[i] == NL then 1 else 0) + Newlines(t, i + 1)
  }

  function FirstNewline(t: seq<Byte>): nat { NextNewline(t, 0) }

  function CountNewlines(t: seq<Byte>): nat { Newlines(t, 0) }

  /** No newline from i to j. */
  ghost predicate Without(t: seq<Byte>, i: nat, j: nat)
    requires i <= j <= |t|
  {
    forall m | i <= m < j :: t[m] != NL
  }

  lemma {:induction false} NextNewlineIsNext(t: seq<Byte>, i: nat, j: nat)
    requires i <= j <= |t| && Without(t, i, j) && (j < |t| ==> t[j] == NL)
    ensures NextNewline(t, i) == j
    decreases j - i
  {
    if i < j { NextNewlineIsNext(t, i + 1, j); }
  }

  lemma {:induction false} SkipToNewline(t: seq<Byte>, i: nat)
    requires i <= |t|
    ensures var j := NextNewline(t, i);
      && Without(t, i, j)
      && (j < |t| ==> t[j] == NL && Newlines(t, i) == 1 + Newlines(t, j + 1))
      && (j == |t| ==> Newlines(t, i) == 0)
    decreases |t| - i
  {
    if i < |t| && t[i] != NL { SkipToNewline(t, i + 1); }
  }

  /** More text at the end does not move the first newline. */
  lemma FirstNewlineOfMore(s: seq<Byte>, t: seq<Byte>)
    requires s <= t
    ensures FirstNewline(s) < |s| ==> FirstNewline(t) == FirstNewline(s)
    ensures FirstNewline(s) == |s| ==> FirstNewline(t) >= |s|
  {
    SkipToNewline(s, 0);
    SkipToNewline(t, 0);
    var i := FirstNewline(s);
    assert forall m | 0 <= m < |s| :: t[m] == s[m];
    if i < |s| { NextNewlineIsNext(t, 0, i); }
  }

  /** Where line k starts, |t| if there are not so many lines. */
  function LineStart(t: seq<Byte>, k: nat): (at: nat)
    ensures at <= |t|
  {
    if k == 0 then 0 else
    var j := NextNewline(t, LineStart(t, k - 1));
    if j < |t| then j + 1 else |t|
  }

  /** The text from `at` to the newline at i, without a "\r" at its end. */
  function LineAt(t: seq<Byte>, at: nat, i: nat): seq<Byte>
    requires at <= i <= |t|
  {
    if i > at && t[i - 1] == CR then t[at..i - 1] else t[at..i]
  }

  function TerminatorAt(t: seq<Byte>, at: nat, i: nat): seq<Byte>
    requires at <= i <= |t|
  {
    if i > at && t[i - 1] == CR then [CR, NL] else [NL]
  }

  /** Line k of t, and what ends it. */
  function Line(t: seq<Byte>, k: nat): seq<Byte> {
    var at := LineStart(t, k);
    LineAt(t, at, NextNewline(t, at))
  }

  function Terminator(t: seq<Byte>, k: nat): seq<Byte> {
    var at := LineStart(t, k);
    TerminatorAt(t, at, NextNewline(t, at))
  }

  /** The first k lines of t. */
  function LinesOf(t: seq<Byte>, k: nat): (lines: seq<seq<Byte>>) {
    seq(k, i requires 0 <= i < k => Line(t, i))
  }

  lemma LinesOfNext(t: seq<Byte>, k: nat)
    ensures LinesOf(t, k + 1) == LinesOf(t, k) + [Line(t, k)]
  {
  }

  function Terminators(t: seq<Byte>, k: nat): (terms: seq<seq<Byte>>) {
    seq(k, i requires 0 <= i < k => Terminator(t, i))
  }

  lemma TerminatorsNext(t: seq<Byte>, k: nat)
    ensures Terminators(t, k + 1) == Terminators(t, k) + [Terminator(t, k)]
  {
  }

  /** What is left of t after k lines. */
  function AfterLines(t: seq<Byte>, k: nat): seq<Byte> { t[LineStart(t, k)..] }

  lemma {:induction false} NewlinesLeft(t: seq<Byte>, k: nat)
    requires k <= CountNewlines(t)
    ensures Newlines(t, LineStart(t, k)) == CountNewlines(t) - k
    ensures k > 0 ==> 0 < LineStart(t, k) && t[LineStart(t, k) - 1] == NL
  {
    if k > 0 {
      NewlinesLeft(t, k - 1);
      SkipToNewline(t, LineStart(t, k - 1));
    }
  }

  /** A reader that took k lines, from where it stands. */
  lemma NextLine(t: seq<Byte>, k: nat)
    requires k <= CountNewlines(t)
    ensures var i := NextNewline(t, LineStart(t, k));
      && (i < |t| <==> k < CountNewlines(t))
      && (i < |t| ==> t[i] == NL && LineStart(t, k + 1) == i + 1)
    ensures LineStart(t, k) > 0 ==> t[LineStart(t, k) - 1] == NL
  {
    NewlinesLeft(t, k);
    SkipToNewline(t, LineStart(t, k));
  }

  // ----- Lines and terminators, put together again -----

  ghost function Join(lines: seq<seq<Byte>>, terms: seq<seq<Byte>>): seq<Byte>
    requires |lines| == |terms|
  {
    if lines == [] then [] else
    Join(lines[..|lines| - 1], terms[..|lines| - 1]) + lines[|lines| - 1] + terms[|lines| - 1]
  }

  lemma JoinMore(lines: seq<seq<Byte>>, terms: seq<seq<Byte>>, line: seq<Byte>, term: seq<Byte>)
    requires |lines| == |terms|
    ensures Join(lines + [line], terms + [term]) == Join(lines, terms) + line + term
  {
    assert (lines + [line])[..|lines|] == lines && (terms + [term])[..|terms|] == terms;
  }

  /** A line and its terminator, as a reader must have cut them: no newline in
      the line, and a "\r" before the "\n" belongs to the terminator. */
  predicate ProperLine(line: seq<Byte>, term: seq<Byte>) {
    && NL !in line
    && (term == [CR, NL] || (term == [NL] && (line != [] ==> line[|line| - 1] != CR)))
  }

  ghost predicate Proper(lines: seq<seq<Byte>>, terms: seq<seq<Byte>>) {
    |lines| == |terms| && forall i | 0 <= i < |lines| :: ProperLine(lines[i], terms[i])
  }

  lemma LineAndTerminator(t: seq<Byte>, at: nat, i: nat)
    requires at <= i < |t| && t[i] == NL
    ensures t[..at] + LineAt(t, at, i) + TerminatorAt(t, at, i) == t[..i + 1]
  {
  }

  lemma CutOne(t: seq<Byte>, k: nat)
    requires k < CountNewlines(t)
    ensures t[..LineStart(t, k)] + Line(t, k) + Terminator(t, k) == t[..LineStart(t, k + 1)]
    ensures ProperLine(Line(t, k), Terminator(t, k))
  {
    NextLine(t, k);
    var at := LineStart(t, k);
    SkipToNewline(t, at);
    LineAndTerminator(t, at, NextNewline(t, at));
    assert NL !in LineAt(t, at, NextNewline(t, at));
  }

  /** Cutting loses nothing: terminators restored, the text is back. */
  lemma {:induction false} LinesRestore(t: seq<Byte>, k: nat)
    requires k <= CountNewlines(t)
    ensures Join(LinesOf(t, k), Terminators(t, k)) == t[..LineStart(t, k)]
  {
    if k > 0 {
      LinesRestore(t, k - 1);
      CutOne(t, k - 1);
      LinesOfNext(t, k - 1);
      TerminatorsNext(t, k - 1);
      JoinMore(LinesOf(t, k - 1), Terminators(t, k - 1), Line(t, k - 1), Terminator(t, k - 1));
    }
  }

  /** No "\n" is in a line, and a "\r" before the "\n" belongs to what ends it. */
  lemma LinesAreProper(t: seq<Byte>, k: nat)
    requires k <= CountNewlines(t)
    ensures Proper(LinesOf(t, k), Terminators(t, k))
    ensures forall i | 0 <= i < k ::
      var line, term := LinesOf(t, k)[i], Terminators(t, k)[i];
      10 !in line && (term == [13, 10] || (term == [10] && (line != [] ==> line[|line| - 1] != 13)))
  {
    forall i | 0 <= i < k
      ensures ProperLine(LinesOf(t, k)[i], Terminators(t, k)[i])
    {
      CutOne(t, i);
    }
  }

  /** A proper line at position `at` is the one that the reader cuts. */
  lemma LineIsUnique(t: seq<Byte>, at: nat, line: seq<Byte>, term: seq<Byte>)
    requires at <= |t| && ProperLine(line, term) && line + term <= t[at..]
    ensures var i := NextNewline(t, at);
      && i < |t| && i + 1 == at + |line| + |term|
      && line == LineAt(t, at, i) && term == TerminatorAt(t, at, i)
  {
    var i := at + |line| + |term| - 1;
    var s := line + term;
    assert t[at..i] == s[..|s| - 1] == if term == [NL] then line else line + [CR];
    assert t[i] == s[|s| - 1];
    assert forall m | at <= m < i :: t[m] == t[at..i][m - at];
    NextNewlineIsNext(t, at, i);
    assert line == t[at..at + |line|];
  }

  lemma NextIsUnique(t: seq<Byte>, k: nat, line: seq<Byte>, term: seq<Byte>)
    requires k <= CountNewlines(t) && ProperLine(line, term)
    requires line + term <= t[LineStart(t, k)..]
    ensures k + 1 <= CountNewlines(t)
    ensures line == Line(t, k) && term == Terminator(t, k)
    ensures LineStart(t, k + 1) == LineStart(t, k) + |line| + |term|
  {
    LineIsUnique(t, LineStart(t, k), line, term);
    NextLine(t, k);
  }

  lemma PrefixRest(a: seq<Byte>, b: seq<Byte>, c: seq<Byte>, t: seq<Byte>)
    requires a + b + c <= t
    ensures a <= t && b + c <= t[|a|..]
  {
    assert t[..|a|] == (a + b + c)[..|a|] == a;
    assert t[|a|..][..|b + c|] == (a + b + c)[|a|..] == b + c;
  }

  /** Are these the first lines of t? */
  ghost predicate IsCut(t: seq<Byte>, lines: seq<seq<Byte>>, terms: seq<seq<Byte>>) {
    && |lines| == |terms| <= CountNewlines(t)
    && |Join(lines, terms)| == LineStart(t, |lines|)
    && (forall i | 0 <= i < |lines| :: lines[i] == Line(t, i) && terms[i] == Terminator(t, i))
  }

  lemma CutMore(t: seq<Byte>, lines: seq<seq<Byte>>, terms: seq<seq<Byte>>, n: nat)
    requires |lines| == |terms| == n + 1 <= CountNewlines(t)
    requires IsCut(t, lines[..n], terms[..n])
    requires lines[n] == Line(t, n) && terms[n] == Terminator(t, n)
    requires LineStart(t, n + 1) == LineStart(t, n) + |lines[n]| + |terms[n]|
    ensures IsCut(t, lines, terms)
  {
    forall i | 0 <= i < |lines|
      ensures lines[i] == Line(t, i) && terms[i] == Terminator(t, i)
    {
      if i < n { assert lines[i] == lines[..n][i] && terms[i] == terms[..n][i]; }
    }
  }

  /** There is only one way to cut lines off a text. */
  lemma {:induction false} CutIsUnique(t: seq<Byte>, lines: seq<seq<Byte>>, terms: seq<seq<Byte>>)
    requires Proper(lines, terms) && Join(lines, terms) <= t
    ensures IsCut(t, lines, terms)
    decreases |lines|
  {
    if lines != [] {
      var n := |lines| - 1;
      assert ProperLine(lines[n], terms[n]);
      PrefixRest(Join(lines[..n], terms[..n]), lines[n], terms[n], t);
      CutIsUnique(t, lines[..n], terms[..n]);
      NextIsUnique(t, n, lines[n], terms[n]);
      CutMore(t, lines, terms, n);
    }
  }

  /** Does t continue with `more` at position `at`? */
  ghost predicate Continues(t: seq<Byte>, at: nat, more: seq<Byte>) {
    at + |more| <= |t| && forall j | at <= j < at + |more| :: t[j] == more[j - at]
  }

  lemma LineAtShift(t: seq<Byte>, at: nat, more: seq<Byte>, x: nat, i: nat)
    requires Continues(t, at, more) && x <= i < |more|
    ensures LineAt(t, at + x, at + i) == LineAt(more, x, i)
  {
  }

  lemma NextNewlineShift(t: seq<Byte>, at: nat, more: seq<Byte>, x: nat)
    requires Continues(t, at, more) && x <= |more| && NextNewline(more, x) < |more|
    ensures NextNewline(t, at + x) == at + NextNewline(more, x)
    ensures LineAt(t, at + x, at + NextNewline(more, x)) == LineAt(more, x, NextNewline(more, x))
  {
    SkipToNewline(more, x);
    NextNewlineIsNext(t, at + x, at + NextNewline(more, x));
    LineAtShift(t, at, more, x, NextNewline(more, x));
  }

  /** The line after a newline that is found starts there. */
  lemma StartAfter(t: seq<Byte>, k: nat, i: nat)
    requires i == NextNewline(t, LineStart(t, k)) < |t| && k <= CountNewlines(t)
    ensures LineStart(t, k + 1) == i + 1 && k + 1 <= CountNewlines(t)
  {
    NextLine(t, k);
  }

  lemma {:induction false} StartsContinue(t: seq<Byte>, k: nat, more: seq<Byte>, m: nat)
    requires k <= CountNewlines(t) && m <= CountNewlines(more)
    requires Continues(t, LineStart(t, k), more)
    ensures k + m <= CountNewlines(t)
    ensures LineStart(t, k + m) == LineStart(t, k) + LineStart(more, m)
  {
    if m > 0 {
      var n := m - 1;
      StartsContinue(t, k, more, n);
      StartStep(t, k, more, n, LineStart(t, k), LineStart(more, n));
    }
  }

  lemma StartStep(t: seq<Byte>, k: nat, more: seq<Byte>, n: nat, at: nat, x: nat)
    requires x == LineStart(more, n) && n < CountNewlines(more)
    requires LineStart(t, k + n) == at + x && k + n <= CountNewlines(t) && Continues(t, at, more)
    ensures k + n + 1 <= CountNewlines(t) && LineStart(t, k + n + 1) == at + LineStart(more, n + 1)
  {
    HasNext(more, n);
    NextNewlineShift(t, at, more, x);
    StartAfter(more, n, NextNewline(more, x));
    StartAfter(t, k + n, NextNewline(t, at + x));
  }

  lemma HasNext(t: seq<Byte>, k: nat)
    requires k < CountNewlines(t)
    ensures NextNewline(t, LineStart(t, k)) < |t|
  {
    NextLine(t, k);
  }

  lemma LineShift(t: seq<Byte>, k: nat, more: seq<Byte>, m: nat, at: nat, x: nat)
    requires Continues(t, at, more) && LineStart(t, k) == at + x
    requires LineStart(more, m) == x && NextNewline(more, x) < |more|
    ensures Line(t, k) == Line(more, m)
  {
    NextNewlineShift(t, at, more, x);
  }

  lemma LineContinues(t: seq<Byte>, k: nat, more: seq<Byte>, m: nat)
    requires k <= CountNewlines(t) && m < CountNewlines(more)
    requires Continues(t, LineStart(t, k), more)
    ensures Line(t, k + m) == Line(more, m)
  {
    HasNext(more, m);
    StartsContinue(t, k, more, m);
    LineShift(t, k + m, more, m, LineStart(t, k), LineStart(more, m));
  }

  /** Reading on where k lines were taken before. */
  lemma LinesContinue(t: seq<Byte>, k: nat, more: seq<Byte>, m: nat)
    requires k <= CountNewlines(t) && m <= CountNewlines(more)
    requires Continues(t, LineStart(t, k), more)
    ensures LinesOf(t, k + m) == LinesOf(t, k) + LinesOf(more, m)
  {
    forall i | 0 <= i < m
      ensures Line(t, k + i) == Line(more, i)
    {
      LineContinues(t, k, more, i);
    }
    SameLines(t, k, more, m);
  }

  lemma SameLines(t: seq<Byte>, k: nat, more: seq<Byte>, m: nat)
    requires forall i | 0 <= i < m :: Line(t, k + i) == Line(more, i)
    ensures LinesOf(t, k + m) == LinesOf(t, k) + LinesOf(more, m)
  {
  }

  /** Does t end in the middle of a line? */
  predicate Unended(t: seq<Byte>) { t != [] && t[|t| - 1] != NL }

  // ----- What one call of the line reader hands out -----

  const DEFAULT_LINES: nat := 1000

  /** The limit on the number of lines; a negative number is the default. */
  function Limit(n: int): nat { if n < 0 then DEFAULT_LINES else n }

  /** The buffer is t. The reader looked for the first newline in t[..seen]
      only: what came from the descriptor after that is not searched. */
  function LineCount(t: seq<Byte>, seen: nat, n: int): (k: nat)
  {
    if FirstNewline(t) >= seen then 0
    else if Limit(n) <= CountNewlines(t) then Limit(n) else CountNewlines(t)
  }

  /** The lines; at the end of the file the rest of the text is one more. */
  function LinesRead(t: seq<Byte>, seen: nat, n: int, eof: bool): seq<seq<Byte>> {
    var k := LineCount(t, seen, n);
    LinesOf(t, k) + if eof then [AfterLines(t, k)] else []
  }

  lemma JustLines(t: seq<Byte>, seen: nat, n: int)
    ensures LinesRead(t, seen, n, false) == LinesOf(t, LineCount(t, seen, n))
  {
    assert LinesOf(t, LineCount(t, seen, n)) + [] == LinesOf(t, LineCount(t, seen, n));
  }

  function TerminatorsRead(t: seq<Byte>, seen: nat, n: int, eof: bool): seq<seq<Byte>> {
    Terminators(t, LineCount(t, seen, n)) + if eof then [[]] else []
  }

  function LeftUnread(t: seq<Byte>, seen: nat, n: int, eof: bool): seq<Byte> {
    if eof then [] else AfterLines(t, LineCount(t, seen, n))
  }

  /** If a newline was found, there is a line to hand out. If there is none in
      all of the text, that ends in a line without one. */
  lemma LineToRead(t: seq<Byte>, seen: nat, n: int)
    requires t != [] && seen <= |t| && n != 0
    ensures LineCount(t, seen, n) == 0 ==> FirstNewline(t) >= seen && (seen == |t| ==> Unended(t))
  {
    SkipToNewline(t, 0);
  }

  /** No call loses text. */
  lemma LinesReadRestore(t: seq<Byte>, seen: nat, n: int, eof: bool)
    ensures |LinesRead(t, seen, n, eof)| == |TerminatorsRead(t, seen, n, eof)|
    ensures Join(LinesRead(t, seen, n, eof), TerminatorsRead(t, seen, n, eof)) + LeftUnread(t, seen, n, eof) == t
  {
    var k := LineCount(t, seen, n);
    var lines, terms := LinesRead(t, seen, n, eof), TerminatorsRead(t, seen, n, eof);
    LinesRestore(t, k);
    assert lines[..k] == LinesOf(t, k);
    assert terms[..k] == Terminators(t, k);
    if !eof {
      assert lines[..k] == lines;
      assert terms[..k] == terms;
    }
  }

  lemma RestHasNewline(t: seq<Byte>, k: nat)
    requires k <= CountNewlines(t)
    ensures NL in AfterLines(t, k) <==> k < CountNewlines(t)
  {
    NextLine(t, k);
    SkipToNewline(t, LineStart(t, k));
    var i := NextNewline(t, LineStart(t, k));
    if i < |t| {
      assert AfterLines(t, k)[i - LineStart(t, k)] == NL;
    } else {
      assert AfterLines(t, k) == t[LineStart(t, k)..i];
    }
  }

  /** Not every element handed out is a line. One contains a newline exactly
      when the rest of the file was added to lines that stopped short: at the
      limit, or because the first newline came in a later read. */
  lemma ElementsAreLines(t: seq<Byte>, seen: nat, n: int, eof: bool)
    ensures var limit := if n < 0 then 1000 else n;
      (forall line | line in LinesRead(t, seen, n, eof) :: NL !in line)
      <==> !(eof && CountNewlines(t) > 0 && (seen <= FirstNewline(t) || limit < CountNewlines(t)))
  {
    var k := LineCount(t, seen, n);
    var lines, terms := LinesOf(t, k), Terminators(t, k);
    LinesAreProper(t, k);
    assert forall i | 0 <= i < k :: ProperLine(lines[i], terms[i]);
    RestHasNewline(t, k);
    if eof {
      assert LinesRead(t, seen, n, eof)[k] == AfterLines(t, k);
    }
  }

  /** How many elements there are: none before the first newline was seen, all
      lines up to the limit then, and one more for the rest of the file. */
  lemma NumberOfElements(t: seq<Byte>, seen: nat, n: int, eof: bool)
    ensures var limit := if n < 0 then 1000 else n;
      |LinesRead(t, seen, n, eof)|
      == (if FirstNewline(t) >= seen then 0 else if limit <= CountNewlines(t) then limit else CountNewlines(t))
       + (if eof then 1 else 0)
  {
  }

  lemma WithinLimit(t: seq<Byte>, seen: nat, n: int, eof: bool)
    ensures |LinesRead(t, seen, n, eof)| - (if eof then 1 else 0) <= if n < 0 then 1000 else n
  {
    NumberOfElements(t, seen, n, eof);
  }

  /** The limit on the number of lines is exceeded exactly when the rest of
      the file comes on top of it. */
  lemma LimitExceeded(t: seq<Byte>, seen: nat, n: int, eof: bool)
    ensures var limit := if n < 0 then 1000 else n;
      |LinesRead(t, seen, n, eof)| > limit
      <==> eof && ((FirstNewline(t) < seen && limit <= CountNewlines(t)) || limit == 0)
  {
  }

  /** So the lines depend on how the file is split into reads: "a\nb" read at
      once, and as "a" and then "\nb". */
  lemma LinesDependOnReads()
    ensures LinesRead([97, 10, 98], 3, -1, true) == [[97], [98]]
    ensures LinesRead([97, 10, 98], 1, -1, true) == [[97, 10, 98]]
  {
    var a, b: Byte := 97, 98;
    var t := [a, NL, b];
    assert NextNewline(t, 0) == NextNewline(t, 1) == 1;
    assert t[0..1] == [a] && t[2..] == [b] && t[0..] == t;
    assert Newlines(t, 3) == 0 && Newlines(t, 2) == 0 && Newlines(t, 1) == 1 && Newlines(t, 0) == 1;
    assert LineStart(t, 0) == 0 && LineStart(t, 1) == 2;
    assert LinesOf(t, 1)[0] == LineAt(t, 0, 1) == [a];
  }

  /** What is handed out if the reader stops short of lines k and later: they
      are one last element. */
  function LinesAndRest(t: seq<Byte>, k: nat): seq<seq<Byte>> {
    LinesOf(t, k) + if LineStart(t, k) < |t| then [AfterLines(t, k)] else []
  }

  lemma {:induction false} NewlinesShift(t: seq<Byte>, at: nat, i: nat)
    requires at <= |t| && i <= |t| - at
    ensures Newlines(t[at..], i) == Newlines(t, at + i)
    decreases |t| - at - i
  {
    if i < |t| - at { NewlinesShift(t, at, i + 1); }
  }

  /** The lines after the first k. */
  lemma CountAfter(t: seq<Byte>, k: nat)
    requires k <= CountNewlines(t)
    ensures CountNewlines(AfterLines(t, k)) == CountNewlines(t) - k
  {
    NewlinesLeft(t, k);
    NewlinesShift(t, LineStart(t, k), 0);
  }

  /** The last call that the reader made: `text` was all that was left, and the
      first k lines, with those of this call, were handed out as lines. */
  ghost predicate LastCall(t: seq<Byte>, k: nat, text: seq<Byte>, seen: nat) {
    var m := LineCount(text, seen, -1);
    m <= k <= CountNewlines(t) && text == AfterLines(t, k - m)
  }

  /** One call of the reader stops short: it does not see the first newline when
      it looks for it, or there are more lines than it takes. */
  predicate Misses(text: seq<Byte>, seen: nat) {
    CountNewlines(text) > 0 && (seen <= FirstNewline(text) || 1000 < CountNewlines(text))
  }

  /** The reader stops short exactly if its last call does. */
  lemma StopsShort(t: seq<Byte>, k: nat, text: seq<Byte>, seen: nat)
    requires LastCall(t, k, text, seen)
    ensures k < CountNewlines(t) <==> Misses(text, seen)
  {
    CountAfter(t, k - LineCount(text, seen, -1));
  }

  /** A reader that stops short hands out something that is not a line. */
  lemma LinesAndRestAreLines(t: seq<Byte>, k: nat)
    requires k <= CountNewlines(t)
    ensures (forall line | line in LinesAndRest(t, k) :: NL !in line) <==> k == CountNewlines(t)
  {
    var lines, terms := LinesOf(t, k), Terminators(t, k);
    LinesAreProper(t, k);
    assert forall i | 0 <= i < k :: ProperLine(lines[i], terms[i]);
    RestHasNewline(t, k);
    if LineStart(t, k) < |t| {
      assert LinesAndRest(t, k)[k] == AfterLines(t, k);
    }
  }

  lemma AppendRest(a: seq<seq<Byte>>, b: seq<seq<Byte>>, c: seq<seq<Byte>>, rest: seq<seq<Byte>>)
    requires c == a + b
    ensures a + (b + rest) == c + rest
  {
  }

  lemma RestContinues(t: seq<Byte>, at: nat, more: seq<Byte>, x: nat)
    requires Continues(t, at, more) && at + |more| == |t| && x <= |more|
    ensures more[x..] == t[at + x..]
  {
  }

  lemma UnendedRest(t: seq<Byte>, k: nat)
    requires k <= CountNewlines(t) && Unended(t)
    ensures LineStart(t, k) < |t|
  {
    NextLine(t, k);
  }

  /** One more call of the reader, where k lines of the whole text t were
      handed out before, and the buffer now is `more`. */
  lemma AddRead(t: seq<Byte>, k: nat, more: seq<Byte>, seen: nat, n: int, eof: bool)
    requires k <= CountNewlines(t) && Continues(t, LineStart(t, k), more)
    requires eof ==> Unended(more) && LineStart(t, k) + |more| == |t|
    ensures var m := LineCount(more, seen, n);
      && k + m <= CountNewlines(t)
      && LineStart(t, k + m) == LineStart(t, k) + LineStart(more, m)
      && LinesOf(t, k) + LinesRead(more, seen, n, eof) == (if eof then LinesAndRest(t, k + m) else LinesOf(t, k + m))
      && (eof ==> LineStart(t, k + m) < |t|)
  {
    var m := LineCount(more, seen, n);
    StartsContinue(t, k, more, m);
    LinesContinue(t, k, more, m);
    var rest := if eof then [AfterLines(more, m)] else [];
    AppendRest(LinesOf(t, k), LinesOf(more, m), LinesOf(t, k + m), rest);
    if eof { AddedRest(t, k, more, m); }
  }

  /** The rest of the buffer is the rest of the text. */
  lemma AddedRest(t: seq<Byte>, k: nat, more: seq<Byte>, m: nat)
    requires Continues(t, LineStart(t, k), more) && LineStart(t, k) + |more| == |t|
    requires m <= CountNewlines(more) && Unended(more)
    requires LineStart(t, k + m) == LineStart(t, k) + LineStart(more, m)
    ensures LineStart(t, k + m) < |t| && AfterLines(more, m) == AfterLines(t, k + m)
  {
    UnendedRest(more, m);
    RestContinues(t, LineStart(t, k), more, LineStart(more, m));
  }
}
