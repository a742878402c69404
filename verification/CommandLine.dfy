/** Windows has no argument vector: the arguments of a new process are joined
    to one line, which the new process splits again. */
module CommandLine {
  import opened Common

  predicate Blank(c: char) { c == ' ' || c == '\t' }

  function Slashes(n: nat): (s: string)
    ensures |s| == n
  {
    seq(n, _ => '\\')
  }

  // ----- How the Microsoft C library splits a line -----

  /** The rest of the argument that s goes on with, and what comes after it.
      k backslashes were seen last: they are literal unless a quote follows,
      and then two of them are one, and the odd one makes the quote literal. */
  function Parse(s: string, k: nat, quoted: bool): (r: (string, string))
    ensures |r.1| <= |s|
    decreases |s|
  {
    if s == [] then (Slashes(k), [])
    else if s[0] == '\\' then Parse(s[1..], k + 1, quoted)
    else if s[0] == '"' then
      if k % 2 == 1 then
        var (x, rest) := Parse(s[1..], 0, quoted);
        (Slashes(k / 2) + ['"'] + x, rest)
      else if quoted && |s| > 1 && s[1] == '"' then
        var (x, rest) := Parse(s[2..], 0, quoted);
        (Slashes(k / 2) + ['"'] + x, rest)
      else
        var (x, rest) := Parse(s[1..], 0, !quoted);
        (Slashes(k / 2) + x, rest)
    else if !quoted && Blank(s[0]) then (Slashes(k), s)
    else
      var (x, rest) := Parse(s[1..], 0, quoted);
      (Slashes(k) + [s[0]] + x, rest)
  }

  lemma {:induction false} ParseStops(s: string, k: nat, quoted: bool)
    ensures var rest := Parse(s, k, quoted).1; rest == [] || Blank(rest[0])
    decreases |s|
  {
    if s == [] || (!quoted && Blank(s[0])) {
    } else if s[0] == '\\' {
      ParseStops(s[1..], k + 1, quoted);
    } else if s[0] == '"' {
      ParseStops(s[1..], 0, quoted);
      ParseStops(s[1..], 0, !quoted);
      if |s| > 1 { ParseStops(s[2..], 0, quoted); }
    } else {
      ParseStops(s[1..], 0, quoted);
    }
  }

  /** Split a line into arguments. */
  function Split(line: string): seq<string>
    decreases |line|, 1
  {
    if line == [] then []
    else if Blank(line[0]) then Split(line[1..])
    else SplitFirst(line)
  }

  function SplitFirst(line: string): seq<string>
    requires line != [] && !Blank(line[0])
    decreases |line|, 0
  {
    var (arg, rest) := Parse(line, 0, false);
    ParseStops(line, 0, false);
    [arg] + if rest == [] then [] else Split(rest[1..])
  }

  // ----- What quoting yields -----

  predicate NeedsQuotes(a: string) { exists c | c in a :: Blank(c) || c == '"' }

  predicate HasSpecial(a: string) { '"' in a || '\\' in a }

  /** Will a backslash right before s be followed, after more backslashes, by
      a quote? The closing quote comes at the end of s. */
  predicate QuoteHit(s: string) {
    s == [] || s[0] == '"' || (s[0] == '\\' && QuoteHit(s[1..]))
  }

  function Escaped(a: string): (s: string)
    ensures |s| <= 2 * |a|
  {
    if a == [] then []
    else (if a[0] == '"' || (a[0] == '\\' && QuoteHit(a[1..])) then ['\\', a[0]] else [a[0]]) + Escaped(a[1..])
  }

  function Quoted(a: string): (s: string)
    ensures |s| <= 2 * |a| + 2
  {
    if a == [] then ['"', '"']
    else if !NeedsQuotes(a) then a
    else ['"'] + Escaped(a) + ['"']
  }

  function Joined(args: seq<string>): string {
    if args == [] then []
    else if |args| == 1 then Quoted(args[0])
    else Quoted(args[0]) + [' '] + Joined(args[1..])
  }

  // ----- Splitting undoes quoting -----

  /** `tail` cannot belong to the argument before it. */
  predicate Ends(tail: string) { tail == [] || Blank(tail[0]) }

  lemma ParseSlash(s: string, k: nat, quoted: bool)
    ensures Parse(['\\'] + s, k, quoted) == Parse(s, k + 1, quoted)
  {
    assert (['\\'] + s)[1..] == s;
  }

  lemma ParseChar(c: char, s: string, k: nat, quoted: bool)
    requires c != '\\' && c != '"' && (quoted || !Blank(c))
    ensures var (x, rest) := Parse(s, 0, quoted); Parse([c] + s, k, quoted) == (Slashes(k) + [c] + x, rest)
  {
    assert ([c] + s)[1..] == s;
  }

  lemma ParseQuote(s: string, m: nat, quoted: bool)
    ensures var (x, rest) := Parse(s, 0, quoted);
      Parse(['"'] + s, 2 * m + 1, quoted) == (Slashes(m) + ['"'] + x, rest)
  {
    assert (['"'] + s)[1..] == s;
  }

  lemma ParseClosing(m: nat, tail: string)
    requires Ends(tail)
    ensures Parse(['"'] + tail, 2 * m, true) == (Slashes(m), tail)
  {
    assert (['"'] + tail)[1..] == tail;
    assert Parse(tail, 0, false) == ([], tail);
    assert Slashes(m) + [] == Slashes(m);
  }

  lemma AddSlash(m: nat, a: string)
    ensures Slashes(m + 1) + a == Slashes(m) + (['\\'] + a)
  {
  }

  /** Reading on after a backslash, with a quote to come, and without. */
  lemma EscapedSlashHit(a: string, k: nat, tail: string)
    requires a != [] && a[0] == '\\' && QuoteHit(a[1..])
    ensures Parse(Escaped(a) + tail, k, true) == Parse(Escaped(a[1..]) + tail, k + 2, true)
  {
    var rest := Escaped(a[1..]) + tail;
    Regroup(['\\', '\\'], Escaped(a[1..]), tail);
    assert ['\\', '\\'] + rest == ['\\'] + (['\\'] + rest);
    ParseSlash(['\\'] + rest, k, true);
    ParseSlash(rest, k + 1, true);
  }

  lemma EscapedSlashPlain(a: string, k: nat, tail: string)
    requires a != [] && a[0] == '\\' && !QuoteHit(a[1..])
    ensures Parse(Escaped(a) + tail, k, true) == Parse(Escaped(a[1..]) + tail, k + 1, true)
  {
    Regroup(['\\'], Escaped(a[1..]), tail);
    ParseSlash(Escaped(a[1..]) + tail, k, true);
  }

  lemma Regroup(a: string, b: string, c: string)
    ensures a + b + c == a + (b + c)
  {
  }

  /** Reading on after a quote. */
  lemma EscapedQuote(a: string, m: nat, tail: string, x: string, after: string)
    requires a != [] && a[0] == '"' && Parse(Escaped(a[1..]) + tail, 0, true) == (x, after)
    ensures Parse(Escaped(a) + tail, 2 * m, true) == (Slashes(m) + [a[0]] + x, after)
  {
    EscapedQuoteIs(a, tail);
    SlashQuote(Escaped(a[1..]) + tail, m, x, after);
  }

  lemma EscapedQuoteIs(a: string, tail: string)
    requires a != [] && a[0] == '"'
    ensures Escaped(a) + tail == ['\\'] + (['"'] + (Escaped(a[1..]) + tail))
  {
    Regroup(['\\', '"'], Escaped(a[1..]), tail);
  }

  lemma SlashQuote(rest: string, m: nat, x: string, after: string)
    requires Parse(rest, 0, true) == (x, after)
    ensures Parse(['\\'] + (['"'] + rest), 2 * m, true) == (Slashes(m) + ['"'] + x, after)
  {
    ParseSlash(['"'] + rest, 2 * m, true);
    ParseQuote(rest, m, true);
  }

  /** Reading on after any other character. */
  lemma EscapedOther(a: string, m: nat, tail: string, x: string, after: string)
    requires a != [] && a[0] != '\\' && a[0] != '"' && Parse(Escaped(a[1..]) + tail, 0, true) == (x, after)
    ensures Parse(Escaped(a) + tail, m, true) == (Slashes(m) + [a[0]] + x, after)
  {
    Regroup([a[0]], Escaped(a[1..]), tail);
    ParseChar(a[0], Escaped(a[1..]) + tail, m, true);
  }

  /** m backslashes of the argument were read already, and are in the line
      twice if a quote follows them. */
  lemma {:induction false} EscapedParses(a: string, m: nat, tail: string)
    requires Ends(tail)
    ensures Parse(Escaped(a) + (['"'] + tail), if QuoteHit(a) then 2 * m else m, true) == (Slashes(m) + a, tail)
  {
    var end := ['"'] + tail;
    if a == [] {
      assert Escaped(a) + end == end && Slashes(m) + a == Slashes(m);
      ParseClosing(m, tail);
    } else if a[0] == '\\' {
      EscapedParses(a[1..], m + 1, tail);
      SlashParses(a, m, end, tail);
    } else {
      EscapedParses(a[1..], 0, tail);
      assert Slashes(0) + a[1..] == a[1..];
      OtherParses(a, m, end, tail);
    }
  }

  /** Any other character of the argument, with the rest of it. */
  lemma OtherParses(a: string, m: nat, end: string, tail: string)
    requires a != [] && a[0] != '\\'
    requires Parse(Escaped(a[1..]) + end, 0, true) == (a[1..], tail)
    ensures Parse(Escaped(a) + end, if QuoteHit(a) then 2 * m else m, true) == (Slashes(m) + a, tail)
  {
    if a[0] == '"' { EscapedQuote(a, m, end, a[1..], tail); } else { EscapedOther(a, m, end, a[1..], tail); }
    AppendFirst(Slashes(m), a);
  }

  lemma AppendFirst(s: string, a: string)
    requires a != []
    ensures s + [a[0]] + a[1..] == s + a
  {
  }

  /** A backslash of the argument, with the rest of it. */
  lemma SlashParses(a: string, m: nat, end: string, tail: string)
    requires a != [] && a[0] == '\\'
    requires Parse(Escaped(a[1..]) + end, if QuoteHit(a[1..]) then 2 * m + 2 else m + 1, true)
      == (Slashes(m + 1) + a[1..], tail)
    ensures Parse(Escaped(a) + end, if QuoteHit(a) then 2 * m else m, true) == (Slashes(m) + a, tail)
  {
    if QuoteHit(a[1..]) { EscapedSlashHit(a, 2 * m, end); } else { EscapedSlashPlain(a, m, end); }
    AddSlash(m, a[1..]);
    assert ['\\'] + a[1..] == a;
  }

  lemma {:induction false} PlainParses(a: string, m: nat, tail: string)
    requires Ends(tail) && forall c | c in a :: !Blank(c) && c != '"'
    ensures Parse(a + tail, m, false) == (Slashes(m) + a, tail)
  {
    if a == [] {
      assert a + tail == tail && Slashes(m) + a == Slashes(m);
    } else {
      assert a + tail == [a[0]] + (a[1..] + tail) && a[0] in a;
      if a[0] == '\\' {
        ParseSlash(a[1..] + tail, m, false);
        PlainParses(a[1..], m + 1, tail);
        AddSlash(m, a[1..]);
        assert ['\\'] + a[1..] == a;
      } else {
        ParseChar(a[0], a[1..] + tail, m, false);
        PlainParses(a[1..], 0, tail);
        assert Slashes(m) + [a[0]] + (Slashes(0) + a[1..]) == Slashes(m) + a;
      }
    }
  }

  lemma WrappedParses(a: string, tail: string)
    requires Ends(tail)
    ensures Parse(['"'] + Escaped(a) + ['"'] + tail, 0, false) == (a, tail)
  {
    var inner := Escaped(a) + (['"'] + tail);
    assert ['"'] + Escaped(a) + ['"'] + tail == ['"'] + inner;
    ParseOpening(inner);
    EscapedParses(a, 0, tail);
    assert Slashes(0) + a == a;
  }

  lemma QuotedParses(a: string, tail: string)
    requires Ends(tail)
    ensures Parse(Quoted(a) + tail, 0, false) == (a, tail)
  {
    if a != [] && !NeedsQuotes(a) {
      PlainParses(a, 0, tail);
      assert Slashes(0) + a == a;
    } else {
      WrappedParses(a, tail);
      assert Quoted(a) == ['"'] + Escaped(a) + ['"'];
    }
  }

  /** An argument is left as it is exactly if it is not empty and has no blank
      and no quote in it. Otherwise it is put in quotes, and only quotes and
      backslashes in it are changed. */
  lemma QuotedIs(a: string)
    ensures Quoted(a) == a <==> a != [] && ' ' !in a && '\t' !in a && '"' !in a
    ensures Quoted(a) == a || Quoted(a) == ['"'] + Escaped(a) + ['"']
    ensures '"' !in a && '\\' !in a ==> Escaped(a) == a
  {
    EscapedIsLonger(a);
    if '"' !in a && '\\' !in a { NothingEscaped(a); }
    if c :| c in [' ', '\t', '"'] && c in a { assert Blank(c) || c == '"'; }
    if c :| c in a && (Blank(c) || c == '"') { assert c in [' ', '\t', '"']; }
  }

  lemma {:induction false} EscapedIsLonger(a: string)
    ensures |Escaped(a)| >= |a|
  {
    if a != [] { EscapedIsLonger(a[1..]); }
  }

  lemma QuotedStarts(a: string)
    ensures Quoted(a) != [] && !Blank(Quoted(a)[0])
  {
    assert '"' as int != ' ' as int && '"' as int != '\t' as int;
    if a != [] && !NeedsQuotes(a) { assert a[0] in a; }
  }

  lemma ParseOpening(s: string)
    ensures Parse(['"'] + s, 0, false) == Parse(s, 0, true)
  {
    assert (['"'] + s)[1..] == s;
    assert forall x: string :: Slashes(0) + x == x;
  }

  /** Whatever the arguments are, the new process gets exactly these. */
  lemma {:induction false} SplitUndoesJoin(args: seq<string>)
    ensures Split(Joined(args)) == args
  {
    if args != [] {
      var tail := if |args| == 1 then [] else [' '] + Joined(args[1..]);
      assert Joined(args) == Quoted(args[0]) + tail;
      QuotedParses(args[0], tail);
      QuotedStarts(args[0]);
      SplitUndoesJoin(args[1..]);
      assert tail != [] ==> tail[1..] == Joined(args[1..]);
      assert Split(Joined(args)) == SplitFirst(Joined(args));
    }
  }

  // ----- How the line is built -----

  function Reverse(s: string): (r: string)
    ensures |r| == |s|
  {
    seq(|s|, i requires 0 <= i < |s| => s[|s| - 1 - i])
  }

  /** wcsrev: reverse the string that starts at `from` and ends before the
      first NUL. */
  method WcsReverse(dst: array<char>, from: nat, ghost end: nat)
    requires from <= end < dst.Length && dst[end] == NUL && forall m | from <= m < end :: dst[m] != NUL
    modifies dst
    ensures dst[..end] == old(dst[..from]) + Reverse(old(dst[from..end]))
  {
    var i, j := from, from;
    while dst[j] != NUL
      invariant from <= j <= end
      decreases end - j
    {
      j := j + 1;
    }
    ghost var was := dst[..];
    while i < j
      invariant from <= i && j <= end && i + j == from + end && i <= j + 1
      invariant dst[..from] == was[..from]
      invariant forall m | from <= m < i || j <= m < end :: dst[m] == was[from + end - 1 - m]
      invariant forall m | i <= m < j :: dst[m] == was[m]
    {
      j := j - 1;
      if i < j { dst[i], dst[j] := dst[j], dst[i]; }
      i := i + 1;
    }
    assert forall m | from <= m < end :: dst[m] == was[from..end][end - 1 - m];
    assert dst[..end] == was[..from] + Reverse(was[from..end]);
  }

  /** Quote one argument at `pos`. Where it needs escapes, it is written from
      its last character to its first, and reversed then. */
  method QuoteCmdArg(source: string, dst: array<char>, pos: nat) returns (next: nat)
    requires NUL !in source && pos + 2 * |source| + 2 <= dst.Length
    modifies dst
    ensures next <= pos + 2 * |source| + 2 && dst[..next] == old(dst[..pos]) + Quoted(source)
  {
    if |source| == 0 {
      next := Write(dst, pos, ['"', '"']);
      return;
    }
    if !NeedsQuotes(source) {
      next := Write(dst, pos, source);
      return;
    }
    if !HasSpecial(source) {
      NothingEscaped(source);
      next := Write(dst, pos, ['"'] + source + ['"']);
      return;
    }
    next := WriteWrapped(source, dst, pos);
  }

  method WriteWrapped(source: string, dst: array<char>, pos: nat) returns (next: nat)
    requires NUL !in source && pos + 2 * |source| + 2 <= dst.Length
    modifies dst
    ensures next <= pos + 2 * |source| + 2
    ensures dst[..next] == old(dst[..pos]) + (['"'] + Escaped(source) + ['"'])
  {
    ghost var before := dst[..pos];
    var start := Write(dst, pos, ['"']);
    next := WriteEscaped(source, dst, start);
    assert dst[..next] == before + ['"'] + Escaped(source);
    next := Write(dst, next, ['"']);
    assert before + ['"'] + Escaped(source) + ['"'] == before + (['"'] + Escaped(source) + ['"']);
  }

  /** Write the escaped form of the source. One character after it is used for
      the end of the string. */
  method WriteEscaped(source: string, dst: array<char>, start: nat) returns (next: nat)
    requires NUL !in source && start + 2 * |source| < dst.Length
    modifies dst
    ensures start <= next <= start + 2 * |source|
    ensures dst[..next] == old(dst[..start]) + Escaped(source)
  {
    next := WriteEscapedBackwards(source, dst, start);
    Parts(dst[..], start, next, old(dst[..start]), Reverse(Escaped(source)));
    EscapedHasNoNul(source);
    ReversedHasNot(Escaped(source), NUL);
    ReverseTwice(Escaped(source));
    ReverseInPlace(dst, start, next, Reverse(Escaped(source)));
  }

  lemma Parts(s: string, start: nat, next: nat, a: string, b: string)
    requires start <= next <= |s| && s[..next] == a + b && |a| == start
    ensures s[..start] == a && s[start..next] == b
  {
    assert s[..next][..start] == s[..start] && s[..next][start..] == s[start..next];
  }

  lemma ReversedHasNot(s: string, c: char)
    requires c !in s
    ensures forall m | 0 <= m < |s| :: Reverse(s)[m] != c
  {
    forall m | 0 <= m < |s| ensures Reverse(s)[m] != c {
      assert s[|s| - 1 - m] in s;
    }
  }

  /** End the string that was written at `start`, and reverse it. */
  method ReverseInPlace(dst: array<char>, start: nat, next: nat, ghost text: string)
    requires start <= next < dst.Length && dst[start..next] == text
    requires forall m | 0 <= m < |text| :: text[m] != NUL
    modifies dst
    ensures dst[..next] == old(dst[..start]) + Reverse(text)
  {
    dst[next] := NUL;
    assert dst[start..next] == text && dst[..start] == old(dst[..start]);
    assert forall m | start <= m < next :: dst[m] == text[m - start];
    WcsReverse(dst, start, next);
  }

  /** Write the escaped form of the source, from its last character on. */
  method WriteEscapedBackwards(source: string, dst: array<char>, start: nat) returns (next: nat)
    requires start + 2 * |source| <= dst.Length
    modifies dst
    ensures start <= next <= start + 2 * |source|
    ensures dst[..next] == old(dst[..start]) + Reverse(Escaped(source))
  {
    next := start;
    var quoteHit := true;
    var i := |source|;
    ghost var suffix: string := [];
    while i > 0
      invariant 0 <= i <= |source| && suffix == source[i..] && quoteHit == QuoteHit(suffix)
      invariant start <= next <= start + 2 * (|source| - i)
      invariant dst[..next] == old(dst[..start]) + Reverse(Escaped(suffix))
    {
      var c := source[i - 1];
      OneMoreEscaped(c, suffix);
      if quoteHit && c == '\\' {
        next := Write(dst, next, [c, '\\']);
      } else if c == '"' {
        quoteHit := true;
        next := Write(dst, next, [c, '\\']);
      } else {
        quoteHit := false;
        next := Write(dst, next, [c]);
      }
      suffix := [c] + suffix;
      i := i - 1;
    }
    assert suffix == source;
  }

  lemma OneMoreEscaped(c: char, suffix: string)
    ensures Reverse(Escaped([c] + suffix))
         == Reverse(Escaped(suffix)) + if c == '"' || (c == '\\' && QuoteHit(suffix)) then [c, '\\'] else [c]
  {
    assert ([c] + suffix)[1..] == suffix;
  }

  lemma ReverseTwice(s: string)
    ensures Reverse(Reverse(s)) == s
  {
  }

  function SumLengths(args: seq<string>): nat {
    if args == [] then 0 else |args[0]| + 1 + SumLengths(args[1..])
  }

  /** What is written for the arguments: each one, quoted or as it is, and a
      blank after it, or the end of the string after the last one. */
  function Written(args: seq<string>, verbatim: bool): string {
    if args == [] then [] else
    (if verbatim then args[0] else Quoted(args[0])) + [if |args| > 1 then ' ' else NUL] + Written(args[1..], verbatim)
  }

  lemma {:induction false} WrittenIsJoined(args: seq<string>)
    requires args != []
    ensures Written(args, false) == Joined(args) + [NUL]
  {
    if |args| == 1 {
      assert args[1..] == [];
      assert Written(args, false) == Quoted(args[0]) + [NUL] + [];
    } else {
      WrittenIsJoined(args[1..]);
    }
  }

  /** Write one argument at `pos`, and the blank or the end after it. */
  method WriteArg(arg: string, verbatim: bool, last: bool, dst: array<char>, pos: nat) returns (next: nat)
    requires NUL !in arg && pos + 2 * (|arg| + 1) + 2 <= dst.Length
    modifies dst
    ensures next <= pos + 2 * (|arg| + 1) + 2
    ensures dst[..next] == old(dst[..pos]) + (if verbatim then arg else Quoted(arg)) + [if last then NUL else ' ']
  {
    if verbatim {
      next := Write(dst, pos, arg);
    } else {
      next := QuoteCmdArg(arg, dst, pos);
    }
    next := Write(dst, next, [if last then NUL else ' ']);
  }

  method WriteArgs(args: seq<string>, verbatim: bool, dst: array<char>) returns (len: nat)
    requires forall a | a in args :: NUL !in a
    requires SumLengths(args) * 2 + |args| * 2 <= dst.Length
    modifies dst
    ensures len <= dst.Length && dst[..len] == Written(args, verbatim)
  {
    len := 0;
    ghost var rest := args;
    for i := 0 to |args|
      invariant rest == args[i..] && len + SumLengths(rest) * 2 + |rest| * 2 <= dst.Length
      invariant dst[..len] + Written(rest, verbatim) == Written(args, verbatim)
    {
      ghost var before, arg := dst[..len], if verbatim then args[i] else Quoted(args[i]);
      assert rest[0] == args[i] && args[i] in args;
      len := WriteArg(args[i], verbatim, i == |args| - 1, dst, len);
      rest := rest[1..];
      AppendMore(before, arg, [if i < |args| - 1 then ' ' else NUL], Written(rest, verbatim));
    }
    assert dst[..len] + [] == dst[..len];
  }

  lemma WrittenSplits(args: seq<string>)
    requires args != [] && forall a | a in args :: NUL !in a
    ensures var line := Written(args, false);
      line != [] && line[|line| - 1] == NUL && Split(line[..|line| - 1]) == args
  {
    WrittenIsJoined(args);
    SplitUndoesJoin(args);
    assert (Joined(args) + [NUL])[..|Joined(args)|] == Joined(args);
  }

  lemma LastOfPart(s: string, len: nat)
    requires 0 < len <= |s|
    ensures s[..len - 1] == s[..len][..len - 1] && s[len - 1] == s[..len][len - 1]
  {
  }

  /** The characters of all arguments, with a NUL after each. */
  method CountChars(args: seq<string>) returns (dstLen: nat)
    ensures dstLen == SumLengths(args)
  {
    dstLen := 0;
    ghost var rest := args;
    for i := 0 to |args|
      invariant rest == args[i..] && dstLen + SumLengths(rest) == SumLengths(args)
    {
      dstLen := dstLen + |args[i]| + 1;
      rest := rest[1..];
    }
  }

  /** Build the line for all arguments, in a buffer that is large enough for
      the worst of them. The new process splits it into just these. */
  method MakeProgramArgs(args: seq<string>, verbatim: bool) returns (dst: array<char>, ghost len: nat)
    requires forall a | a in args :: NUL !in a
    ensures fresh(dst) && len <= dst.Length == SumLengths(args) * 2 + |args| * 2
    ensures dst[..len] == Written(args, verbatim)
    ensures args != [] && !verbatim ==> len > 0 && dst[len - 1] == NUL && Split(dst[..len - 1]) == args
  {
    var dstLen := CountChars(args);
    dst := new char[dstLen * 2 + |args| * 2](_ => NUL);
    var n := WriteArgs(args, verbatim, dst);
    len := n;
    if args != [] && !verbatim {
      WrittenSplits(args);
      LastOfPart(dst[..], len);
    }
  }

  lemma AppendMore(a: string, b: string, c: string, d: string)
    ensures a + (b + c + d) == a + b + c + d
  {
  }

  lemma InRest(a: string, c: char)
    requires a != []
    ensures a[0] == c || c in a[1..] ==> c in a
  {
    if c in a[1..] {
      var k :| 0 <= k < |a| - 1 && a[1..][k] == c;
      assert a[k + 1] == c;
    }
  }

  lemma {:induction false} NothingEscaped(a: string)
    requires !HasSpecial(a)
    ensures Escaped(a) == a
  {
    if a != [] {
      InRest(a, '"');
      InRest(a, '\\');
      NothingEscaped(a[1..]);
    }
  }

  lemma {:induction false} EscapedHasNoNul(a: string)
    requires NUL !in a
    ensures NUL !in Escaped(a)
  {
    if a != [] {
      InRest(a, NUL);
      EscapedHasNoNul(a[1..]);
    }
  }
}
