/** Bytes, UTF-8 characters (section 4 of RFC 3629) and the converter that a
    connection feeds its raw bytes to. The converter is one step at a time:
    it looks at the front of the input and reports a character, an invalid
    byte, or that the input ends inside a character. */
module Codec {

  type Byte = x: int | 0 <= x < 256

  const NL: Byte := 10
  const CR: Byte := 13

  datatype Step =
    | Char(used: nat, out: seq<Byte>)  // `used` input bytes become `out`
    | Invalid                          // EILSEQ
    | Incomplete                       // EINVAL

  type Decoder = seq<Byte> -> Step

  // Bounds of one conversion step, whatever the encoding.
  const MAX_OUT: nat := 8
  const MAX_IN: nat := 16

  /** One step uses up part of the input and yields at least one whole
      character; only a short input can be incomplete. */
  ghost predicate StepOk(step: Decoder, x: seq<Byte>)
    requires x != []
  {
    match step(x)
    case Char(n, out) => 1 <= n <= |x| && 1 <= |out| <= MAX_OUT && Whole(out)
    case Invalid => true
    case Incomplete => |x| < MAX_IN
  }

  /** A verdict other than "incomplete" stands whatever bytes follow. */
  ghost predicate Stable(step: Decoder, x: seq<Byte>, y: seq<Byte>) {
    x != [] && !step(x).Incomplete? ==> step(x + y) == step(x)
  }

  /** What is assumed of the encoding: it is stateless, and every step is as
      above. */
  ghost predicate Sound(step: Decoder) {
    && (forall x: seq<Byte> | x != [] :: StepOk(step, x))
    && (forall x: seq<Byte>, y: seq<Byte> :: Stable(step, x, y))
  }

  /** The text of a whole stream: an invalid byte is dropped, and so is an
      incomplete character at the end of the stream. */
  ghost function Decode(step: Decoder, x: seq<Byte>): seq<Byte>
    requires Sound(step)
  {
    if x == [] then [] else
    assert StepOk(step, x);
    match step(x)
    case Char(n, out) => out + Decode(step, x[n..])
    case Invalid => Decode(step, x[1..])
    case Incomplete => []
  }

  /** Whatever bytes are still to come, one step of the converter is one step
      of `Decode`. */
  lemma DecodeStep(step: Decoder, x: seq<Byte>, rest: seq<Byte>)
    requires Sound(step) && x != []
    ensures StepOk(step, x)
    ensures step(x).Char? ==> Decode(step, x + rest) == step(x).out + Decode(step, x[step(x).used..] + rest)
    ensures step(x).Invalid? ==> Decode(step, x + rest) == Decode(step, x[1..] + rest)
    ensures step(x).Incomplete? && rest == [] ==> Decode(step, x + rest) == []
  {
    assert StepOk(step, x) && Stable(step, x, rest);
    assert x + [] == x;
    assert (x + rest)[1..] == x[1..] + rest;
    if step(x).Char? {
      assert (x + rest)[step(x).used..] == x[step(x).used..] + rest;
    }
  }

  /** A converted character, moved behind the text so far. */
  lemma DecodeChar(step: Decoder, text: seq<Byte>, x: seq<Byte>, rest: seq<Byte>)
    requires Sound(step) && x != [] && step(x).Char? && Whole(text)
    ensures StepOk(step, x) && Whole(text + step(x).out)
    ensures text + Decode(step, x + rest) == text + step(x).out + Decode(step, x[step(x).used..] + rest)
  {
    DecodeStep(step, x, rest);
    WholeAppend(text, step(x).out);
  }

  // ----- UTF-8 text -----

  /** Number of bytes of the character with this first byte, 0 if none. */
  function CharLength(lead: Byte): nat {
    if lead < 0x80 then 1
    else if 0xC2 <= lead <= 0xDF then 2
    else if 0xE0 <= lead <= 0xEF then 3
    else if 0xF0 <= lead <= 0xF4 then 4
    else 0
  }

  predicate Continuation(b: Byte) { 0x80 <= b <= 0xBF }

  /** May b follow this first byte? No overlong forms, no surrogates. */
  predicate Second(lead: Byte, b: Byte) {
    && Continuation(b)
    && (lead == 0xE0 ==> 0xA0 <= b)
    && (lead == 0xED ==> b <= 0x9F)
    && (lead == 0xF0 ==> 0x90 <= b)
    && (lead == 0xF4 ==> b <= 0x8F)
  }

  /** Is c a nonempty beginning of a well-formed character? */
  predicate Beginning(c: seq<Byte>) {
    && 0 < |c| <= CharLength(c[0])
    && (1 < |c| ==> Second(c[0], c[1]))
    && (forall i | 2 <= i < |c| :: Continuation(c[i]))
  }

  predicate WellFormed(c: seq<Byte>) {
    Beginning(c) && |c| == CharLength(c[0])
  }

  /** Whole characters only. */
  ghost predicate Whole(t: seq<Byte>) {
    t == [] ||
    (CharLength(t[0]) <= |t| && WellFormed(t[..CharLength(t[0])]) && Whole(t[CharLength(t[0])..]))
  }

  ghost function NumChars(t: seq<Byte>): nat
    requires Whole(t)
  {
    if t == [] then 0 else 1 + NumChars(t[CharLength(t[0])..])
  }

  lemma {:induction false} WholeAppend(a: seq<Byte>, b: seq<Byte>)
    requires Whole(a) && Whole(b)
    ensures Whole(a + b) && NumChars(a + b) == NumChars(a) + NumChars(b)
  {
    if a == [] {
      assert a + b == b;
    } else {
      var n, ab := CharLength(a[0]), a + b;
      assert ab[0] == a[0];
      assert ab[..n] == a[..n];
      assert ab[n..] == a[n..] + b;
      WholeAppend(a[n..], b);
    }
  }

  lemma {:induction false} WholeSplit(a: seq<Byte>, b: seq<Byte>)
    requires Whole(a) && Whole(a + b)
    ensures Whole(b)
  {
    if a == [] {
      assert a + b == b;
    } else {
      var n := CharLength(a[0]);
      assert (a + b)[n..] == a[n..] + b;
      WholeSplit(a[n..], b);
    }
  }

  /** Step over one character. */
  lemma NextChar(t: seq<Byte>, at: nat)
    requires at < |t| && Whole(t[..at]) && Whole(t[at..])
    ensures var n := CharLength(t[at]);
            && 0 < n <= |t| - at && Whole(t[..at + n]) && Whole(t[at + n..])
            && NumChars(t[..at + n]) == NumChars(t[..at]) + 1
  {
    var rest := t[at..];
    assert rest[0] == t[at];
    var c := rest[..CharLength(rest[0])];
    assert c[..|c|] == c && c[|c|..] == [];
    WholeAppend(t[..at], c);
    assert t[..at] + c == t[..at + |c|] && rest[|c|..] == t[at + |c|..];
  }

  // ----- Limits on what is taken from the front of a text -----

  /** Is c within the limits? A negative number is no limit. */
  ghost predicate Allowed(c: seq<Byte>, maxChars: int, maxBytes: int)
    requires Whole(c)
  {
    (maxChars >= 0 ==> NumChars(c) <= maxChars) && (maxBytes >= 0 ==> |c| <= maxBytes)
  }

  /** The first n bytes of t are its longest beginning of whole characters
      that is within the limits. */
  ghost predicate Longest(t: seq<Byte>, maxChars: int, maxBytes: int, n: nat) {
    && n <= |t| && Whole(t[..n]) && Allowed(t[..n], maxChars, maxBytes)
    && (forall m | n < m <= |t| && Whole(t[..m]) :: !Allowed(t[..m], maxChars, maxBytes))
  }

  /** With a limit k on characters, exactly min(k, available) are taken. */
  lemma LongestChars(t: seq<Byte>, k: nat, n: nat)
    requires Whole(t) && Longest(t, k, -1, n)
    ensures NumChars(t[..n]) == if k <= NumChars(t) then k else NumChars(t)
  {
    assert t == t[..n] + t[n..] && t[..|t|] == t;
    WholeSplit(t[..n], t[n..]);
    WholeAppend(t[..n], t[n..]);
    if n < |t| {
      NextChar(t, n);
    }
  }

  /** With no limit, all is taken; with room for the longest character,
      something is. */
  lemma LongestProgress(t: seq<Byte>, maxBytes: int, n: nat)
    requires Whole(t) && Longest(t, -1, maxBytes, n)
    ensures maxBytes < 0 ==> n == |t|
    ensures maxBytes >= 4 && t != [] ==> n > 0
  {
    assert t[..|t|] == t;
    if t != [] {
      assert t[..0] == [] && t[0..] == t;
      NextChar(t, 0);
      assert Allowed(t[..CharLength(t[0])], -1, 4);
    }
  }

  /** A character more is over the limit, so whatever is longer is, too. */
  lemma LongestIfNextIsOver(t: seq<Byte>, maxChars: int, maxBytes: int, n: nat)
    requires Whole(t) && n <= |t| && Whole(t[..n]) && Allowed(t[..n], maxChars, maxBytes)
    requires n < |t| ==> CharLength(t[n]) > 0
    requires n < |t| ==>
      NumChars(t[..n]) == maxChars || (maxBytes >= 0 && n + CharLength(t[n]) > maxBytes)
    ensures Longest(t, maxChars, maxBytes, n)
  {
    forall m | n < m <= |t| && Whole(t[..m])
      ensures !Allowed(t[..m], maxChars, maxBytes)
    {
      assert t[..m] == t[..n] + t[n..m];
      WholeSplit(t[..n], t[n..m]);
      WholeAppend(t[..n], t[n..m]);
    }
  }

  lemma WholeCons(t: seq<Byte>, m: nat)
    requires t != [] && 0 < CharLength(t[0]) <= m <= |t|
    requires WellFormed(t[..CharLength(t[0])]) && Whole(t[CharLength(t[0])..m])
    ensures Whole(t[..m])
  {
    var n := CharLength(t[0]);
    assert t[..m][..n] == t[..n] && t[..m][n..] == t[n..m];
  }

  /** Only the first byte of a character can be ASCII. */
  lemma AsciiIsBoundary(t: seq<Byte>, i: nat)
    requires Whole(t) && i < |t| && t[i] < 0x80
    ensures i == 0 ==> CharLength(t[0]) == 1
    ensures i > 0 ==> CharLength(t[0]) <= i
  {
    var c := t[..CharLength(t[0])];
    assert i < |c| ==> c[i] == t[i];
  }

  lemma SliceOfRest(t: seq<Byte>, n: nat, i: nat)
    requires n <= i < |t|
    ensures t[n..][..i - n] == t[n..i] && t[n..][..i - n + 1] == t[n..i + 1] && t[n..][i - n + 1..] == t[i + 1..]
  {
  }

  /** An ASCII byte of a text is a character of its own, so a text may be cut
      before and after it. */
  lemma {:induction false} WholeCutAtAscii(t: seq<Byte>, i: nat)
    requires Whole(t) && i < |t| && t[i] < 0x80
    ensures Whole(t[..i]) && Whole(t[..i + 1]) && Whole(t[i + 1..])
  {
    AsciiIsBoundary(t, i);
    var n := CharLength(t[0]);
    if i == 0 {
      assert t[1..1] == [];
      WholeCons(t, 1);
    } else {
      WholeCutAtAscii(t[n..], i - n);
      SliceOfRest(t, n, i);
      WholeCons(t, i);
      WholeCons(t, i + 1);
    }
  }

  // ----- The UTF-8 converter -----

  function Utf8Step(x: seq<Byte>): Step {
    if x == [] then Incomplete else
    var n := CharLength(x[0]);
    if n == 0 then Invalid
    else if n <= |x| then
      if WellFormed(x[..n]) then Char(n, x[..n]) else Invalid
    else if Beginning(x) then Incomplete else Invalid
  }

  lemma Utf8IsSound()
    ensures Sound(Utf8Step)
  {
    forall x: seq<Byte> | x != [] ensures StepOk(Utf8Step, x) {
      if Utf8Step(x).Char? {
        var out := Utf8Step(x).out;
        assert out[..CharLength(out[0])] == out;
      }
    }
    forall x: seq<Byte>, y: seq<Byte> ensures Stable(Utf8Step, x, y) {
      if x != [] && !Utf8Step(x).Incomplete? { Utf8Stable(x, y); }
    }
  }

  lemma Utf8Stable(x: seq<Byte>, y: seq<Byte>)
    requires x != [] && !Utf8Step(x).Incomplete?
    ensures Utf8Step(x + y) == Utf8Step(x)
  {
    var n := CharLength(x[0]);
    if n <= |x| {
      assert (x + y)[..n] == x[..n];
    } else if n <= |x + y| {
      var c := (x + y)[..n];
      assert forall i | 0 <= i < |x| :: c[i] == x[i];
    } else {
      assert forall i | 0 <= i < |x| :: (x + y)[i] == x[i];
    }
  }

  /** Text that is already UTF-8 is decoded to itself. */
  lemma {:induction false} Utf8DecodesToItself(t: seq<Byte>)
    requires Whole(t)
    ensures Sound(Utf8Step) && Decode(Utf8Step, t) == t
  {
    Utf8IsSound();
    if t != [] {
      var n := CharLength(t[0]);
      Utf8DecodesToItself(t[n..]);
      assert t == t[..n] + t[n..];
    }
  }

  /** Decoded text is whole characters, whatever the input. */
  lemma {:induction false} DecodedIsWhole(step: Decoder, x: seq<Byte>)
    requires Sound(step)
    ensures Whole(Decode(step, x))
    decreases |x|
  {
    if x != [] {
      assert StepOk(step, x);
      match step(x) {
        case Char(n, out) =>
          DecodedIsWhole(step, x[n..]);
          WholeAppend(out, Decode(step, x[n..]));
        case Invalid => DecodedIsWhole(step, x[1..]);
        case Incomplete =>
      }
    }
  }
}
