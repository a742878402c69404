/** UTF-8 from the numbers of the characters (section 3 of RFC 3629), and what
    the converter for it makes of any bytes. */
module Utf8 {
  import opened Codec

  /** The number of a character. Surrogates are not characters. */
  type Scalar = v: int | 0 <= v < 0xD800 || 0xDFFF < v <= 0x10FFFF

  /** Six bits of a number in each byte, the highest first. */
  function Encode(v: Scalar): (c: seq<Byte>)
    ensures 1 <= |c| <= 4
  {
    if v < 0x80 then [v]
    else if v < 0x800 then [0xC0 + v / 64, 0x80 + v % 64]
    else if v < 0x10000 then [0xE0 + v / 4096, 0x80 + v / 64 % 64, 0x80 + v % 64]
    else [0xF0 + v / 262144, 0x80 + v / 4096 % 64, 0x80 + v / 64 % 64, 0x80 + v % 64]
  }

  function Number(c: seq<Byte>): int
    requires 1 <= |c| <= 4
  {
    var lead: int, low: int := c[0], c[|c| - 1];
    if |c| == 1 then lead else
    var second: int := c[1];
    if |c| == 2 then (lead - 0xC0) * 64 + (low - 0x80) else
    var third: int := c[2];
    if |c| == 3 then (lead - 0xE0) * 4096 + (second - 0x80) * 64 + (low - 0x80)
    else (lead - 0xF0) * 262144 + (second - 0x80) * 4096 + (third - 0x80) * 64 + (low - 0x80)
  }

  lemma Digits2(a: nat, b: nat)
    requires b < 64
    ensures (a * 64 + b) / 64 == a && (a * 64 + b) % 64 == b
  {
  }

  lemma Digits3(a: nat, b: nat, c: nat)
    requires b < 64 && c < 64
    ensures var v := a * 4096 + b * 64 + c; v / 4096 == a && v / 64 % 64 == b && v % 64 == c
  {
    Digits2(a * 64 + b, c);
    Digits2(a, b);
  }

  lemma Digits4(a: nat, b: nat, c: nat, d: nat)
    requires b < 64 && c < 64 && d < 64
    ensures var v := a * 262144 + b * 4096 + c * 64 + d;
      v / 262144 == a && v / 4096 % 64 == b && v / 64 % 64 == c && v % 64 == d
  {
    Digits3(a * 64 + b, c, d);
    Digits2(a, b);
  }

  lemma NumberEncodes(c: seq<Byte>)
    requires WellFormed(c)
    ensures |c| <= 4
    ensures var v := Number(c); (0 <= v < 0xD800 || 0xDFFF < v <= 0x10FFFF) && Encode(v) == c
  {
    var lead: int, low: int := c[0], c[|c| - 1];
    if |c| == 2 {
      Digits2(lead - 0xC0, low - 0x80);
    } else if |c| == 3 {
      var second: int := c[1];
      Digits3(lead - 0xE0, second - 0x80, low - 0x80);
    } else if |c| == 4 {
      var second: int, third: int := c[1], c[2];
      Digits4(lead - 0xF0, second - 0x80, third - 0x80, low - 0x80);
    }
  }

  lemma Encoded3(v: Scalar)
    requires 0x800 <= v < 0x10000
    ensures WellFormed(Encode(v)) && |Encode(v)| == 3 && Number(Encode(v)) == v
  {
    var x := v / 64;
    assert v == x * 64 + v % 64 && x == v / 4096 * 64 + x % 64;
  }

  lemma Encoded4(v: Scalar)
    requires 0x10000 <= v
    ensures WellFormed(Encode(v)) && |Encode(v)| == 4 && Number(Encode(v)) == v
  {
    var x := v / 64;
    var y := x / 64;
    assert v / 4096 == y && v / 262144 == y / 64;
    assert v == x * 64 + v % 64 && x == y * 64 + x % 64 && y == y / 64 * 64 + y % 64;
  }

  lemma EncodeIsWellFormed(v: Scalar)
    ensures WellFormed(Encode(v)) && Number(Encode(v)) == v
  {
    if v >= 0x10000 { Encoded4(v); } else if v >= 0x800 { Encoded3(v); }
  }

  /** The well-formed byte sequences are the encodings of the characters. */
  lemma WellFormedIs(c: seq<Byte>)
    ensures WellFormed(c) <==> exists v: Scalar :: c == Encode(v)
  {
    if WellFormed(c) {
      NumberEncodes(c);
      var v: Scalar := Number(c);
      assert c == Encode(v);
    }
    forall v: Scalar | c == Encode(v) ensures WellFormed(c) {
      EncodeIsWellFormed(v);
    }
  }

  // ----- The converter -----

  /** x begins with a character. */
  ghost predicate Starts(x: seq<Byte>) { exists v: Scalar :: Encode(v) <= x }

  /** x ends before its first character does. */
  ghost predicate Cut(x: seq<Byte>) { exists v: Scalar :: x < Encode(v) }

  lemma Complete(x: seq<Byte>) returns (c: seq<Byte>)
    requires Beginning(x) && |x| < CharLength(x[0])
    ensures WellFormed(c) && x < c
  {
    var second: Byte := if |x| > 1 then x[1] else if x[0] == 0xE0 then 0xA0 else if x[0] == 0xF0 then 0x90 else 0x80;
    var third: Byte := if |x| > 2 then x[2] else 0x80;
    c := [x[0], second, third, 0x80][..CharLength(x[0])];
  }

  lemma CutIs(x: seq<Byte>)
    requires x != []
    ensures Cut(x) <==> Beginning(x) && |x| < CharLength(x[0])
  {
    if Beginning(x) && |x| < CharLength(x[0]) {
      var c := Complete(x);
      WellFormedIs(c);
    }
    forall v: Scalar | x < Encode(v) ensures Beginning(x) && |x| < CharLength(x[0]) {
      EncodeIsWellFormed(v);
    }
  }

  lemma StepAtChar(x: seq<Byte>, v: Scalar)
    requires Encode(v) <= x
    ensures Utf8Step(x) == Char(|Encode(v)|, Encode(v))
  {
    EncodeIsWellFormed(v);
    assert x[..|Encode(v)|] == Encode(v);
  }

  /** A character is converted to itself. The input is incomplete exactly if it
      ends inside a character, and otherwise its first byte is invalid. */
  lemma StepIs(x: seq<Byte>)
    requires x != []
    ensures Utf8Step(x).Char? <==> Starts(x)
    ensures forall v: Scalar | Encode(v) <= x :: Utf8Step(x) == Char(|Encode(v)|, Encode(v))
    ensures Utf8Step(x).Incomplete? <==> Cut(x)
  {
    CutIs(x);
    forall v: Scalar | Encode(v) <= x ensures Utf8Step(x) == Char(|Encode(v)|, Encode(v)) {
      StepAtChar(x, v);
    }
    if Utf8Step(x).Char? {
      WellFormedIs(Utf8Step(x).out);
      assert Utf8Step(x).out <= x;
    }
  }

  // ----- Whole streams -----

  function EncodeAll(vs: seq<Scalar>): seq<Byte> {
    if vs == [] then [] else Encode(vs[0]) + EncodeAll(vs[1..])
  }

  /** A stream of characters and bytes that are none, piece by piece. */
  datatype Piece = Good(v: Scalar) | Bad(b: Byte)

  /** x is these pieces, and maybe the beginning of a character at its end. A
      byte is bad where neither a character nor the beginning of one is. */
  ghost predicate IsRead(x: seq<Byte>, pieces: seq<Piece>)
    decreases |pieces|
  {
    if pieces == [] then x == [] || Cut(x) else
    match pieces[0]
    case Good(v) => Encode(v) <= x && IsRead(x[|Encode(v)|..], pieces[1..])
    case Bad(b) => x != [] && x[0] == b && !Starts(x) && !Cut(x) && IsRead(x[1..], pieces[1..])
  }

  function Scalars(pieces: seq<Piece>): seq<Scalar> {
    if pieces == [] then []
    else if pieces[0].Good? then [pieces[0].v] + Scalars(pieces[1..])
    else Scalars(pieces[1..])
  }

  /** There is a way to read any bytes. */
  lemma Readable(x: seq<Byte>) returns (pieces: seq<Piece>)
    ensures IsRead(x, pieces)
    decreases |x|
  {
    if x == [] || Cut(x) {
      pieces := [];
    } else if Starts(x) {
      var v: Scalar :| Encode(v) <= x;
      var rest := Readable(x[|Encode(v)|..]);
      pieces := [Good(v)] + rest;
    } else {
      var rest := Readable(x[1..]);
      pieces := [Bad(x[0])] + rest;
    }
  }

  /** The text of a stream is its characters, in order, and nothing for bad
      bytes and a character that is cut off. */
  lemma {:induction false} Utf8Decoded(x: seq<Byte>, pieces: seq<Piece>)
    requires IsRead(x, pieces)
    ensures Sound(Utf8Step) && Decode(Utf8Step, x) == EncodeAll(Scalars(pieces))
    decreases |pieces|
  {
    Utf8IsSound();
    if x != [] { StepIs(x); }
    if pieces != [] {
      match pieces[0] {
        case Good(v) => Utf8Decoded(x[|Encode(v)|..], pieces[1..]);
        case Bad(_) => Utf8Decoded(x[1..], pieces[1..]);
      }
    }
  }

  lemma {:induction false} EncodedIsWhole(vs: seq<Scalar>)
    ensures Whole(EncodeAll(vs)) && NumChars(EncodeAll(vs)) == |vs|
  {
    if vs != [] {
      EncodedIsWhole(vs[1..]);
      EncodeIsWellFormed(vs[0]);
      var t := EncodeAll(vs);
      assert t[..|Encode(vs[0])|] == Encode(vs[0]) && t[|Encode(vs[0])|..] == EncodeAll(vs[1..]);
    }
  }

  lemma {:induction false} WholeIsEncoded(t: seq<Byte>) returns (vs: seq<Scalar>)
    requires Whole(t)
    ensures t == EncodeAll(vs)
  {
    if t == [] { return []; }
    var c := t[..CharLength(t[0])];
    NumberEncodes(c);
    var v: Scalar := Number(c);
    var rest := WholeIsEncoded(t[|c|..]);
    vs := [v] + rest;
    assert t == c + t[|c|..];
  }

  /** Whole text is the encoding of some characters, that many, and it is
      decoded to itself. */
  lemma WholeIs(t: seq<Byte>)
    ensures Whole(t) <==> exists vs: seq<Scalar> :: t == EncodeAll(vs)
    ensures forall vs: seq<Scalar> | t == EncodeAll(vs) ::
      Whole(t) && NumChars(t) == |vs| && Sound(Utf8Step) && Decode(Utf8Step, t) == t
  {
    if Whole(t) {
      var vs := WholeIsEncoded(t);
      assert t == EncodeAll(vs);
    }
    forall vs: seq<Scalar> | t == EncodeAll(vs)
      ensures Whole(t) && NumChars(t) == |vs| && Sound(Utf8Step) && Decode(Utf8Step, t) == t
    {
      EncodedIsWhole(vs);
      Utf8DecodesToItself(t);
    }
  }
}
