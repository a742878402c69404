/** Base 64, section 4 of RFC 4648. */
module Base64 {

  type Byte = bv8

  const PAD: Byte := 61       // '='
  const UNUSED: Byte := 255

  /** The encode table: 'A' to 'Z', 'a' to 'z', '0' to '9', '+' and '/'. */
  function Letter(v: Byte): Byte
    requires v < 64
  {
    if v < 26 then v + 65 else if v < 52 then v + 71 else if v < 62 then v - 4 else if v == 62 then 43 else 47
  }

  /** The decode table. */
  function Value(c: Byte): Byte {
    if 65 <= c <= 90 then c - 65
    else if 97 <= c <= 122 then c - 71
    else if 48 <= c <= 57 then c + 4
    else if c == 43 then 62
    else if c == 47 then 63
    else UNUSED
  }

  /** Table 1 of RFC 4648. */
  const ALPHABET: seq<Byte> := [
    65, 66, 67, 68, 69, 70, 71, 72, 73, 74, 75, 76, 77,               // 'A' to 'M'
    78, 79, 80, 81, 82, 83, 84, 85, 86, 87, 88, 89, 90,               // 'N' to 'Z'
    97, 98, 99, 100, 101, 102, 103, 104, 105, 106, 107, 108, 109,     // 'a' to 'm'
    110, 111, 112, 113, 114, 115, 116, 117, 118, 119, 120, 121, 122,  // 'n' to 'z'
    48, 49, 50, 51, 52, 53, 54, 55, 56, 57,                           // '0' to '9'
    43, 47]                                                           // '+' and '/'

  /** Both tables are that one: the letter of each six bits, their value, and
      none for all other bytes. */
  lemma TablesAre()
    ensures ALPHABET == [
        Letter(0), Letter(1), Letter(2), Letter(3), Letter(4), Letter(5), Letter(6), Letter(7),
        Letter(8), Letter(9), Letter(10), Letter(11), Letter(12), Letter(13), Letter(14), Letter(15),
        Letter(16), Letter(17), Letter(18), Letter(19), Letter(20), Letter(21), Letter(22), Letter(23),
        Letter(24), Letter(25), Letter(26), Letter(27), Letter(28), Letter(29), Letter(30), Letter(31),
        Letter(32), Letter(33), Letter(34), Letter(35), Letter(36), Letter(37), Letter(38), Letter(39),
        Letter(40), Letter(41), Letter(42), Letter(43), Letter(44), Letter(45), Letter(46), Letter(47),
        Letter(48), Letter(49), Letter(50), Letter(51), Letter(52), Letter(53), Letter(54), Letter(55),
        Letter(56), Letter(57), Letter(58), Letter(59), Letter(60), Letter(61), Letter(62), Letter(63)]
    ensures forall v: Byte | v < 64 :: Value(Letter(v)) == v
    ensures forall c: Byte | Value(c) != 255 :: Value(c) < 64 && c == Letter(Value(c))
  {
    forall v: Byte | v < 64 ensures Value(Letter(v)) == v {
      ValueOfLetter(v);
    }
    forall c: Byte | Value(c) != 255 ensures Value(c) < 64 && c == Letter(Value(c)) {
      LetterOfValue(c);
    }
  }

  lemma ValueOfLetter(v: Byte)
    requires v < 64
    ensures Value(Letter(v)) == v && Letter(v) != PAD
  {
  }

  lemma LetterOfValue(c: Byte)
    requires Value(c) != UNUSED
    ensures Value(c) < 64 && Letter(Value(c)) == c && c < 128
  {
  }

  // ----- What the encoded text is -----

  function Groups(n: nat): nat { (n + 2) / 3 }

  /** Byte i, zero bits beyond the end. */
  function At(x: seq<Byte>, i: nat): Byte { if i < |x| then x[i] else 0 }

  /** Character p of the encoded text: a group of three bytes is four times six
      bits, high ones first; the last group may end early. */
  function CharAt(x: seq<Byte>, p: nat): Byte {
    var a := 3 * (p / 4);
    if p % 4 == 0 then Letter(At(x, a) >> 2)
    else if p % 4 == 1 then Letter(((At(x, a) & 0x3) << 4) | (At(x, a + 1) >> 4))
    else if p % 4 == 2 then
      if a + 1 >= |x| then PAD else Letter(((At(x, a + 1) & 0xF) << 2) | (At(x, a + 2) >> 6))
    else
      if a + 2 >= |x| then PAD else Letter(At(x, a + 2) & 0x3F)
  }

  function Encoded(x: seq<Byte>): (r: seq<Byte>)
    ensures |r| == 4 * Groups(|x|)
  {
    seq(4 * Groups(|x|), p requires 0 <= p < 4 * Groups(|x|) => CharAt(x, p))
  }

  /** How much of the text is written after i bytes. */
  function Written(i: nat): nat { 4 * i / 3 }

  lemma Position(i: nat)
    ensures Written(i) / 4 == i / 3 && Written(i) % 4 == i % 3
    ensures Written(i + 1) == Written(i) + if i % 3 == 2 then 2 else 1
    ensures Groups(i) == i / 3 + if i % 3 == 0 then 0 else 1
  {
    var g, r := i / 3, i % 3;
    assert i == 3 * g + r && Written(i) == 4 * g + r;
  }

  /** Shifted to the right, only the high bits are left. */
  lemma SixBits(c: Byte)
    ensures (c >> 2) & 0x3F == c >> 2 && (c >> 4) & 0xF == c >> 4 && (c >> 6) & 0x3 == c >> 6
  {
  }

  /** What byte c adds to the text, after the byte l, in the state s. */
  function Added(c: Byte, l: Byte, s: nat): seq<Byte> {
    if s == 0 then [Letter((c >> 2) & 0x3F)]
    else if s == 1 then [Letter(((l & 0x3) << 4) | ((c >> 4) & 0xF))]
    else [Letter(((l & 0xF) << 2) | ((c >> 6) & 0x3)), Letter(c & 0x3F)]
  }

  lemma FirstChar(x: seq<Byte>, i: nat)
    requires i < |x| && i % 3 == 0
    ensures CharAt(x, Written(i)) == Letter((x[i] >> 2) & 0x3F)
  {
    Position(i);
    SixBits(x[i]);
  }

  lemma SecondChar(x: seq<Byte>, i: nat)
    requires i < |x| && i % 3 == 1
    ensures CharAt(x, Written(i)) == Letter(((x[i - 1] & 0x3) << 4) | ((x[i] >> 4) & 0xF))
  {
    Position(i);
    SixBits(x[i]);
  }

  lemma ThirdChar(x: seq<Byte>, i: nat)
    requires i < |x| && i % 3 == 2
    ensures CharAt(x, Written(i)) == Letter(((x[i - 1] & 0xF) << 2) | ((x[i] >> 6) & 0x3))
  {
    Position(i);
    SixBits(x[i]);
  }

  lemma FourthChar(x: seq<Byte>, i: nat)
    requires i < |x| && i % 3 == 2
    ensures CharAt(x, Written(i) + 1) == Letter(x[i] & 0x3F)
  {
    Position(i);
    assert (Written(i) + 1) / 4 == i / 3 && (Written(i) + 1) % 4 == 3;
  }

  /** Every byte adds the next characters of the text. */
  lemma CharsOfByte(x: seq<Byte>, i: nat, l: Byte)
    requires i < |x| && (i > 0 ==> l == x[i - 1])
    ensures Added(x[i], l, i % 3)[0] == CharAt(x, Written(i))
    ensures i % 3 == 2 ==> Added(x[i], l, i % 3)[1] == CharAt(x, Written(i) + 1)
  {
    if i % 3 == 0 {
      FirstChar(x, i);
    } else if i % 3 == 1 {
      SecondChar(x, i);
    } else {
      ThirdChar(x, i);
      FourthChar(x, i);
    }
  }

  lemma Fits(i: nat, n: nat)
    requires i <= n
    ensures Written(i) <= 4 * Groups(n)
  {
    Position(i);
    Position(n);
  }

  lemma NoBits()
    ensures (0 as Byte) >> 4 == 0 && (0 as Byte) >> 6 == 0
  {
  }

  /** The last group of one byte l. */
  lemma OneByteLeft(x: seq<Byte>, l: Byte)
    requires |x| % 3 == 1 && l == x[|x| - 1]
    ensures Written(|x|) + 3 == 4 * Groups(|x|)
    ensures CharAt(x, Written(|x|)) == Letter((l & 0x3) << 4)
    ensures CharAt(x, Written(|x|) + 1) == CharAt(x, Written(|x|) + 2) == PAD
  {
    Position(|x|);
    NoBits();
    assert (Written(|x|) + 1) / 4 == (Written(|x|) + 2) / 4 == |x| / 3;
  }

  /** The last group of two bytes, the second of which is l. */
  lemma TwoBytesLeft(x: seq<Byte>, l: Byte)
    requires |x| % 3 == 2 && l == x[|x| - 1]
    ensures Written(|x|) + 2 == 4 * Groups(|x|)
    ensures CharAt(x, Written(|x|)) == Letter((l & 0xF) << 2)
    ensures CharAt(x, Written(|x|) + 1) == PAD
  {
    Position(|x|);
    NoBits();
    assert (Written(|x|) + 1) / 4 == |x| / 3;
  }

  /** The output is that of f up to j. */
  ghost predicate Agrees(f: nat -> Byte, out: seq<Byte>, j: nat) {
    j <= |out| && forall p: nat | p < j :: out[p] == f(p)
  }

  /** One byte, in the state s of its position in the group. */
  method EncodeByte(ghost f: nat -> Byte, c: Byte, s: nat, l: Byte, out: array<Byte>, j: nat)
    returns (s': nat, j': nat)
    requires s < 3 && j + (if s == 2 then 2 else 1) <= out.Length && Agrees(f, out[..], j)
    requires Added(c, l, s)[0] == f(j) && (s == 2 ==> Added(c, l, s)[1] == f(j + 1))
    modifies out
    ensures s' == (s + 1) % 3 && j' == j + if s == 2 then 2 else 1
    ensures Agrees(f, out[..], j')
  {
    s', j' := s, j;
    match s {
      case 0 =>
        s' := 1;
        out[j'] := Letter((c >> 2) & 0x3F);
        j' := j' + 1;
      case 1 =>
        s' := 2;
        out[j'] := Letter(((l & 0x3) << 4) | ((c >> 4) & 0xF));
        j' := j' + 1;
      case _ =>
        s' := 0;
        out[j'] := Letter(((l & 0xF) << 2) | ((c >> 6) & 0x3));
        j' := j' + 1;
        out[j'] := Letter(c & 0x3F);
        j' := j' + 1;
    }
  }

  /** Byte i adds what f says. */
  ghost predicate AddsRight(f: nat -> Byte, x: seq<Byte>, i: nat)
    requires i < |x|
  {
    var added := Added(x[i], if i == 0 then 0 else x[i - 1], i % 3);
    added[0] == f(Written(i)) && (i % 3 == 2 ==> added[1] == f(Written(i) + 1))
  }

  /** The loop over the bytes. */
  method EncodeBytes(x: seq<Byte>, ghost f: nat -> Byte, out: array<Byte>) returns (s: nat, l: Byte, j: nat)
    requires out.Length == 4 * Groups(|x|) && forall i: nat | i < |x| :: AddsRight(f, x, i)
    modifies out
    ensures s == |x| % 3 && j == Written(|x|) && (x != [] ==> l == x[|x| - 1]) && Agrees(f, out[..], j)
  {
    s, l, j := 0, 0, 0;
    for i := 0 to |x|
      invariant s == i % 3 && j == Written(i) && l == if i == 0 then 0 else x[i - 1]
      invariant Agrees(f, out[..], j)
    {
      Position(i);
      Fits(i + 1, |x|);
      assert AddsRight(f, x, i);
      s, j := EncodeByte(f, x[i], s, l, out, j);
      l := x[i];
    }
  }

  /** The end of the text is what f says. */
  ghost predicate EndsRight(f: nat -> Byte, s: nat, l: Byte, j: nat, size: nat) {
    && (s == 0 ==> j == size)
    && (s == 1 ==> j + 3 == size && f(j) == Letter((l & 0x3) << 4) && f(j + 1) == f(j + 2) == PAD)
    && (s == 2 ==> j + 2 == size && f(j) == Letter((l & 0xF) << 2) && f(j + 1) == PAD)
  }

  /** The last group, if it is not complete. */
  method EncodeEnd(ghost f: nat -> Byte, s: nat, l: Byte, out: array<Byte>, j: nat)
    requires s < 3 && EndsRight(f, s, l, j, out.Length) && Agrees(f, out[..], j)
    modifies out
    ensures Agrees(f, out[..], out.Length)
  {
    match s {
      case 1 =>
        out[j] := Letter((l & 0x3) << 4);
        out[j + 1] := PAD;
        out[j + 2] := PAD;
      case 2 =>
        out[j] := Letter((l & 0xF) << 2);
        out[j + 1] := PAD;
      case _ =>
    }
  }

  method Encode(x: seq<Byte>) returns (out: array<Byte>)
    ensures fresh(out) && out[..] == Encoded(x)
  {
    out := new Byte[(|x| + 2) / 3 * 4];
    ghost var f := (p: nat) => CharAt(x, p);
    forall i: nat | i < |x| ensures AddsRight(f, x, i) {
      TextAdds(x, f, i);
    }
    var s, l, j := EncodeBytes(x, f, out);
    TextEnds(x, f, l);
    EncodeEnd(f, s, l, out, j);
    AllEncoded(x, f, out[..]);
  }

  lemma TextAdds(x: seq<Byte>, f: nat -> Byte, i: nat)
    requires i < |x| && forall p: nat :: f(p) == CharAt(x, p)
    ensures AddsRight(f, x, i)
  {
    CharsOfByte(x, i, if i == 0 then 0 else x[i - 1]);
  }

  lemma TextEnds(x: seq<Byte>, f: nat -> Byte, l: Byte)
    requires (forall p: nat :: f(p) == CharAt(x, p)) && (x != [] ==> l == x[|x| - 1])
    ensures EndsRight(f, |x| % 3, l, Written(|x|), 4 * Groups(|x|))
  {
    Position(|x|);
    if |x| % 3 == 1 { OneByteLeft(x, l); } else if |x| % 3 == 2 { TwoBytesLeft(x, l); }
  }

  lemma AllEncoded(x: seq<Byte>, f: nat -> Byte, out: seq<Byte>)
    requires |out| == 4 * Groups(|x|) && Agrees(f, out, |out|) && forall p: nat :: f(p) == CharAt(x, p)
    ensures out == Encoded(x)
  {
    forall p: nat | p < |out| ensures out[p] == Encoded(x)[p] {
      assert f(p) == CharAt(x, p);
    }
  }

  // ----- Decoding -----

  /** How many characters there are before the first one that is not in the
      table. */
  function Usable(t: seq<Byte>, i: nat): (k: nat)
    requires i <= |t|
    ensures i <= k <= |t|
    decreases |t| - i
  {
    if i == |t| || Value(t[i]) == UNUSED then i else Usable(t, i + 1)
  }

  lemma {:induction false} UsableIs(t: seq<Byte>, i: nat, k: nat)
    requires i <= k <= |t| && (forall m | i <= m < k :: Value(t[m]) != UNUSED)
    requires k < |t| ==> Value(t[k]) == UNUSED
    ensures Usable(t, i) == k
    decreases k - i
  {
    if i < k { UsableIs(t, i + 1, k); }
  }

  function Values(t: seq<Byte>): (v: seq<Byte>)
    ensures |v| == |t|
  {
    seq(|t|, i requires 0 <= i < |t| => Value(t[i]))
  }

  /** Value i, zero bits beyond the end. */
  function Val(v: seq<Byte>, i: nat): Byte { if i < |v| then v[i] else 0 }

  /** How many bytes k characters give. */
  function Read(k: nat): nat { 3 * k / 4 }

  function First(v: Byte, w: Byte): Byte { (v << 2) | (w >> 4) }

  function Second(v: Byte, w: Byte): Byte { ((v & 0xF) << 4) | (w >> 2) }

  function Third(v: Byte, w: Byte): Byte { ((v & 0x3) << 6) | w }

  /** Byte m of the decoded text, given the values of its characters: a group of
      four of them is three bytes. */
  function ByteAt(v: seq<Byte>, m: nat): Byte {
    var a := 4 * (m / 3);
    if m % 3 == 0 then First(Val(v, a), Val(v, a + 1))
    else if m % 3 == 1 then Second(Val(v, a + 1), Val(v, a + 2))
    else Third(Val(v, a + 2), Val(v, a + 3))
  }

  /** The bits of the next byte that the first i characters give. */
  function Begun(v: seq<Byte>, i: nat): Byte {
    if i % 4 == 0 then 0
    else if i % 4 == 1 then (Val(v, i - 1) << 2) & 0xFF
    else if i % 4 == 2 then (Val(v, i - 1) & 0xF) << 4
    else (Val(v, i - 1) & 0x3) << 6
  }

  lemma ReadPosition(i: nat)
    ensures Read(i) / 3 == i / 4
    ensures i % 4 != 0 ==> Read(i) % 3 == i % 4 - 1
    ensures i % 4 == 0 ==> Read(i) % 3 == 0
    ensures Read(i + 1) == Read(i) + if i % 4 == 0 then 0 else 1
  {
    var g, r := i / 4, i % 4;
    assert i == 4 * g + r && Read(i) == 3 * g + 3 * r / 4;
    assert Read(i + 1) == 3 * g + 3 * (r + 1) / 4;
  }

  /** What a character adds to the byte that it ends. */
  function Low(c: Byte, s: nat): Byte {
    if s == 1 then (c >> 4) & 0x3 else if s == 2 then (c >> 2) & 0xF else c
  }

  /** What it begins. */
  function High(c: Byte, s: nat): Byte {
    if s == 0 then (c << 2) & 0xFF else if s == 1 then (c & 0xF) << 4 else if s == 2 then (c & 0x3) << 6 else 0
  }

  lemma Pieces(b: Byte, c: Byte)
    requires c < 64
    ensures ((b << 2) & 0xFF) | Low(c, 1) == First(b, c)
    ensures ((b & 0xF) << 4) | Low(c, 2) == Second(b, c)
    ensures ((b & 0x3) << 6) | Low(c, 3) == Third(b, c)
  {
  }

  /** Character i ends a byte, if it is not the first of its group. */
  lemma ByteOfChar(v: seq<Byte>, i: nat)
    requires i < |v| && i % 4 != 0 && v[i] < 64
    ensures ByteAt(v, Read(i)) == Begun(v, i) | Low(v[i], i % 4)
  {
    ReadPosition(i);
    Pieces(v[i - 1], v[i]);
  }

  lemma BegunNext(v: seq<Byte>, i: nat)
    requires i < |v|
    ensures Begun(v, i + 1) == High(v[i], i % 4)
  {
  }

  /** What the decoder returns, for a text of a whole number of groups. It cuts
      off what it does not need only if that is more than one byte. The rest of
      what it returns after a bad character is arbitrary. */
  ghost predicate DecodesTo(t: seq<Byte>, r: seq<Byte>) {
    var k, v := Usable(t, 0), Values(t);
    var j, size := Read(k), |t| / 4 * 3;
    && j <= |r| && (forall m: nat | m < j :: r[m] == ByteAt(v, m))
    && if k < |t| && t[k] != PAD then |r| == size
       else |r| == (if j + 1 < size then j else size) && (j < |r| ==> r[j] == Begun(v, k))
  }

  lemma ReadFits(n: nat, i: nat)
    requires i <= n && n % 4 == 0
    ensures Read(i) <= n / 4 * 3
    ensures i % 4 != 0 ==> Read(i) < n / 4 * 3
    ensures Read(i) <= n / 4 * 3 <= Read(i) + 1 ==> Read(i) == n / 4 * 3 || i % 4 != 0
  {
    var g, r := i / 4, i % 4;
    assert i == 4 * g + r && Read(i) == 3 * g + 3 * r / 4;
  }

  /** Character i ends byte Read(i) of f, and begins what g says. */
  ghost predicate ReadsRight(f: nat -> Byte, g: nat -> Byte, v: seq<Byte>, i: nat)
    requires i < |v|
  {
    && (i % 4 != 0 && v[i] < 64 ==> g(i) | Low(v[i], i % 4) == f(Read(i)))
    && ((i + 1) % 4 != 0 ==> g(i + 1) == High(v[i], i % 4))
  }

  /** What is in the output after i characters: bytes of f, and what g says of
      the next one. */
  ghost predicate DecodedSoFar(f: nat -> Byte, g: nat -> Byte, i: nat, out: seq<Byte>, j: nat) {
    j == Read(i) <= |out| && Agrees(f, out, j) && (i % 4 != 0 ==> j < |out| && out[j] == g(i))
  }

  /** End byte j. */
  method EndByte(
    ghost f: nat -> Byte, ghost g: nat -> Byte, ghost v: seq<Byte>, i: nat, c: Byte, out: array<Byte>, j: nat)
    returns (j': nat)
    requires i < |v| && |v| % 4 == 0 && i % 4 != 0 && c == v[i] < 64 && ReadsRight(f, g, v, i)
    requires out.Length == |v| / 4 * 3 && DecodedSoFar(f, g, i, out[..], j)
    modifies out
    ensures j' == Read(i + 1) <= out.Length && Agrees(f, out[..], j')
  {
    ReadPosition(i);
    out[j] := out[j] | Low(c, i % 4);
    j' := j + 1;
  }

  /** Begin byte j, if there are more characters in the group. */
  method BeginByte(
    ghost f: nat -> Byte, ghost g: nat -> Byte, ghost v: seq<Byte>, i: nat, c: Byte, out: array<Byte>, j: nat)
    requires i < |v| && |v| % 4 == 0 && i % 4 != 3 && c == v[i] && ReadsRight(f, g, v, i)
    requires out.Length == |v| / 4 * 3 && j == Read(i + 1) <= out.Length && Agrees(f, out[..], j)
    modifies out
    ensures DecodedSoFar(f, g, i + 1, out[..], j)
  {
    ReadFits(|v|, i + 1);
    out[j] := High(c, i % 4);
  }

  lemma NextGroup(i: nat)
    ensures i % 4 == 3 ==> (i + 1) % 4 == 0
  {
  }

  /** One character, of value c. */
  method DecodeByte(
    ghost f: nat -> Byte, ghost g: nat -> Byte, ghost v: seq<Byte>, i: nat, c: Byte, out: array<Byte>, j: nat)
    returns (j': nat)
    requires i < |v| && |v| % 4 == 0 && c == v[i] < 64 && ReadsRight(f, g, v, i)
    requires out.Length == |v| / 4 * 3 && DecodedSoFar(f, g, i, out[..], j)
    modifies out
    ensures DecodedSoFar(f, g, i + 1, out[..], j')
  {
    j' := j;
    if i % 4 == 0 {
      ReadPosition(i);
    } else {
      j' := EndByte(f, g, v, i, c, out, j);
    }
    if i % 4 != 3 {
      BeginByte(f, g, v, i, c, out, j');
    } else {
      NextGroup(i);
    }
  }

  method Prefix(s: array<Byte>, j: nat) returns (r: array<Byte>)
    requires j <= s.Length
    ensures fresh(r) && r[..] == s[..j]
  {
    r := new Byte[j];
    for m := 0 to j
      invariant r[..m] == s[..m]
    {
      r[m] := s[m];
    }
  }

  lemma ValueIsSix(t: seq<Byte>, i: nat)
    requires i < |t| && Value(t[i]) != UNUSED
    ensures Values(t)[i] == Value(t[i]) < 64
  {
    LetterOfValue(t[i]);
  }

  lemma UsableNext(t: seq<Byte>, i: nat)
    requires i <= |t|
    ensures Usable(t, i) == if i == |t| || Value(t[i]) == UNUSED then i else Usable(t, i + 1)
  {
  }

  /** The loop of the decoder: up to the first character without a value. */
  method DecodeLoop(
    t: seq<Byte>, ghost f: nat -> Byte, ghost g: nat -> Byte, ghost v: seq<Byte>, out: array<Byte>)
    returns (i: nat, j: nat)
    requires |t| % 4 == 0 && out.Length == |t| / 4 * 3 && forall c | c in t :: c < 128
    requires v == Values(t) && forall i: nat | i < |v| :: ReadsRight(f, g, v, i)
    modifies out
    ensures i == Usable(t, 0) <= |t| && DecodedSoFar(f, g, i, out[..], j)
  {
    i, j := 0, 0;
    while i < |t|
      invariant i <= |t| && DecodedSoFar(f, g, i, out[..], j)
      invariant Usable(t, 0) == Usable(t, i)
    {
      UsableNext(t, i);
      if t[i] == PAD {
        break;
      }
      var c := Value(t[i]);
      if c == UNUSED {
        break;
      }
      ValueIsSix(t, i);
      assert ReadsRight(f, g, v, i);
      j := DecodeByte(f, g, v, i, c, out, j);
      i := i + 1;
    }
    UsableNext(t, i);
  }

  lemma TextReads(f: nat -> Byte, g: nat -> Byte, v: seq<Byte>, i: nat)
    requires i < |v| && (forall m: nat :: f(m) == ByteAt(v, m)) && forall m: nat :: g(m) == Begun(v, m)
    ensures ReadsRight(f, g, v, i)
  {
    BegunNext(v, i);
    if i % 4 != 0 && v[i] < 64 { ByteOfChar(v, i); }
  }

  /** Decode up to the end of the characters, into all the room there may be. */
  method DecodeAll(t: seq<Byte>, out: array<Byte>) returns (i: nat, j: nat)
    requires |t| % 4 == 0 && out.Length == |t| / 4 * 3 && forall c | c in t :: c < 128
    modifies out
    ensures i == Usable(t, 0) <= |t| && j == Read(i) <= out.Length
    ensures forall m: nat | m < j :: out[m] == ByteAt(Values(t), m)
    ensures i % 4 != 0 ==> j < out.Length && out[j] == Begun(Values(t), i)
  {
    ghost var v := Values(t);
    ghost var f, g := (m: nat) => ByteAt(v, m), (m: nat) => Begun(v, m);
    forall i: nat | i < |v| ensures ReadsRight(f, g, v, i) {
      TextReads(f, g, v, i);
    }
    i, j := DecodeLoop(t, f, g, v, out);
    forall m: nat | m < j ensures out[m] == ByteAt(v, m) {
      assert out[..][m] == f(m);
    }
    assert g(i) == Begun(v, i);
  }

  method Decode(t: seq<Byte>) returns (r: array<Byte>)
    requires forall c | c in t :: c < 128
    ensures fresh(r)
    ensures if |t| % 4 == 0 then DecodesTo(t, r[..]) else r.Length == |t| / 4 * 3
  {
    r := new Byte[|t| / 4 * 3];
    if |t| % 4 != 0 {
      return;
    }
    var i, j := DecodeAll(t, r);
    if i < |t| && t[i] != PAD {
      return;
    }
    ReadFits(|t|, i);
    if j + 1 < r.Length {
      ghost var all := r[..];
      r := Prefix(r, j);
      assert forall m: nat | m < j :: r[m] == all[m];
    }
  }

  // ----- Round trip -----

  /** How many characters are not padding. */
  function Letters(n: nat): nat { Written(n) + if n % 3 == 0 then 0 else 1 }

  /** The six bits of a character that is not padding. */
  function Bits(x: seq<Byte>, p: nat): Byte {
    var a := 3 * (p / 4);
    if p % 4 == 0 then At(x, a) >> 2
    else if p % 4 == 1 then ((At(x, a) & 0x3) << 4) | (At(x, a + 1) >> 4)
    else if p % 4 == 2 then ((At(x, a + 1) & 0xF) << 2) | (At(x, a + 2) >> 6)
    else At(x, a + 2) & 0x3F
  }

  lemma BitsAreSix(x: seq<Byte>, p: nat)
    ensures Bits(x, p) < 64
  {
  }

  lemma LetterAt(x: seq<Byte>, p: nat)
    requires p < Letters(|x|)
    ensures p < |Encoded(x)| && Values(Encoded(x))[p] == Bits(x, p)
    ensures Value(Encoded(x)[p]) != UNUSED
  {
    var g := p / 4;
    Position(|x|);
    assert Letters(|x|) == 4 * (|x| / 3) + if |x| % 3 == 0 then 0 else |x| % 3 + 1;
    BitsAreSix(x, p);
    ValueOfLetter(Bits(x, p));
    assert CharAt(x, p) == Letter(Bits(x, p));
  }

  lemma EncodedLetters(x: seq<Byte>)
    ensures Usable(Encoded(x), 0) == Letters(|x|) <= |Encoded(x)|
    ensures forall p | Letters(|x|) <= p < |Encoded(x)| :: Encoded(x)[p] == 61
    ensures Read(Letters(|x|)) == |x|
  {
    var t, k := Encoded(x), Letters(|x|);
    var g := |x| / 3;
    Position(|x|);
    assert k == 4 * g + if |x| % 3 == 0 then 0 else |x| % 3 + 1;
    forall p | 0 <= p < k ensures Value(t[p]) != UNUSED {
      LetterAt(x, p);
    }
    if k < |t| { assert k / 4 == g; }
    UsableIs(t, 0, k);
  }

  lemma ReassembleFirst(a: Byte, b: Byte)
    ensures First(a >> 2, ((a & 0x3) << 4) | (b >> 4)) == a
  {
  }

  lemma ReassembleSecond(a: Byte, b: Byte, c: Byte)
    ensures Second(((a & 0x3) << 4) | (b >> 4), ((b & 0xF) << 2) | (c >> 6)) == b
  {
  }

  lemma ReassembleThird(b: Byte, c: Byte)
    ensures Third(((b & 0xF) << 2) | (c >> 6), c & 0x3F) == c
  {
  }

  lemma NoBitsLeft(b: Byte)
    ensures ((((b & 0xF) << 2) | ((0 as Byte) >> 6)) & 0x3) << 6 == 0
  {
  }

  /** v has the bits of group g of x. */
  ghost predicate GroupIs(x: seq<Byte>, v: seq<Byte>, g: nat) {
    var a, b, c := At(x, 3 * g), At(x, 3 * g + 1), At(x, 3 * g + 2);
    && Val(v, 4 * g) == a >> 2
    && Val(v, 4 * g + 1) == ((a & 0x3) << 4) | (b >> 4)
    && (3 * g + 1 < |x| ==> Val(v, 4 * g + 2) == ((b & 0xF) << 2) | (c >> 6))
    && (3 * g + 2 < |x| ==> Val(v, 4 * g + 3) == c & 0x3F)
  }

  ghost predicate GroupsAre(x: seq<Byte>, v: seq<Byte>) {
    forall g: nat | 3 * g < |x| :: GroupIs(x, v, g)
  }

  lemma FirstBack(x: seq<Byte>, v: seq<Byte>, g: nat)
    requires 3 * g < |x| && GroupIs(x, v, g)
    ensures First(Val(v, 4 * g), Val(v, 4 * g + 1)) == x[3 * g]
  {
    ReassembleFirst(At(x, 3 * g), At(x, 3 * g + 1));
  }

  lemma SecondBack(x: seq<Byte>, v: seq<Byte>, g: nat)
    requires 3 * g + 1 < |x| && GroupIs(x, v, g)
    ensures Second(Val(v, 4 * g + 1), Val(v, 4 * g + 2)) == x[3 * g + 1]
  {
    ReassembleSecond(At(x, 3 * g), At(x, 3 * g + 1), At(x, 3 * g + 2));
  }

  lemma ThirdBack(x: seq<Byte>, v: seq<Byte>, g: nat)
    requires 3 * g + 2 < |x| && GroupIs(x, v, g)
    ensures Third(Val(v, 4 * g + 2), Val(v, 4 * g + 3)) == x[3 * g + 2]
  {
    ReassembleThird(At(x, 3 * g + 1), At(x, 3 * g + 2));
  }

  lemma ByteBack(x: seq<Byte>, v: seq<Byte>, m: nat)
    requires m < |x| && GroupIs(x, v, m / 3)
    ensures ByteAt(v, m) == x[m]
  {
    var g := m / 3;
    if m % 3 == 0 {
      FirstBack(x, v, g);
    } else if m % 3 == 1 {
      SecondBack(x, v, g);
    } else {
      ThirdBack(x, v, g);
    }
  }

  ghost predicate BitsAre(x: seq<Byte>, v: seq<Byte>) {
    Letters(|x|) <= |v| && forall p | 0 <= p < Letters(|x|) :: v[p] == Bits(x, p)
  }

  lemma BitsOfGroup(x: seq<Byte>, g: nat)
    ensures var a, b, c := At(x, 3 * g), At(x, 3 * g + 1), At(x, 3 * g + 2);
      && Bits(x, 4 * g) == a >> 2
      && Bits(x, 4 * g + 1) == ((a & 0x3) << 4) | (b >> 4)
      && Bits(x, 4 * g + 2) == ((b & 0xF) << 2) | (c >> 6)
      && Bits(x, 4 * g + 3) == c & 0x3F
  {
  }

  lemma GroupFrom(x: seq<Byte>, v: seq<Byte>, g: nat)
    requires 3 * g < |x| && BitsAre(x, v)
    ensures GroupIs(x, v, g)
  {
    Position(|x|);
    BitsOfGroup(x, g);
  }

  /** The decoder sees the bits of every group. */
  lemma LettersOfGroups(x: seq<Byte>)
    ensures GroupsAre(x, Values(Encoded(x)))
  {
    var v := Values(Encoded(x));
    EncodedLetters(x);
    forall p | 0 <= p < Letters(|x|) ensures v[p] == Bits(x, p) {
      LetterAt(x, p);
    }
    assert BitsAre(x, v);
    forall g: nat | 3 * g < |x| ensures GroupIs(x, v, g) {
      GroupFrom(x, v, g);
    }
  }

  lemma BytesBack(x: seq<Byte>, v: seq<Byte>)
    requires GroupsAre(x, v)
    ensures forall m: nat | m < |x| :: ByteAt(v, m) == x[m]
  {
    forall m: nat | m < |x| ensures ByteAt(v, m) == x[m] {
      assert 3 * (m / 3) < |x|;
      ByteBack(x, v, m);
    }
  }

  /** The byte that is too much has no bits. */
  lemma ExtraByte(x: seq<Byte>, v: seq<Byte>)
    requires |x| % 3 == 2 && GroupIs(x, v, |x| / 3)
    ensures Letters(|x|) % 4 == 3 && Begun(v, Letters(|x|)) == 0
  {
    var g := |x| / 3;
    Position(|x|);
    assert |x| == 3 * g + 2 && Letters(|x|) == 4 * g + 3;
    NoBitsLeft(x[|x| - 1]);
  }

  lemma Back(x: seq<Byte>, f: nat -> Byte, extra: Byte, r: seq<Byte>)
    requires (forall m: nat | m < |x| :: f(m) == x[m]) && Agrees(f, r, |x|)
    requires |r| == if |x| + 1 < 3 * Groups(|x|) then |x| else 3 * Groups(|x|)
    requires |x| < |r| ==> r[|x|] == extra
    ensures r == x + if |x| % 3 == 2 then [extra] else []
  {
    Position(|x|);
  }

  lemma DecodedFacts(x: seq<Byte>, v: seq<Byte>, f: nat -> Byte, r: seq<Byte>)
    requires DecodesTo(Encoded(x), r) && v == Values(Encoded(x)) && forall m: nat :: f(m) == ByteAt(v, m)
    ensures Agrees(f, r, |x|)
    ensures |r| == if |x| + 1 < 3 * Groups(|x|) then |x| else 3 * Groups(|x|)
    ensures |x| < |r| ==> r[|x|] == Begun(v, Letters(|x|))
  {
    EncodedLetters(x);
    assert forall m: nat :: f(m) == ByteAt(v, m);
  }

  lemma FactsBack(x: seq<Byte>, v: seq<Byte>, f: nat -> Byte)
    requires v == Values(Encoded(x)) && forall m: nat :: f(m) == ByteAt(v, m)
    ensures forall m: nat | m < |x| :: f(m) == x[m]
    ensures |x| % 3 == 2 ==> Begun(v, Letters(|x|)) == 0
  {
    LettersOfGroups(x);
    BytesBack(x, v);
    if |x| % 3 == 2 { ExtraByte(x, v); }
    forall m: nat | m < |x| ensures f(m) == x[m] {
      assert f(m) == ByteAt(v, m);
    }
  }

  /** Decoding what was encoded: the same bytes, and one more if the last group
      had two. */
  lemma RoundTrip(x: seq<Byte>, r: seq<Byte>)
    requires DecodesTo(Encoded(x), r)
    ensures r == x + if |x| % 3 == 2 then [0] else []
    ensures r == x <==> |x| % 3 != 2
  {
    var v := Values(Encoded(x));
    var f := (m: nat) => ByteAt(v, m);
    DecodedFacts(x, v, f, r);
    FactsBack(x, v, f);
    Position(|x|);
    var extra := if |x| < |r| then r[|x|] else 0;
    Back(x, f, extra, r);
  }
}
