/** A text connection: bytes of a non-blocking file descriptor are read into
    a raw buffer, converted into a UTF-8 buffer, and handed out from the
    front of that. */
module Connections {
  import opened Codec
  import opened Lines

  /** What the operating system says to one read(2). */
  datatype ReadResult =
    | Data(bytes: seq<Byte>)
    | EndOfFile              // 0 bytes
    | Again                  // EAGAIN
    | PtyClosed              // EIO
    | Failed                 // any other error

  /** The readable end of a pipe. `unread` is everything that will still come
      out of it, whether it was written already or not. Its reader cannot
      influence how the bytes are split into reads. A read may fail to find
      anything, but only finitely often: the source is finite. */
  class Source {
    var unread: seq<Byte>
    var ready: bool  // a read would not block
    var stalls: nat  // how often it still will
    var failures: nat  // how often a read failed

    constructor (bytes: seq<Byte>, stalls: nat)
      ensures unread == bytes
    {
      unread, ready, this.stalls, failures := bytes, false, stalls, 0;
    }

    method Read(todo: nat) returns (r: ReadResult)
      requires todo > 0
      modifies this
      ensures r.Data? ==> 1 <= |r.bytes| <= todo && old(unread) == r.bytes + unread
      ensures !r.Data? ==> unread == old(unread)
      ensures r.EndOfFile? || r.PtyClosed? ==> old(unread) == []
      ensures failures == old(failures) + if r.Failed? then 1 else 0
      ensures if r.Again? then !old(ready) && stalls < old(stalls) else stalls == old(stalls)
    {
      if {
        case !ready && stalls > 0 =>
          stalls := stalls - 1;
          r := Again;
        case unread == [] => r := EndOfFile;
        case unread == [] => r := PtyClosed;
        case true =>
          failures := failures + 1;
          r := Failed;
        case unread != [] =>
          var n: nat :| 1 <= n <= todo && n <= |unread|;
          r := Data(unread[..n]);
          unread := unread[n..];
      }
      var any: bool :| true;
      ready := any;
    }

    /** poll(2) without a timeout. It may return because of some other
        descriptor that is polled with this one. */
    method Wait() returns (woken: bool)
      modifies this`ready
      ensures woken ==> ready
    {
      var mine: bool :| true;
      woken := mine;
      ready := mine;
    }
  }

  /** Outcome of a call that can throw an R error. */
  datatype Result<+T> = Ok(value: T) | Error

  datatype IconvStatus = Converted | TooBig | IllegalSequence | IncompleteInput

  const BUFFER_SIZE: nat := 65536

  /** Move a[from..from + count] to the front. */
  method MoveToFront(a: array<Byte>, from: nat, count: nat)
    requires from + count <= a.Length
    modifies a
    ensures a[..count] == old(a[from..from + count])
  {
    var i := 0;
    while i < count
      invariant 0 <= i <= count
      invariant a[..i] == old(a[from..from + i])
      invariant a[from + i..] == old(a[from + i..])
    {
      a[i] := a[from + i];
      i := i + 1;
    }
  }

  /** Copy s into a, at position `at`. */
  method Store(a: array<Byte>, at: nat, s: seq<Byte>)
    requires at + |s| <= a.Length
    modifies a
    ensures a[..at] == old(a[..at]) && a[..at + |s|] == old(a[..at]) + s
  {
    for i := 0 to |s|
      invariant a[..at] == old(a[..at]) && a[..at + i] == old(a[..at]) + s[..i]
    {
      a[at + i] := s[i];
    }
  }

  /** Length of a character by its first byte, 0 if it is none. The table for
      bytes over 0xc0 also has the lengths that RFC 3629 no longer allows. */
  function TableLength(c: Byte): (n: nat)
    ensures CharLength(c) > 0 ==> n == CharLength(c)
  {
    if c < 128 then 1
    else if c < 0xc0 || c >= 0xfe then 0
    else if c < 0xe0 then 2 else if c < 0xf0 then 3 else if c < 0xf8 then 4 else if c < 0xfc then 5 else 6
  }

  lemma Regroup(a: seq<Byte>, b: seq<Byte>, c: seq<Byte>)
    ensures a + b + c == a + (b + c)
  {
  }

  lemma Remains(t: seq<Byte>, out: seq<Byte>, after: seq<Byte>)
    requires t == out + after
    ensures out == t[..|out|] && after == t[|out|..] && |after| == |t| - |out|
  {
  }

  lemma RestIsWhole(t: seq<Byte>, n: nat)
    requires n <= |t| && Whole(t) && Whole(t[..n])
    ensures Whole(t[n..])
  {
    Cut(t, n);
    WholeSplit(t[..n], t[n..]);
  }

  lemma NoneTaken(t: seq<Byte>, nchars: int, nbytes: int)
    requires Whole(t) && (t == [] || nchars == 0)
    ensures t == [] + t && Longest(t, nchars, nbytes, 0)
  {
    assert t[..0] == [];
    LongestIfNextIsOver(t, nchars, nbytes, 0);
  }

  lemma NothingMore(lines: seq<seq<Byte>>)
    ensures lines + [] == lines
  {
  }

  lemma Cut(t: seq<Byte>, n: nat)
    requires n <= |t|
    ensures t == t[..n] + t[n..]
  {
  }

  /** The scan of the text t is between two characters, after so many. */
  ghost predicate AtChar(t: seq<Byte>, ptr: nat, chars: nat) {
    ptr <= |t| && Whole(t[..ptr]) && Whole(t[ptr..]) && chars == NumChars(t[..ptr])
  }

  lemma AtNextChar(t: seq<Byte>, ptr: nat, chars: nat)
    requires ptr < |t| && AtChar(t, ptr, chars)
    ensures 0 < CharLength(t[ptr]) <= |t| - ptr && AtChar(t, ptr + CharLength(t[ptr]), chars + 1)
  {
    NextChar(t, ptr);
  }

  class Connection {
    const step: Decoder
    const source: Source
    var isEof: bool
    var isEofRaw: bool
    var rawMode: bool
    var buffer: array<Byte>
    var bufferDataSize: nat
    var utf8: array<Byte>
    var utf8DataSize: nat

    ghost predicate Shape()
      reads this
    {
      && bufferDataSize <= buffer.Length
      && utf8DataSize <= utf8.Length
      && buffer != utf8
      && (buffer.Length == 0 || buffer.Length == BUFFER_SIZE)
      && (buffer.Length == 0 <==> utf8.Length == 0)
      && (buffer.Length > 0 ==> utf8.Length >= BUFFER_SIZE)
    }

    ghost function Raw(): seq<Byte>
      requires Shape()
      reads this, buffer
    {
      buffer[..bufferDataSize]
    }

    ghost function Text(): seq<Byte>
      requires Shape()
      reads this, utf8
    {
      utf8[..utf8DataSize]
    }

    ghost predicate Valid()
      reads this, source, buffer, utf8
    {
      && Shape()
      && Sound(step)
      && Whole(Text())
      && (isEofRaw ==> source.unread == [])
      && (isEof ==> isEofRaw && bufferDataSize == 0 && (rawMode || utf8DataSize == 0))
    }

    /** All text that the caller has not got yet. */
    ghost function Pending(): seq<Byte>
      requires Valid()
      reads this, source, buffer, utf8
    {
      Text() + Decode(step, Raw() + source.unread)
    }

    /** The same for a connection in raw mode. */
    ghost function PendingBytes(): seq<Byte>
      requires Valid()
      reads this, source, buffer, utf8
    {
      Raw() + source.unread
    }

    /** An upper bound on the reads and conversions left to do. */
    ghost function Left(): nat
      requires Shape()
      reads this, source, buffer
    {
      2 * |source.unread| + bufferDataSize
    }

    /** Nothing is left once the end of the file was reported, except, in raw
        mode, the text that had been converted before. */
    lemma NothingAfterEof()
      requires Valid() && isEof
      ensures PendingBytes() == [] && Pending() == Text()
      ensures !rawMode ==> Pending() == []
    {
      assert Text() + [] == Text();
      assert Raw() + source.unread == [];
    }

    constructor (step: Decoder, source: Source, binary: bool)
      requires Sound(step)
      ensures Valid() && !isEof && !isEofRaw && rawMode == binary
      ensures this.step == step && this.source == source
      ensures Pending() == Decode(step, source.unread) && PendingBytes() == source.unread
      ensures fresh(buffer) && fresh(utf8)
    {
      this.step, this.source, rawMode := step, source, binary;
      isEof, isEofRaw := false, false;
      buffer, bufferDataSize := new Byte[0], 0;
      utf8, utf8DataSize := new Byte[0], 0;
      new;
      assert Raw() + source.unread == source.unread;
      assert Text() == [];
    }

    method Alloc()
      requires Valid() && buffer.Length == 0
      modifies this
      ensures Valid() && fresh(buffer) && fresh(utf8)
      ensures buffer.Length == utf8.Length == 65536
      ensures Raw() == [] && Text() == []
      ensures isEof == old(isEof) && isEofRaw == old(isEofRaw) && rawMode == old(rawMode)
    {
      buffer := new Byte[BUFFER_SIZE](_ => 0);
      bufferDataSize := 0;
      utf8 := new Byte[BUFFER_SIZE](_ => 0);
      utf8DataSize := 0;
    }

    /** Give the UTF-8 buffer a fifth more room. */
    method Realloc()
      requires Valid() && buffer.Length > 0
      modifies this
      ensures Valid() && fresh(utf8) && utf8.Length == old(utf8.Length) * 6 / 5 > old(utf8.Length) + MAX_OUT
      ensures buffer == old(buffer) && bufferDataSize == old(bufferDataSize)
      ensures Text() == old(Text())
      ensures isEof == old(isEof) && isEofRaw == old(isEofRaw) && rawMode == old(rawMode)
    {
      var newSize := utf8.Length * 6 / 5;
      if newSize == utf8.Length { newSize := 2 * newSize; }
      var nb := new Byte[newSize](_ => 0);
      Store(nb, 0, utf8[..utf8DataSize]);
      utf8 := nb;
      assert Text() == old(Text());
    }

    /** Put a character that was converted behind the text. */
    method PutChar(inPos: nat, outPos: nat, r: Step, ghost rest: seq<Byte>) returns (inPos': nat, outPos': nat)
      requires Shape() && Sound(step) && inPos < bufferDataSize && outPos <= utf8.Length && Whole(utf8[..outPos])
      requires r.Char? && r == step(buffer[inPos..bufferDataSize]) && |r.out| <= utf8.Length - outPos
      modifies utf8
      ensures inPos < inPos' <= bufferDataSize && outPos < outPos' <= utf8.Length
      ensures utf8[..outPos] == old(utf8[..outPos]) && Whole(utf8[..outPos'])
      ensures utf8[..outPos'] + Decode(step, buffer[inPos'..bufferDataSize] + rest)
           == old(utf8[..outPos]) + Decode(step, buffer[inPos..bufferDataSize] + rest)
    {
      ghost var x := buffer[inPos..bufferDataSize];
      DecodeChar(step, utf8[..outPos], x, rest);
      inPos', outPos' := inPos + r.used, outPos + |r.out|;
      assert x[r.used..] == buffer[inPos'..bufferDataSize];
      Store(utf8, outPos, r.out);
    }

    /** Convert as many characters of the raw buffer as possible, from inbuf
        on, to the UTF-8 buffer, from outbuf on. */
    method Riconv(inbuf: nat, outbuf: nat, ghost rest: seq<Byte>)
      returns (inPos: nat, outPos: nat, status: IconvStatus)
      requires Shape() && Sound(step)
      requires inbuf <= bufferDataSize && outbuf <= utf8.Length
      requires Whole(utf8[..outbuf])
      modifies utf8
      ensures inbuf <= inPos <= bufferDataSize && outbuf <= outPos <= utf8.Length
      ensures utf8[..outbuf] == old(utf8[..outbuf]) && Whole(utf8[..outPos])
      ensures utf8[..outPos] + Decode(step, buffer[inPos..bufferDataSize] + rest)
           == utf8[..outbuf] + Decode(step, buffer[inbuf..bufferDataSize] + rest)
      ensures outbuf < outPos <==> inbuf < inPos
      ensures var x := buffer[inPos..bufferDataSize];
              if x == [] then status.Converted? else
              match step(x)
              case Char(_, out) => status.TooBig? && utf8.Length - outPos < |out|
              case Invalid => status.IllegalSequence?
              case Incomplete => status.IncompleteInput?
    {
      inPos, outPos := inbuf, outbuf;
      while inPos < bufferDataSize
        modifies utf8
        invariant inbuf <= inPos <= bufferDataSize && outbuf <= outPos <= utf8.Length
        invariant utf8[..outbuf] == old(utf8[..outbuf]) && Whole(utf8[..outPos])
        invariant utf8[..outPos] + Decode(step, buffer[inPos..bufferDataSize] + rest)
               == utf8[..outbuf] + Decode(step, buffer[inbuf..bufferDataSize] + rest)
        invariant outbuf < outPos <==> inbuf < inPos
      {
        var x := buffer[inPos..bufferDataSize];
        var r := step(x);
        if r.Invalid? { return inPos, outPos, IllegalSequence; }
        if r.Incomplete? { return inPos, outPos, IncompleteInput; }
        assert StepOk(step, x);
        if utf8.Length - outPos < |r.out| { return inPos, outPos, TooBig; }
        ghost var before := utf8[..outPos];
        inPos, outPos := PutChar(inPos, outPos, r, rest);
        assert utf8[..outbuf] == before[..outbuf];
      }
      status := Converted;
    }

    /** Convert the raw buffer, dropping invalid bytes one by one, and an
        incomplete character only if nothing can follow it. */
    method Convert() returns (inPos: nat, outPos: nat)
      requires Valid() && utf8DataSize < utf8.Length && bufferDataSize > 0
      modifies utf8
      ensures inPos <= bufferDataSize && utf8DataSize <= outPos <= utf8.Length
      ensures utf8[..utf8DataSize] == old(Text()) && Whole(utf8[..outPos])
      ensures utf8[..outPos] + Decode(step, buffer[inPos..bufferDataSize] + source.unread) == old(Pending())
      ensures outPos > utf8DataSize ==> inPos > 0
      ensures utf8.Length - utf8DataSize >= MAX_OUT && (isEofRaw || bufferDataSize >= MAX_IN) ==> inPos > 0
    {
      inPos, outPos := 0, utf8DataSize;
      var moved := false;
      assert buffer[0..bufferDataSize] == Raw();
      while !moved
        modifies utf8
        invariant inPos <= bufferDataSize && utf8DataSize <= outPos <= utf8.Length
        invariant !moved ==> inPos < bufferDataSize
        invariant utf8[..utf8DataSize] == old(Text()) && Whole(utf8[..outPos])
        invariant utf8[..outPos] + Decode(step, buffer[inPos..bufferDataSize] + source.unread) == old(Pending())
        invariant outPos > utf8DataSize ==> inPos > 0
        invariant inPos == 0 ==> outPos == utf8DataSize
        invariant moved && utf8.Length - utf8DataSize >= MAX_OUT && (isEofRaw || bufferDataSize >= MAX_IN) ==> inPos > 0
        decreases bufferDataSize - inPos, !moved
      {
        var status;
        inPos, outPos, status := Riconv(inPos, outPos, source.unread);
        moved := true;
        ghost var x := buffer[inPos..bufferDataSize];
        if x != [] { DecodeStep(step, x, source.unread); }
        if status.IllegalSequence? {
          inPos := inPos + 1;
          assert x[1..] == buffer[inPos..bufferDataSize];
          if inPos < bufferDataSize { moved := false; }
        } else if status.IncompleteInput? && isEofRaw {
          inPos := bufferDataSize;
          assert buffer[inPos..bufferDataSize] + source.unread == [];
        }
      }
    }

    /** Drop the first n bytes of the raw buffer, and move the rest to its
        front. */
    method DropRaw(n: nat)
      requires Shape() && n <= bufferDataSize
      modifies this`bufferDataSize, buffer
      ensures Shape() && bufferDataSize == old(bufferDataSize) - n
      ensures Raw() == old(buffer[n..bufferDataSize])
    {
      ghost var rest := buffer[n..bufferDataSize];
      bufferDataSize := bufferDataSize - n;
      if n > 0 { MoveToFront(buffer, n, bufferDataSize); }
      assert Raw() == rest;
    }

    /** Returns the number of new bytes of text. */
    method ToUtf8() returns (outdone: nat)
      requires Valid()
      modifies this, buffer, utf8
      ensures Valid() && buffer == old(buffer) && utf8 == old(utf8)
      ensures isEof == old(isEof) && isEofRaw == old(isEofRaw) && rawMode == old(rawMode)
      ensures Pending() == old(Pending())
      ensures old(Text()) <= Text() && utf8DataSize == old(utf8DataSize) + outdone
      ensures bufferDataSize <= old(bufferDataSize)
      ensures outdone > 0 ==> bufferDataSize < old(bufferDataSize)
      ensures
        old(bufferDataSize) > 0 && old(utf8.Length - utf8DataSize) >= MAX_OUT &&
        (isEofRaw || old(bufferDataSize) >= MAX_IN)
        ==> bufferDataSize < old(bufferDataSize)
    {
      if bufferDataSize == 0 || utf8DataSize == utf8.Length { return 0; }
      var inPos, outPos := Convert();
      outdone := outPos - utf8DataSize;
      DropRaw(inPos);
      utf8DataSize := utf8DataSize + outdone;
    }

    /** The read(2) call and what it says about the end of the file. Returns
        false if R throws an error. */
    method Fill() returns (ok: bool)
      requires Valid() && bufferDataSize < buffer.Length
      requires !(isEofRaw && bufferDataSize == 0)
      modifies this, buffer, source
      ensures Valid() && rawMode == old(rawMode) && buffer == old(buffer) && utf8 == old(utf8)
      ensures source.failures == old(source.failures) + if ok then 0 else 1
      ensures old(isEofRaw) ==> isEofRaw
      ensures Text() == old(Text())
      ensures Raw() + source.unread == old(Raw() + source.unread)
      ensures old(bufferDataSize) <= bufferDataSize
      ensures bufferDataSize == old(bufferDataSize) || Left() < old(Left())
      ensures ok ==> bufferDataSize > old(bufferDataSize) || isEofRaw || source.stalls < old(source.stalls)
      ensures source.stalls <= old(source.stalls) && (old(source.ready) ==> source.stalls == old(source.stalls))
      ensures isEof <==> isEofRaw && bufferDataSize == 0 && utf8DataSize == 0
    {
      var res := source.Read(buffer.Length - bufferDataSize);
      if res.Data? {
        Store(buffer, bufferDataSize, res.bytes);
        bufferDataSize := bufferDataSize + |res.bytes|;
      } else if res.EndOfFile? || res.PtyClosed? {
        isEofRaw := true;
        if utf8DataSize == 0 && bufferDataSize == 0 { isEof := true; }
      }
      return !res.Failed?;
    }

    /** Read from the descriptor once, and convert what is there. Not in raw
        mode, unless the raw buffer is full. */
    method Read() returns (r: Result<nat>)
      requires Valid()
      modifies this, buffer, utf8, source
      ensures Valid() && rawMode == old(rawMode)
      ensures (buffer == old(buffer) || fresh(buffer)) && (utf8 == old(utf8) || fresh(utf8))
      ensures old(isEof) ==> isEof
      ensures old(isEofRaw) ==> isEofRaw
      ensures Pending() == old(Pending())
      ensures rawMode && old(bufferDataSize) < BUFFER_SIZE ==>
        PendingBytes() == old(PendingBytes()) && Text() == old(Text())
      ensures old(Text()) <= Text()
      ensures r.Ok? && !rawMode ==> utf8DataSize == old(utf8DataSize) + r.value
      ensures r.Error? ==> utf8DataSize == old(utf8DataSize)
      ensures source.failures == old(source.failures) + if r.Error? then 1 else 0
      ensures Left() <= old(Left()) && source.stalls <= old(source.stalls)
      ensures old(source.ready) ==> source.stalls == old(source.stalls)
      ensures r.Ok? && r.value > 0 && !rawMode ==> Left() < old(Left())
      ensures
        r.Ok? && !rawMode && (old(utf8DataSize) == 0 || old(utf8.Length - utf8DataSize) >= MAX_OUT)
        ==>
        || Left() < old(Left())
        || (source.stalls < old(source.stalls) && !old(isEofRaw))
        || (isEofRaw && !old(isEofRaw))
        || (old(isEofRaw && bufferDataSize == 0) && (utf8DataSize == 0 ==> isEof))
    {
      if isEofRaw && bufferDataSize == 0 {
        if utf8DataSize == 0 { isEof := true; }
        return Ok(0);
      }
      if buffer.Length == 0 { Alloc(); }
      var n;
      if bufferDataSize == buffer.Length {
        n := ToUtf8();
        return Ok(n);
      }
      var ok := Fill();
      if !ok { return Error; }
      if !rawMode && bufferDataSize > 0 {
        n := ToUtf8();
      } else {
        n := bufferDataSize;
      }
      return Ok(n);
    }

    /** How many characters, and bytes, of the UTF-8 buffer are within the
        limits? Fails on text that is not UTF-8, which never happens. */
    method FindUtf8Chars(ghost t: seq<Byte>, maxChars: int, maxBytes: int) returns (r: Result<(nat, nat)>)
      requires Shape() && t == Text() && Whole(t)
      ensures r.Ok? && Longest(t, maxChars, maxBytes, r.value.1)
      ensures r.value.0 == NumChars(t[..r.value.1])
    {
      var ptr: nat, chars: nat := 0, 0;
      var charsLeft, bytesLeft := maxChars, maxBytes;
      assert t[..0] == [] && t[0..] == t;
      while charsLeft != 0 && bytesLeft != 0 && ptr < utf8DataSize
        invariant AtChar(t, ptr, chars)
        invariant if maxChars >= 0 then charsLeft == maxChars - chars >= 0 else charsLeft < 0
        invariant if maxBytes >= 0 then bytesLeft == maxBytes - ptr >= 0 else bytesLeft < 0
      {
        AtNextChar(t, ptr, chars);
        var clen := TableLength(utf8[ptr]);
        if clen == 0 || utf8DataSize - ptr < clen { return Error; }
        if bytesLeft > 0 && clen > bytesLeft { break; }
        ptr, chars := ptr + clen, chars + 1;
        if charsLeft > 0 { charsLeft := charsLeft - 1; }
        if bytesLeft > 0 { bytesLeft := bytesLeft - clen; }
      }
      if ptr < |t| { AtNextChar(t, ptr, chars); }
      LongestIfNextIsOver(t, maxChars, maxBytes, ptr);
      return Ok((chars, ptr));
    }

    /** Hand out the first n bytes of text. */
    method TakeText(n: nat) returns (out: seq<Byte>)
      requires Valid() && n <= utf8DataSize && Whole(Text()[n..])
      modifies this, utf8
      ensures Valid() && isEof == old(isEof) && isEofRaw == old(isEofRaw) && rawMode == old(rawMode)
      ensures buffer == old(buffer) && utf8 == old(utf8)
      ensures bufferDataSize == old(bufferDataSize)
      ensures old(Text()) == out + Text() && |out| == n
      ensures old(Pending()) == out + Pending()
    {
      out := utf8[..n];
      Cut(Text(), n);
      Regroup(Text()[..n], Text()[n..], Decode(step, Raw() + source.unread));
      assert out == Text()[..n];
      DropText(n);
    }

    method DropText(n: nat)
      requires Valid() && n <= utf8DataSize && Whole(Text()[n..])
      modifies this`utf8DataSize, utf8
      ensures Valid() && Text() == old(Text())[n..]
      ensures Raw() == old(Raw())
    {
      assert utf8[n..utf8DataSize] == Text()[n..];
      utf8DataSize := utf8DataSize - n;
      MoveToFront(utf8, n, utf8DataSize);
    }

    /** Hand out as much text as the limits allow. */
    method TakeLongest(nchars: int, nbytes: int) returns (out: seq<Byte>)
      requires Valid()
      modifies this, utf8
      ensures Valid() && isEof == old(isEof) && isEofRaw == old(isEofRaw) && rawMode == old(rawMode)
      ensures buffer == old(buffer) && utf8 == old(utf8)
      ensures bufferDataSize == old(bufferDataSize)
      ensures old(Text()) == out + Text() && Whole(out) && Longest(old(Text()), nchars, nbytes, |out|)
      ensures old(Pending()) == out + Pending()
      ensures nchars < 0 && nbytes < 0 ==> Text() == []
    {
      ghost var t := Text();
      if utf8DataSize == 0 || nchars == 0 {
        NoneTaken(t, nchars, nbytes);
        return [];
      }
      var found := FindUtf8Chars(t, nchars, nbytes);
      var n := found.value.1;
      RestIsWhole(t, n);
      out := TakeText(n);
      Remains(t, out, Text());
      if nbytes < 0 && nchars < 0 { LongestProgress(t, nbytes, n); }
    }

    /** Read at most nchars characters and nbytes bytes of text; a negative
        number is no limit. */
    method ReadLimited(nchars: int, nbytes: int) returns (r: Result<seq<Byte>>)
      requires Valid() && !rawMode
      modifies this, buffer, utf8, source
      ensures Valid() && !rawMode
      ensures (buffer == old(buffer) || fresh(buffer)) && (utf8 == old(utf8) || fresh(utf8))
      ensures old(isEof) ==> isEof
      ensures old(isEofRaw) ==> isEofRaw
      ensures r.Ok? ==> old(Pending()) == r.value + Pending()
      ensures r.Ok? ==> Whole(r.value) && Longest(r.value + Text(), nchars, nbytes, |r.value|)
      ensures r.Ok? && old(Text()) != [] ==> r.value + Text() == old(Text())
      ensures r.Error? ==> Pending() == old(Pending())
      ensures source.failures == old(source.failures) + if r.Error? then 1 else 0
      ensures Left() <= old(Left()) && source.stalls <= old(source.stalls)
      ensures old(source.ready) ==> source.stalls == old(source.stalls)
      ensures r.Ok? && nchars < 0 && nbytes < 0 ==> Text() == []
      ensures
        r.Ok? && old(utf8DataSize) == 0
        ==>
        || Left() < old(Left())
        || (source.stalls < old(source.stalls) && !old(isEofRaw))
        || (isEofRaw && !old(isEofRaw))
        || isEof
    {
      if !isEof && utf8DataSize == 0 {
        var n := Read();
        if n.Error? { return Error; }
      }
      var out := TakeLongest(nchars, nbytes);
      r := Ok(out);
    }

    /** The reader of the R API. */
    method ReadChars(nchars: int) returns (r: Result<seq<Byte>>)
      requires Valid() && !rawMode
      modifies this, buffer, utf8, source
      ensures Valid() && !rawMode
      ensures (buffer == old(buffer) || fresh(buffer)) && (utf8 == old(utf8) || fresh(utf8))
      ensures old(isEof) ==> isEof
      ensures old(isEofRaw) ==> isEofRaw
      ensures r.Ok? ==> old(Pending()) == r.value + Pending() && Whole(r.value)
      ensures r.Ok? ==> Whole(r.value + Text())
      ensures
        r.Ok? && nchars >= 0
        ==> NumChars(r.value) == if nchars <= NumChars(r.value + Text()) then nchars else NumChars(r.value + Text())
      ensures r.Error? ==> Pending() == old(Pending())
      ensures source.failures == old(source.failures) + if r.Error? then 1 else 0
      ensures Left() <= old(Left()) && source.stalls <= old(source.stalls)
      ensures old(source.ready) ==> source.stalls == old(source.stalls)
      ensures r.Ok? && nchars < 0 ==> Text() == []
      ensures
        r.Ok? && old(utf8DataSize) == 0
        ==>
        || Left() < old(Left())
        || (source.stalls < old(source.stalls) && !old(isEofRaw))
        || (isEofRaw && !old(isEofRaw))
        || isEof
    {
      r := ReadLimited(nchars, -1);
      if r.Ok? {
        WholeAppend(r.value, Text());
        if nchars >= 0 {
          ghost var t := r.value + Text();
          LongestChars(t, nchars, |r.value|);
          assert t[..|r.value|] == r.value;
        }
      }
    }

    /** The reader of the C API: fill a buffer of nbyte bytes with as many
        whole characters as fit. */
    method CReadChars(nbyte: nat) returns (r: Result<seq<Byte>>)
      requires Valid() && !rawMode
      modifies this, buffer, utf8, source
      ensures Valid() && !rawMode
      ensures (buffer == old(buffer) || fresh(buffer)) && (utf8 == old(utf8) || fresh(utf8))
      ensures old(isEof) ==> isEof
      ensures nbyte < 4 ==> r.Error?
      ensures r.Ok? ==> old(Pending()) == r.value + Pending()
      ensures r.Ok? ==> Whole(r.value) && Longest(r.value + Text(), -1, nbyte, |r.value|)
      ensures r.Ok? && old(Text()) != [] ==> r.value != []
      ensures r.Error? ==> Pending() == old(Pending())
      ensures nbyte >= 4 ==> source.failures == old(source.failures) + if r.Error? then 1 else 0
    {
      if nbyte < 4 { return Error; }
      r := ReadLimited(-1, nbyte);
      if r.Ok? {
        WholeAppend(r.value, Text());
        LongestProgress(r.value + Text(), nbyte, |r.value|);
      }
    }

    /** Position of the first newline of the text t, from start on. */
    method FindNewline(ghost t: seq<Byte>, start: nat) returns (r: int)
      requires Shape() && t == Text() && start <= |t|
      ensures r == if NextNewline(t, start) < |t| then NextNewline(t, start) else -1
    {
      var ptr := start;
      while ptr < utf8DataSize && utf8[ptr] != NL
        invariant start <= ptr <= |t|
        invariant Without(t, start, ptr)
      {
        ptr := ptr + 1;
      }
      NextNewlineIsNext(t, start, ptr);
      return if ptr < utf8DataSize then ptr else -1;
    }

    /** Read until there is nothing more to read for now, making room for it.
        Nothing that is read here is searched for a newline. With text in the
        buffer the connection is not at its end, so that test of the original
        loop never holds. */
    method ReadMore() returns (ok: bool)
      requires Valid() && !rawMode && utf8DataSize > 0 && !isEof
      modifies this, buffer, utf8, source
      ensures Valid() && !rawMode && !isEof
      ensures (buffer == old(buffer) || fresh(buffer)) && (utf8 == old(utf8) || fresh(utf8))
      ensures source.failures == old(source.failures) + if ok then 0 else 1
      ensures old(isEofRaw) ==> isEofRaw
      ensures Pending() == old(Pending())
      ensures old(Text()) <= Text()
      ensures Left() <= old(Left()) && source.stalls <= old(source.stalls)
      ensures utf8DataSize > old(utf8DataSize) ==> Left() < old(Left())
      ensures
        ok
        ==>
        || Left() < old(Left())
        || (source.stalls < old(source.stalls) && !old(isEofRaw))
        || (isEofRaw && !old(isEofRaw))
        || old(isEofRaw && bufferDataSize == 0)
    {
      var n := 1;
      while n > 0
        invariant Valid() && !rawMode && !isEof
        invariant (buffer == old(buffer) || fresh(buffer)) && (utf8 == old(utf8) || fresh(utf8))
        invariant source.failures == old(source.failures)
        invariant old(isEofRaw) ==> isEofRaw
        invariant Pending() == old(Pending())
        invariant old(Text()) <= Text()
        invariant Left() <= old(Left()) && source.stalls <= old(source.stalls)
        invariant utf8DataSize > old(utf8DataSize) ==> Left() < old(Left())
        invariant n > 0 && Left() == old(Left()) ==>
          isEofRaw == old(isEofRaw) && bufferDataSize == old(bufferDataSize) && source.stalls == old(source.stalls)
        invariant
          n == 0
          ==>
          || Left() < old(Left())
          || (source.stalls < old(source.stalls) && !old(isEofRaw))
          || (isEofRaw && !old(isEofRaw))
          || old(isEofRaw && bufferDataSize == 0)
        decreases Left(), n
      {
        if utf8DataSize >= utf8.Length - 8 { Realloc(); }
        var r := Read();
        if r.Error? { return false; }
        n := r.value;
      }
      ok := true;
    }

    /** Look for a newline in the text; if there is none, read on. */
    method FindOrReadMore() returns (r: Result<int>)
      requires Valid() && !rawMode && utf8DataSize > 0
      modifies this, buffer, utf8, source
      ensures Valid() && !rawMode && !isEof
      ensures (buffer == old(buffer) || fresh(buffer)) && (utf8 == old(utf8) || fresh(utf8))
      ensures source.failures == old(source.failures) + if r.Error? then 1 else 0
      ensures old(isEofRaw) ==> isEofRaw
      ensures Pending() == old(Pending())
      ensures old(Text()) <= Text()
      ensures FirstNewline(Text()) < old(utf8DataSize) ==> utf8DataSize == old(utf8DataSize)
      ensures r.Ok? ==> r.value == if FirstNewline(Text()) < old(utf8DataSize) then FirstNewline(Text()) else -1
      ensures Left() <= old(Left()) && source.stalls <= old(source.stalls)
      ensures utf8DataSize > old(utf8DataSize) ==> Left() < old(Left())
      ensures
        r == Ok(-1)
        ==>
        || Left() < old(Left())
        || (source.stalls < old(source.stalls) && !old(isEofRaw))
        || (isEofRaw && !old(isEofRaw))
        || old(isEofRaw && bufferDataSize == 0)
    {
      ghost var t := Text();
      var found := FindNewline(t, 0);
      if found >= 0 { return Ok(found); }
      var ok := ReadMore();
      FirstNewlineOfMore(t, Text());
      return if ok then Ok(-1) else Error;
    }

    /** Read until there is a newline, or nothing more to read for now. Only
        the first `seen` bytes of the text are searched. */
    method ReadUntilNewline() returns (r: Result<int>, ghost seen: nat)
      requires Valid() && !rawMode
      modifies this, buffer, utf8, source
      ensures Valid() && !rawMode
      ensures (buffer == old(buffer) || fresh(buffer)) && (utf8 == old(utf8) || fresh(utf8))
      ensures old(isEof) ==> isEof
      ensures source.failures == old(source.failures) + if r.Error? then 1 else 0
      ensures old(isEofRaw) ==> isEofRaw
      ensures Pending() == old(Pending())
      ensures old(Text()) <= Text() && seen <= utf8DataSize && (utf8DataSize > 0 ==> seen > 0)
      ensures old(utf8DataSize) > 0 ==> seen == old(utf8DataSize)
      ensures FirstNewline(Text()) < seen ==> seen == utf8DataSize
      ensures r.Ok? ==> r.value == if FirstNewline(Text()) < seen then FirstNewline(Text()) else -1
      ensures Left() <= old(Left()) && source.stalls <= old(source.stalls)
      ensures utf8DataSize > old(utf8DataSize) ==> Left() < old(Left())
      ensures
        r == Ok(-1)
        ==>
        || Left() < old(Left())
        || (source.stalls < old(source.stalls) && !old(isEofRaw))
        || (isEofRaw && !old(isEofRaw))
        || (old(isEofRaw && bufferDataSize == 0) && (utf8DataSize == 0 ==> isEof))
    {
      seen := utf8DataSize;
      if utf8DataSize == 0 {
        var first := Read();
        seen := utf8DataSize;
        if first.Error? { return Error, seen; }
        if utf8DataSize == 0 { return Ok(-1), seen; }
      }
      r := FindOrReadMore();
    }

    /** The number of complete lines among the first n of the text t, given
        the position of the first newline. */
    method CountLines(ghost t: seq<Byte>, newline: int, n: nat) returns (lines: nat)
      requires Shape() && t == Text()
      requires newline == if FirstNewline(t) < |t| then FirstNewline(t) else -1
      ensures lines == if n <= CountNewlines(t) then n else CountNewlines(t)
    {
      var next := newline;
      lines := 0;
      NextLine(t, 0);
      while next != -1 && lines < n
        invariant lines <= n && lines <= CountNewlines(t)
        invariant var i := NextNewline(t, LineStart(t, lines)); next == if i < |t| then i else -1
        invariant next == -1 <==> lines == CountNewlines(t)
        decreases n - lines
      {
        NextLine(t, lines);
        lines := lines + 1;
        next := FindNewline(t, next + 1);
        NextLine(t, lines);
      }
    }

    /** Copy out the line of the text t from `from` to its newline, at eol. */
    method CopyLine(ghost t: seq<Byte>, from: nat, eol: nat) returns (line: seq<Byte>)
      requires Shape() && t == Text() && from <= eol < |t|
      requires from > 0 ==> t[from - 1] == NL
      ensures line == LineAt(t, from, eol)
    {
      var slashr := if eol > 0 && utf8[eol - 1] == CR then 1 else 0;
      return utf8[from..eol - slashr];
    }

    /** Copy out the first k lines of the text t. Returns the position of the
        last newline copied, -1 if there is none. */
    method CopyLines(ghost t: seq<Byte>, k: nat) returns (lines: seq<seq<Byte>>, eol: int)
      requires Shape() && t == Text() && k <= CountNewlines(t)
      ensures lines == LinesOf(t, k)
      ensures -1 <= eol < |t| && eol + 1 == LineStart(t, k)
      ensures eol >= 0 ==> t[eol] == NL
    {
      lines, eol := [], -1;
      for l := 0 to k
        invariant lines == LinesOf(t, l)
        invariant -1 <= eol < |t| && eol + 1 == LineStart(t, l)
        invariant eol >= 0 ==> t[eol] == NL
      {
        var newline := eol;
        NextLine(t, l);
        eol := FindNewline(t, newline + 1);
        var line := CopyLine(t, newline + 1, eol);
        LinesOfNext(t, l);
        lines := lines + [line];
      }
    }

    /** Is the text the last of the file, and without a newline at its end? */
    predicate Unterminated(): (b: bool)
      requires Shape()
      reads this, utf8
      ensures b <==> isEofRaw && bufferDataSize == 0 && Unended(Text())
    {
      isEofRaw && utf8DataSize != 0 && bufferDataSize == 0 && utf8[utf8DataSize - 1] != NL
    }

    method CopyRest(ghost t: seq<Byte>, from: nat) returns (line: seq<Byte>)
      requires Shape() && t == Text() && from <= |t|
      ensures line == t[from..]
    {
      line := utf8[from..utf8DataSize];
      assert line == t[from..];
    }

    /** Copy out the first k lines of the text, and if `last`, then the rest of
        it as one more. Returns the position of the last byte copied. */
    method CopyElements(ghost t: seq<Byte>, k: nat, last: bool) returns (lines: seq<seq<Byte>>, eol: int)
      requires Shape() && t == Text() && k <= CountNewlines(t)
      requires last ==> utf8DataSize > 0
      ensures lines == LinesOf(t, k) + if last then [AfterLines(t, k)] else []
      ensures -1 <= eol < |t| && eol + 1 == if last then |t| else LineStart(t, k)
      ensures eol >= 0 ==> eol + 1 == |t| || t[eol] == NL
    {
      lines, eol := CopyLines(t, k);
      if last {
        var line := CopyRest(t, eol + 1);
        lines, eol := lines + [line], utf8DataSize - 1;
      } else {
        NothingMore(lines);
      }
    }

    /** Hand out the first k lines of the text, and if `last`, then the rest
        of it as one more. */
    method TakeLines(ghost t: seq<Byte>, k: nat, last: bool) returns (lines: seq<seq<Byte>>, ghost taken: seq<Byte>)
      requires Valid() && t == Text() && k <= CountNewlines(t)
      requires last ==> utf8DataSize > 0
      modifies this, utf8
      ensures Valid() && isEof == old(isEof) && isEofRaw == old(isEofRaw) && rawMode == old(rawMode)
      ensures buffer == old(buffer) && utf8 == old(utf8) && bufferDataSize == old(bufferDataSize)
      ensures old(Pending()) == taken + Pending()
      ensures lines == LinesOf(t, k) + if last then [AfterLines(t, k)] else []
      ensures t == taken + Text() && |taken| == if last then |t| else LineStart(t, k)
    {
      var eol;
      lines, eol := CopyElements(t, k, last);
      taken := [];
      if eol >= 0 {
        if eol + 1 < utf8DataSize { WholeCutAtAscii(t, eol); }
        taken := TakeText(eol + 1);
      }
    }

    /** Count the lines of the text t, up to n, given the first newline in
        t[..seen]. Is there a last line without one? */
    method CountFound(ghost t: seq<Byte>, newline: int, n: int, ghost seen: nat) returns (lines: nat, last: bool)
      requires Shape() && t == Text() && seen <= |t|
      requires newline == if FirstNewline(t) < seen then FirstNewline(t) else -1
      ensures lines == LineCount(t, seen, n) <= CountNewlines(t)
      ensures last <==> isEofRaw && bufferDataSize == 0 && Unended(t)
      ensures t != [] && n != 0 && lines == 0 ==> FirstNewline(t) >= seen && (seen == |t| ==> Unended(t))
    {
      lines, last := 0, Unterminated();
      if newline != -1 { lines := CountLines(t, newline, if n < 0 then DEFAULT_LINES else n); }
      if n != 0 && t != [] { LineToRead(t, seen, n); }
    }

    /** Read until there is a newline, and count the lines there are then, up
        to n, or 1000 if n is negative. Is there a last line without one? */
    method FindLines(n: int) returns (r: Result<(nat, bool)>, ghost seen: nat)
      requires Valid() && !rawMode
      modifies this, buffer, utf8, source
      ensures Valid() && !rawMode
      ensures (buffer == old(buffer) || fresh(buffer)) && (utf8 == old(utf8) || fresh(utf8))
      ensures old(isEof) ==> isEof
      ensures source.failures == old(source.failures) + if r.Error? then 1 else 0
      ensures old(isEofRaw) ==> isEofRaw
      ensures Pending() == old(Pending())
      ensures old(Text()) <= Text()
      ensures old(utf8DataSize) > 0 ==> seen == old(utf8DataSize)
      ensures seen <= utf8DataSize && (utf8DataSize > 0 ==> seen > 0)
      ensures r.Ok? ==> r.value.0 == LineCount(Text(), seen, n) <= CountNewlines(Text())
      ensures r.Ok? ==> (r.value.1 <==> isEofRaw && bufferDataSize == 0 && Unended(Text()))
      ensures Left() <= old(Left()) && source.stalls <= old(source.stalls)
      ensures utf8DataSize > old(utf8DataSize) ==> Left() < old(Left())
      ensures
        r.Ok? && n != 0
        ==>
        || Left() < old(Left())
        || source.stalls < old(source.stalls)
        || (isEofRaw && !old(isEofRaw))
        || isEof
        || r.value.0 > 0
        || r.value.1
    {
      var newline;
      newline, seen := ReadUntilNewline();
      if newline.Error? { return Error, seen; }
      var lines, last := CountFound(Text(), newline.value, n, seen);
      r := Ok((lines, last));
    }

    /** Read at most n lines, or 1000 if n is negative. `text` is all that was
        in the buffer in the end, `taken` the part that was handed out. */
    method ReadLines(n: int) returns (
        r: Result<seq<seq<Byte>>>, ghost text: seq<Byte>, ghost taken: seq<Byte>, ghost seen: nat, ghost eof: bool)
      requires Valid() && !rawMode
      modifies this, buffer, utf8, source
      ensures Valid() && !rawMode
      ensures (buffer == old(buffer) || fresh(buffer)) && (utf8 == old(utf8) || fresh(utf8))
      ensures old(isEof) ==> isEof
      ensures source.failures == old(source.failures) + if r.Error? then 1 else 0
      ensures old(isEofRaw) ==> isEofRaw
      ensures old(Pending()) == taken + Pending()
      ensures text == taken + Text() && old(Text()) <= text
      ensures text != [] ==> seen > 0
      ensures old(utf8DataSize) > 0 ==> seen == old(utf8DataSize)
      ensures r.Error? ==> taken == []
      ensures r.Ok? ==> r.value == LinesRead(text, seen, n, eof) && Text() == LeftUnread(text, seen, n, eof)
      ensures r.Ok? ==> (eof <==> isEofRaw && bufferDataSize == 0 && Unended(text))
      ensures r.Ok? ==> |r.value| - (if eof then 1 else 0) <= if n < 0 then 1000 else n
      ensures Left() <= old(Left()) && source.stalls <= old(source.stalls)
      ensures utf8DataSize > old(utf8DataSize) ==> Left() < old(Left())
      ensures
        r.Ok? && n != 0
        ==>
        || Left() < old(Left())
        || source.stalls < old(source.stalls)
        || (isEofRaw && !old(isEofRaw))
        || isEof
        || utf8DataSize < old(utf8DataSize)
    {
      var found;
      found, seen := FindLines(n);
      text, taken, eof := Text(), [], false;
      if found.Error? { return Error, text, taken, seen, eof; }
      eof := found.value.1;
      var out;
      out, taken := TakeLines(text, found.value.0, found.value.1);
      Remains(text, taken, Text());
      NewlinesLeft(text, found.value.0);
      WithinLimit(text, seen, n, eof);
      r := Ok(out);
    }

    /** Switch to raw mode, and read if there is nothing in the buffer. */
    method FillRaw() returns (ok: bool)
      requires Valid()
      modifies this, buffer, utf8, source
      ensures Valid() && rawMode
      ensures (buffer == old(buffer) || fresh(buffer)) && (utf8 == old(utf8) || fresh(utf8))
      ensures old(isEof) ==> isEof
      ensures PendingBytes() == old(PendingBytes()) && Text() == old(Text())
      ensures old(bufferDataSize) > 0 ==> bufferDataSize == old(bufferDataSize)
      ensures ok ==> (isEof <==> isEofRaw && bufferDataSize == 0)
      ensures source.failures == old(source.failures) + if ok then 0 else 1
    {
      rawMode := true;
      if bufferDataSize == 0 && !isEofRaw {
        var n := Read();
        if n.Error? { return false; }
      }
      if isEofRaw && bufferDataSize == 0 { isEof := true; }
      ok := true;
    }

    /** Read at most nbytes bytes as they are; a negative number is no limit.
        Text that was converted before stays where it is. */
    method ReadBytes(nbytes: int) returns (r: Result<seq<Byte>>)
      requires Valid()
      modifies this, buffer, utf8, source
      ensures Valid() && rawMode
      ensures (buffer == old(buffer) || fresh(buffer)) && (utf8 == old(utf8) || fresh(utf8))
      ensures old(isEof) ==> isEof
      ensures Text() == old(Text())
      ensures r.Ok? ==> old(PendingBytes()) == r.value + PendingBytes()
      ensures r.Ok? ==> (isEof <==> isEofRaw && r.value == [] && bufferDataSize == 0)
      ensures r.Ok? && nbytes >= 0 ==> |r.value| <= nbytes
      ensures r.Ok? && old(bufferDataSize) > 0 ==>
        |r.value| == if 0 <= nbytes < old(bufferDataSize) then nbytes else old(bufferDataSize)
      ensures r.Error? ==> PendingBytes() == old(PendingBytes())
      ensures source.failures == old(source.failures) + if r.Error? then 1 else 0
    {
      var ok := FillRaw();
      if !ok { return Error; }
      var toRead := bufferDataSize;
      if 0 <= nbytes < toRead { toRead := nbytes; }
      var out := TakeBytes(toRead);
      r := Ok(out);
    }

    method TakeBytes(n: nat) returns (out: seq<Byte>)
      requires Valid() && n <= bufferDataSize && (isEof ==> n == 0)
      modifies this, buffer
      ensures Valid() && isEof == old(isEof) && isEofRaw == old(isEofRaw) && rawMode == old(rawMode)
      ensures buffer == old(buffer) && utf8 == old(utf8) && |out| == n
      ensures Text() == old(Text()) && old(Raw()) == out + Raw()
    {
      out := buffer[..n];
      assert buffer[..n] + buffer[n..bufferDataSize] == Raw();
      DropRaw(n);
    }

    /** Can the connection be read without waiting for the descriptor? */
    method PrePoll() returns (ready: bool)
      requires Valid()
      modifies this, buffer, utf8
      ensures Valid() && rawMode == old(rawMode) && isEof == old(isEof) && isEofRaw == old(isEofRaw)
      ensures buffer == old(buffer) && utf8 == old(utf8)
      ensures Pending() == old(Pending())
      ensures rawMode ==> PendingBytes() == old(PendingBytes())
      ensures old(Text()) <= Text() && Left() <= old(Left())
      ensures utf8DataSize > old(utf8DataSize) ==> Left() < old(Left())
      ensures ready <==>
        isEof || (if rawMode then bufferDataSize > 0 else utf8DataSize > 0 || (isEofRaw && bufferDataSize > 0))
    {
      if isEof { return true; }
      if rawMode { return bufferDataSize > 0; }
      if utf8DataSize > 0 { return true; }
      if bufferDataSize > 0 && isEofRaw { return true; }
      if bufferDataSize > 0 {
        var n := ToUtf8();
        if utf8DataSize > 0 { return true; }
      }
      ready := false;
    }
  }

  /** What the pre-poll function says about a connection. */
  datatype PollEvent = NoPipe | Closed | Ready | Handle

  method PrePollFunc(con: Connection?, isClosed: bool) returns (event: PollEvent)
    requires con != null ==> con.Valid()
    modifies if con == null then {} else {con, con.buffer, con.utf8}
    ensures event.NoPipe? <==> con == null
    ensures event.Closed? <==> con != null && isClosed
    ensures con != null ==> con.Valid() && con.Pending() == old(con.Pending())
    ensures con != null && isClosed ==> con.Text() == old(con.Text()) && con.Raw() == old(con.Raw())
    ensures con != null && !isClosed ==>
      (event.Ready? <==>
        || con.isEof
        || if con.rawMode then con.bufferDataSize > 0
           else con.utf8DataSize > 0 || (con.isEofRaw && con.bufferDataSize > 0))
  {
    if con == null { return NoPipe; }
    if isClosed { return Closed; }
    var ready := con.PrePoll();
    event := if ready then Ready else Handle;
  }
}
