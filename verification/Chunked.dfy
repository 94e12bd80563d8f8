/** The chunked transfer coding of HTTP: section 7.1 of RFC 9112 as the browser reads it. */
module Chunked {
  import opened Wrappers
  import opened Words

  predicate IsEnd(c: char) {
    c == '\r' || c == '\n'
  }

  // ----- the reader -----

  function SkipLine(s: string): (r: string)
    ensures |r| <= |s|
  {
    if |s| == 0 || IsEnd(s[0]) then s else SkipLine(s[1..])
  }

  /** Size, number of digits, and the text from the end of the line on. */
  datatype Size = Size(size: nat, digits: nat, rest: string)

  /** (capacity - digit) / 16 in 32 bits; a digit above the capacity wraps. */
  function Limit(capacity: nat, digit: nat): nat
    requires digit < 16
  {
    (if digit <= capacity then capacity - digit else 0x1_0000_0000 + capacity - digit) / 16
  }

  /** Hexadecimal digits up to an extension or the end of the line; a size that cannot fit is refused at once, so the
      32-bit size never wraps. */
  function ReadSize(s: string, capacity: nat, size: nat, digits: nat): (r: Option<Size>)
    ensures r.Some? ==> |r.value.rest| <= |s| && (|s| > 0 && !IsEnd(s[0]) ==> |r.value.rest| < |s|)
    ensures r.Some? && capacity < 0x1_0000_0000 && size < 0x1_0000_0000 ==> r.value.size < 0x1_0000_0000
  {
    if |s| == 0 || IsEnd(s[0]) then Some(Size(size, digits, s))
    else if s[0] == ';' then Some(Size(size, digits, SkipLine(s[1..])))
    else
      var digit := HexValue(s[0]);
      if digit < 0 || size > Limit(capacity, digit) then None
      else ReadSize(s[1..], capacity, size * 16 + digit, digits + 1)
  }

  /** Behind a line end, which is CR LF or LF alone. */
  function ReadEnd(s: string): (r: Option<string>)
    ensures r.Some? ==> |r.value| < |s|
  {
    if |s| > 0 && s[0] == '\r' then (if |s| > 1 && s[1] == '\n' then Some(s[2..]) else None)
    else if |s| > 0 && s[0] == '\n' then Some(s[1..])
    else None
  }

  /** The size of the next chunk and the text behind its first line. */
  function ReadHead(s: string, capacity: nat): (r: Option<(nat, string)>)
    ensures r.Some? ==> |r.value.1| < |s|
  {
    var size := ReadSize(s, capacity, 0, 0);
    if size.None? || size.value.digits == 0 then None
    else
      var rest := ReadEnd(size.value.rest);
      if rest.None? then None else Some((size.value.size, rest.value))
  }

  /** The decoded body behind what has been decoded so far. */
  function Decode(s: string, capacity: nat, out: string): Option<string>
    decreases |s|
  {
    if |s| == 0 then None
    else
      var head := ReadHead(s, capacity);
      if head.None? then None
      else if head.value.0 == 0 then Some(out)
      else
        var (size, rest) := head.value;
        if size > |rest| || size + |out| >= capacity then None
        else
          var next := ReadEnd(rest[size..]);
          if next.None? then None else Decode(next.value, capacity, out + rest[..size])
  }

  // ----- the coding -----

  /** One chunk line and its data: size digits, extension with its semicolon, the two line ends. */
  datatype Chunk = Chunk(digits: string, extension: string, lineEnd: string, data: string, dataEnd: string)

  function HexNumber(s: string): nat
    requires forall i | 0 <= i < |s| :: HexValue(s[i]) >= 0
  {
    if |s| == 0 then 0 else HexNumber(s[..|s| - 1]) * 16 + HexValue(s[|s| - 1])
  }

  predicate IsLineEnd(s: string) {
    s == "\r\n" || s == "\n"
  }

  predicate ValidHead(c: Chunk) {
    && |c.digits| > 0 && (forall i | 0 <= i < |c.digits| :: HexValue(c.digits[i]) >= 0)
    && (|c.extension| > 0 ==> c.extension[0] == ';') && (forall i | 0 <= i < |c.extension| :: !IsEnd(c.extension[i]))
    && IsLineEnd(c.lineEnd)
    && HexNumber(c.digits) == |c.data|
  }

  predicate ValidChunk(c: Chunk) {
    ValidHead(c) && |c.data| > 0 && IsLineEnd(c.dataEnd)
  }

  function HeadText(c: Chunk): string {
    c.digits + c.extension + c.lineEnd
  }

  /** Chunks, the last chunk of size zero, and anything behind its line. */
  function Encode(chunks: seq<Chunk>, last: Chunk, trailer: string): string {
    if |chunks| == 0 then HeadText(last) + trailer
    else HeadText(chunks[0]) + (chunks[0].data + (chunks[0].dataEnd + Encode(chunks[1..], last, trailer)))
  }

  function Body(chunks: seq<Chunk>): string {
    if |chunks| == 0 then "" else chunks[0].data + Body(chunks[1..])
  }

  // ----- decoding recovers the body -----

  lemma ReadEndOf(end: string, rest: string)
    requires IsLineEnd(end)
    ensures ReadEnd(end + rest) == Some(rest)
  {
    assert (end + rest)[|end|..] == rest;
  }

  lemma {:induction false} SkipLineOf(text: string, rest: string)
    requires (forall i | 0 <= i < |text| :: !IsEnd(text[i])) && |rest| > 0 && IsEnd(rest[0])
    ensures SkipLine(text + rest) == rest
  {
    if |text| == 0 {
      assert text + rest == rest;
    } else {
      assert (text + rest)[1..] == text[1..] + rest;
      SkipLineOf(text[1..], rest);
    }
  }

  /** Reading digits from the left is the same number. */
  function Shift(size: nat, s: string): nat
    requires forall i | 0 <= i < |s| :: HexValue(s[i]) >= 0
    decreases |s|
  {
    if |s| == 0 then size else Shift(size * 16 + HexValue(s[0]), s[1..])
  }

  lemma {:induction false} ShiftSnoc(size: nat, s: string)
    requires |s| > 0 && forall i | 0 <= i < |s| :: HexValue(s[i]) >= 0
    ensures Shift(size, s) == Shift(size, s[..|s| - 1]) * 16 + HexValue(s[|s| - 1])
    decreases |s|
  {
    if |s| > 1 {
      ShiftSnoc(size * 16 + HexValue(s[0]), s[1..]);
      assert s[1..][..|s| - 2] == s[..|s| - 1][1..];
    } else {
      assert s[..0] == "" && s[1..] == "";
    }
  }

  lemma {:induction false} ShiftIsHexNumber(s: string)
    requires forall i | 0 <= i < |s| :: HexValue(s[i]) >= 0
    ensures Shift(0, s) == HexNumber(s)
  {
    if |s| > 0 {
      ShiftSnoc(0, s);
      ShiftIsHexNumber(s[..|s| - 1]);
    }
  }

  lemma {:induction false} ShiftGrows(size: nat, s: string)
    requires forall i | 0 <= i < |s| :: HexValue(s[i]) >= 0
    ensures Shift(size, s) >= size
    decreases |s|
  {
    if |s| > 0 { ShiftGrows(size * 16 + HexValue(s[0]), s[1..]); }
  }

  lemma {:induction false} ReadDigits(digits: string, rest: string, capacity: nat, size: nat, n: nat)
    requires forall i | 0 <= i < |digits| :: HexValue(digits[i]) >= 0
    requires Shift(size, digits) <= capacity
    ensures ReadSize(digits + rest, capacity, size, n) == ReadSize(rest, capacity, Shift(size, digits), n + |digits|)
    decreases |digits|
  {
    if |digits| == 0 {
      assert digits + rest == rest;
    } else {
      var d := HexValue(digits[0]);
      ShiftGrows(size * 16 + d, digits[1..]);
      assert (digits + rest)[1..] == digits[1..] + rest;
      ReadDigits(digits[1..], rest, capacity, size * 16 + d, n + 1);
    }
  }

  lemma ReadHeadOf(c: Chunk, rest: string, capacity: nat)
    requires ValidHead(c) && |c.data| <= capacity
    ensures ReadHead(HeadText(c) + rest, capacity) == Some((|c.data|, rest))
  {
    hide HexNumber, Shift;
    var tail := c.lineEnd + rest;
    assert HeadText(c) + rest == c.digits + (c.extension + tail);
    ShiftIsHexNumber(c.digits);
    ReadDigits(c.digits, c.extension + tail, capacity, 0, 0);
    AfterDigits(c.extension, tail, capacity, |c.data|, |c.digits|);
    ReadEndOf(c.lineEnd, rest);
  }

  lemma AfterDigits(extension: string, tail: string, capacity: nat, size: nat, n: nat)
    requires |tail| > 0 && IsEnd(tail[0])
    requires (|extension| > 0 ==> extension[0] == ';') && forall i | 0 <= i < |extension| :: !IsEnd(extension[i])
    ensures ReadSize(extension + tail, capacity, size, n) == Some(Size(size, n, tail))
  {
    if |extension| == 0 {
      assert extension + tail == tail;
    } else {
      assert (extension + tail)[1..] == extension[1..] + tail;
      SkipLineOf(extension[1..], tail);
    }
  }

  /** Whatever the chunking, digits in either case, extensions and line ends, decoding gives the body. */
  lemma {:induction false} DecodeRecovers(chunks: seq<Chunk>, last: Chunk, trailer: string, capacity: nat, out: string)
    requires |out| + |Body(chunks)| < capacity
    requires forall i | 0 <= i < |chunks| :: ValidChunk(chunks[i])
    requires ValidHead(last) && last.data == ""
    ensures Decode(Encode(chunks, last, trailer), capacity, out) == Some(out + Body(chunks))
    decreases |chunks|
  {
    hide ValidHead, ReadHead, HeadText, ReadEnd;
    if |chunks| == 0 {
      ReadHeadOf(last, trailer, capacity);
      assert out + Body(chunks) == out;
    } else {
      var c, rest := chunks[0], Encode(chunks[1..], last, trailer);
      var tail := c.dataEnd + rest;
      ReadHeadOf(c, c.data + tail, capacity);
      assert (c.data + tail)[|c.data|..] == tail && (c.data + tail)[..|c.data|] == c.data;
      ReadEndOf(c.dataEnd, rest);
      DecodeRecovers(chunks[1..], last, trailer, capacity, out + c.data);
      assert out + (c.data + Body(chunks[1..])) == out + c.data + Body(chunks[1..]);
    }
  }

  // ----- and accepts nothing else -----

  lemma ReadEndIs(s: string) returns (end: string)
    requires ReadEnd(s).Some?
    ensures IsLineEnd(end) && s == end + ReadEnd(s).value
  {
    end := if s[0] == '\r' then "\r\n" else "\n";
  }

  lemma {:induction false} SkipLineIs(s: string) returns (text: string)
    ensures (forall i | 0 <= i < |text| :: !IsEnd(text[i])) && s == text + SkipLine(s)
  {
    if |s| == 0 || IsEnd(s[0]) {
      text := "";
    } else {
      var t := SkipLineIs(s[1..]);
      text := [s[0]] + t;
      assert s == [s[0]] + s[1..];
    }
  }

  lemma {:induction false} ReadSizeIs(s: string, capacity: nat, size: nat, n: nat) returns (digits: string, extension: string)
    requires ReadSize(s, capacity, size, n).Some?
    ensures forall i | 0 <= i < |digits| :: HexValue(digits[i]) >= 0
    ensures (|extension| > 0 ==> extension[0] == ';') && forall i | 0 <= i < |extension| :: !IsEnd(extension[i])
    ensures var r := ReadSize(s, capacity, size, n).value;
            s == digits + extension + r.rest && r.size == Shift(size, digits) && r.digits == n + |digits|
    decreases |s|
  {
    hide HexValue;
    if |s| == 0 || IsEnd(s[0]) {
      digits, extension := "", "";
    } else if s[0] == ';' {
      var t := SkipLineIs(s[1..]);
      digits, extension := "", ";" + t;
      assert s == [s[0]] + s[1..];
    } else {
      var d, e := ReadSizeIs(s[1..], capacity, size * 16 + HexValue(s[0]), n + 1);
      digits, extension := [s[0]] + d, e;
      assert digits[1..] == d && s == [s[0]] + s[1..];
    }
  }

  lemma ReadHeadIs(s: string, capacity: nat, data: string) returns (c: Chunk)
    requires ReadHead(s, capacity).Some? && |data| == ReadHead(s, capacity).value.0
    ensures ValidHead(c) && c.data == data && s == HeadText(c) + ReadHead(s, capacity).value.1
  {
    hide Shift, HexNumber;
    var digits, extension := ReadSizeIs(s, capacity, 0, 0);
    ShiftIsHexNumber(digits);
    var end := ReadEndIs(ReadSize(s, capacity, 0, 0).value.rest);
    c := Chunk(digits, extension, end, data, "");
  }

  /** An accepted text is a chunking of the decoded body, and the body fits. */
  lemma {:induction false} DecodeSound(s: string, capacity: nat, out: string)
    returns (chunks: seq<Chunk>, last: Chunk, trailer: string)
    requires |out| < capacity && Decode(s, capacity, out).Some?
    ensures forall i | 0 <= i < |chunks| :: ValidChunk(chunks[i])
    ensures ValidHead(last) && last.data == "" && s == Encode(chunks, last, trailer)
    ensures Decode(s, capacity, out).value == out + Body(chunks) && |out| + |Body(chunks)| < capacity
    decreases |s|
  {
    hide ValidHead, ReadHead, HeadText, ReadEnd;
    var (size, rest) := ReadHead(s, capacity).value;
    if size == 0 {
      last := ReadHeadIs(s, capacity, "");
      chunks, trailer := [], rest;
      assert out + Body(chunks) == out;
    } else {
      var head := ReadHeadIs(s, capacity, rest[..size]);
      var end := ReadEndIs(rest[size..]);
      var next := ReadEnd(rest[size..]).value;
      var more, l, t := DecodeSound(next, capacity, out + rest[..size]);
      var c := head.(dataEnd := end);
      SameHead(head, end);
      chunks, last, trailer := [c] + more, l, t;
      assert chunks[1..] == more;
      assert rest == c.data + (c.dataEnd + next);
      assert out + (c.data + Body(more)) == out + c.data + Body(more);
    }
  }

  lemma SameHead(c: Chunk, end: string)
    requires ValidHead(c)
    ensures ValidHead(c.(dataEnd := end)) && HeadText(c.(dataEnd := end)) == HeadText(c)
  {
  }

  // ----- decoding in buffers -----

  /** Reads a chunk line at [from, stop) of the buffer. */
  method ParseHead(input: array<char>, from: nat, stop: nat, capacity: nat) returns (ok: bool, size: nat, next: nat)
    requires from <= stop <= input.Length
    ensures ok == ReadHead(input[from..stop], capacity).Some?
    ensures ok ==> from < next <= stop && ReadHead(input[from..stop], capacity) == Some((size, input[next..stop]))
  {
    hide HexValue, ReadEnd;
    size, next := 0, from;
    var digits := 0;
    ghost var whole := ReadSize(input[from..stop], capacity, 0, 0);
    while next < stop && !IsEnd(input[next])
      invariant from <= next <= stop
      invariant ReadSize(input[next..stop], capacity, size, digits) == whole
    {
      ghost var rest := input[next..stop];
      var c := input[next];
      next := next + 1;
      assert rest[1..] == input[next..stop];
      if c == ';' {
        next := ParseExtension(input, next, stop);
        assert whole == Some(Size(size, digits, input[next..stop]));
        break;
      }
      var digit := HexValue(c);
      if digit < 0 || size > Limit(capacity, digit) {
        return false, 0, from;
      }
      size := size * 16 + digit;
      digits := digits + 1;
    }
    assert whole == Some(Size(size, digits, input[next..stop]));
    if digits == 0 {
      return false, 0, from;
    }
    ok, next := ParseEnd(input, next, stop);
  }

  method ParseExtension(input: array<char>, from: nat, stop: nat) returns (next: nat)
    requires from <= stop <= input.Length
    ensures from <= next <= stop && SkipLine(input[from..stop]) == input[next..stop]
  {
    next := from;
    while next < stop && !IsEnd(input[next])
      invariant from <= next <= stop && SkipLine(input[next..stop]) == SkipLine(input[from..stop])
    {
      assert input[next..stop][1..] == input[next + 1..stop];
      next := next + 1;
    }
  }

  method ParseEnd(input: array<char>, from: nat, stop: nat) returns (ok: bool, next: nat)
    requires from <= stop <= input.Length
    ensures ok == ReadEnd(input[from..stop]).Some?
    ensures ok ==> from < next <= stop && ReadEnd(input[from..stop]) == Some(input[next..stop])
  {
    next := from;
    if next < stop && input[next] == '\r' {
      if next + 1 >= stop || input[next + 1] != '\n' {
        return false, next;
      }
      next := next + 2;
      assert input[from..stop][2..] == input[next..stop];
      return true, next;
    }
    if next < stop && input[next] == '\n' {
      next := next + 1;
      assert input[from..stop][1..] == input[next..stop];
      return true, next;
    }
    return false, next;
  }

  /** Copies n characters towards the front; the two ranges may lie in one buffer. */
  method MoveForward(input: array<char>, from: nat, stop: nat, output: array<char>, at: nat, n: nat)
    requires from + n <= stop <= input.Length && at + n <= output.Length && (input == output ==> at <= from)
    modifies output
    ensures output[..at + n] == old(output[..at]) + old(input[from..from + n])
    ensures input[from + n..stop] == old(input[from + n..stop])
  {
    ghost var data := input[from..from + n];
    for k := 0 to n
      invariant forall i | 0 <= i < at :: output[i] == old(output[i])
      invariant forall i | at <= i < at + k :: output[i] == data[i - at]
      invariant forall i | from + k <= i < stop :: input[i] == old(input[i])
    {
      output[at + k] := input[from + k];
    }
    assert output[..at + n] == old(output[..at]) + data;
  }

  /** Decodes input[start..start + length] to the front of `output`, which may be the same buffer: the write position
      never passes the read position, so decoding in place gives what decoding into a separate buffer gives. */
  method DecodeChunked(input: array<char>, start: nat, length: nat, output: array<char>, capacity: nat)
    returns (ok: bool, outputLength: nat)
    requires start + length <= input.Length && 1 <= capacity <= output.Length
    modifies output
    ensures ok == Decode(old(input[start..start + length]), capacity, "").Some?
    ensures ok ==> outputLength < capacity && output[outputLength] == '\0'
    ensures ok ==> Decode(old(input[start..start + length]), capacity, "") == Some(output[..outputLength])
  {
    hide ReadHead, ReadEnd;
    var stop := start + length;
    var at := start;
    ok, outputLength := false, 0;
    ghost var result := Decode(input[start..stop], capacity, "");
    assert output[..0] == "";
    while at < stop
      invariant start <= at <= stop && outputLength <= at && outputLength < capacity
      invariant Decode(input[at..stop], capacity, output[..outputLength]) == result
      decreases stop - at
    {
      var size, body;
      ok, size, body := ParseHead(input, at, stop, capacity);
      if !ok {
        return false, outputLength;
      }
      if size == 0 {
        output[outputLength] := '\0';
        return true, outputLength;
      }
      if size > stop - body || size >= capacity - outputLength {
        return false, outputLength;
      }
      ghost var rest, out := input[body..stop], output[..outputLength];
      assert rest[..size] == input[body..body + size] && rest[size..] == input[body + size..stop];
      MoveForward(input, body, stop, output, outputLength, size);
      outputLength := outputLength + size;
      assert output[..outputLength] == out + rest[..size];
      ok, at := ParseEnd(input, body + size, stop);
      if !ok {
        return false, outputLength;
      }
    }
    return false, outputLength;
  }
}
