/**
 The Base64 coder of xmlrpc_base64.c: two loops over a bit accumulator, proved against the
 group-wise definition of section 4 of RFC 4648 and against each other.
 */
module Base64 {
  import opened Bytes

  const PAD: byte := 61            // '='
  const MAXBIN := 57               // bytes encoded on one 76-character line
  const LINE_SIZE := 128           // size of the line buffer
  const TWO_TO_32 := 0x1_0000_0000 // unsigned int wraps here

  type sextet = s: int | 0 <= s < 64

  /** table_b2a_base64: the alphabet A-Z a-z 0-9 + / */
  function ToAscii(s: sextet): (c: byte)
  {
    if s < 26 then 65 + s
    else if s < 52 then 97 + (s - 26)
    else if s < 62 then 48 + (s - 52)
    else if s == 62 then 43 else 47
  }

  /** table_a2b_base64, indexed by the low seven bits; -1 marks a character to throw away, and
      the pad character decodes as 0. */
  function FromAscii(c: byte): int
  {
    var d := c % 128;
    if 65 <= d <= 90 then d - 65
    else if 97 <= d <= 122 then d - 97 + 26
    else if 48 <= d <= 57 then d - 48 + 52
    else if d == 43 then 62
    else if d == 47 then 63
    else if d == PAD then 0
    else -1
  }

  // ---------------------------------------------------------------- specification: encoding

  /** The four six-bit groups of three bytes `a`, `b`, `c`. */
  function First(a: byte): sextet { a / 4 }
  function Second(a: byte, b: byte): sextet { a % 4 * 16 + b / 16 }
  function Third(b: byte, c: byte): sextet { b % 16 * 4 + c / 64 }
  function Fourth(c: byte): sextet { c % 64 }

  function Group(a: byte, b: byte, c: byte): (g: seq<byte>)
    ensures |g| == 4
  {
    [ToAscii(First(a)), ToAscii(Second(a, b)), ToAscii(Third(b, c)), ToAscii(Fourth(c))]
  }

  /** A final group of one or two bytes: zero bits fill the last sextet, pads the last places. */
  function LastGroup(tail: seq<byte>): seq<byte>
    requires |tail| < 3
  {
    if |tail| == 0 then []
    else if |tail| == 1 then [ToAscii(First(tail[0])), ToAscii(Second(tail[0], 0)), PAD, PAD]
    else [ToAscii(First(tail[0])), ToAscii(Second(tail[0], tail[1])), ToAscii(Third(tail[1], 0)), PAD]
  }

  /** Base64 of a byte string as one unbroken text. */
  function Rfc4648(bin: seq<byte>): seq<byte>
  {
    if |bin| < 3 then LastGroup(bin)
    else Group(bin[0], bin[1], bin[2]) + Rfc4648(bin[3..])
  }

  /** The lines the encoder writes: 57 bytes to a line. */
  function Lines(bin: seq<byte>): (lines: seq<seq<byte>>)
  {
    if |bin| == 0 then []
    else if |bin| <= MAXBIN then [Rfc4648(bin)]
    else [Rfc4648(bin[..MAXBIN])] + Lines(bin[MAXBIN..])
  }

  function JoinLines(lines: seq<seq<byte>>, newlines: bool): seq<byte>
  {
    if lines == [] then []
    else lines[0] + (if newlines then CRLF else []) + JoinLines(lines[1..], newlines)
  }

  /** Everything the encoder outputs; empty data is a lone CRLF when newlines are wanted. */
  function Encoded(bin: seq<byte>, newlines: bool): seq<byte>
  {
    if bin == [] then (if newlines then CRLF else [])
    else JoinLines(Lines(bin), newlines)
  }

  // ---------------------------------------------------------------- the encoder

  /** The low `k` bits of the accumulator. */
  function Low(leftchar: nat, k: nat): nat
  {
    leftchar % Pow2(k)
  }

  /** The character that the top six of `leftbits` bits stand for. */
  function TopSextet(leftbits: nat, leftchar: nat): byte
    requires leftbits >= 6
  {
    ToAscii(leftchar / Pow2(leftbits - 6) % 64)
  }

  /** The characters the `while (leftbits >= 6)` loop takes out of the accumulator. */
  function Taken(leftbits: nat, leftchar: nat): seq<byte>
  {
    if leftbits < 6 then []
    else [TopSextet(leftbits, leftchar)] + Taken(leftbits - 6, leftchar)
  }

  /** Characters written once `bin` has been shifted in. */
  function Emitted(bin: seq<byte>): seq<byte>
  {
    if |bin| < 3 then EmittedTail(bin)
    else Group(bin[0], bin[1], bin[2]) + Emitted(bin[3..])
  }

  function EmittedTail(tail: seq<byte>): seq<byte>
    requires |tail| < 3
  {
    if |tail| == 0 then []
    else if |tail| == 1 then [ToAscii(First(tail[0]))]
    else [ToAscii(First(tail[0])), ToAscii(Second(tail[0], tail[1]))]
  }

  /** The bits still held back in the accumulator. */
  function HeldBack(bin: seq<byte>): nat
  {
    if |bin| % 3 == 0 then 0
    else if |bin| % 3 == 1 then bin[|bin| - 1] % 4
    else bin[|bin| - 1] % 16
  }

  lemma {:induction false} EmittedAppend(bin: seq<byte>, tail: seq<byte>)
    requires |bin| % 3 == 0
    ensures Emitted(bin + tail) == Emitted(bin) + Emitted(tail)
    ensures Rfc4648(bin + tail) == Rfc4648(bin) + Rfc4648(tail)
    ensures Rfc4648(bin) == Emitted(bin)
  {
    hide Group, EmittedTail, LastGroup;
    if bin == [] {
      assert bin + tail == tail;
      EmptyTails();
    } else {
      assert (bin + tail)[3..] == bin[3..] + tail;
      EmittedAppend(bin[3..], tail);
      ghost var g := Group(bin[0], bin[1], bin[2]);
      assert g + (Emitted(bin[3..]) + Emitted(tail)) == g + Emitted(bin[3..]) + Emitted(tail);
      assert g + (Rfc4648(bin[3..]) + Rfc4648(tail)) == g + Rfc4648(bin[3..]) + Rfc4648(tail);
    }
  }

  lemma {:induction false} EmptyTails()
    ensures EmittedTail([]) == [] && LastGroup([]) == []
  {
  }

  /** Shifting without a mask: modulo 2^32 only bits that are already written are lost. */
  lemma {:induction false} ShiftInByte(left: nat, b: byte) returns (high: nat)
    ensures (left * 256 + b) % TWO_TO_32 == high * 4096 + left % 16 * 256 + b
  {
    high := left % 0x100_0000 / 16;
    assert left == left / 0x100_0000 * 0x100_0000 + high * 16 + left % 16;
    var kept := high * 4096 + left % 16 * 256 + b;
    assert left * 256 + b == left / 0x100_0000 * TWO_TO_32 + kept;
    assert 0 <= kept < TWO_TO_32;
  }

  lemma {:induction false} Div4(x: int, q: int, r: int)
    requires x == q * 4 + r && 0 <= r < 4
    ensures x / 4 == q && x % 4 == r
  {
  }

  lemma {:induction false} Div16(x: int, q: int, r: int)
    requires x == q * 16 + r && 0 <= r < 16
    ensures x / 16 == q && x % 16 == r
  {
  }

  lemma {:induction false} Div64(x: int, q: int, r: int)
    requires x == q * 64 + r && 0 <= r < 64
    ensures x / 64 == q && x % 64 == r
  {
  }

  lemma {:induction false} FirstByte(high: nat, low: nat, b: byte)
    requires low < 16
    ensures var x := high * 4096 + low * 256 + b; x / 4 % 64 == First(b) && x % 4 == b % 4
  {
    var x := high * 4096 + low * 256 + b;
    Div4(x, high * 1024 + low * 64 + b / 4, b % 4);
    Div64(x / 4, high * 16 + low, b / 4);
  }

  lemma {:induction false} SecondByte(high: nat, low: nat, a: byte, b: byte)
    requires low < 16 && low % 4 == a % 4
    ensures var x := high * 4096 + low * 256 + b; x / 16 % 64 == Second(a, b) && x % 16 == b % 16
  {
    var x := high * 4096 + low * 256 + b;
    Div16(x, high * 256 + low * 16 + b / 16, b % 16);
    Div64(x / 16, high * 4 + low / 4, low % 4 * 16 + b / 16);
  }

  lemma {:induction false} ThirdByte(high: nat, low: nat, a: byte, b: byte)
    requires low < 16 && low == a % 16
    ensures var x := high * 4096 + low * 256 + b; x / 64 % 64 == Third(a, b) && x % 64 == Fourth(b)
  {
    var x := high * 4096 + low * 256 + b;
    Div64(x, high * 64 + low * 4 + b / 64, b % 64);
    Div64(x / 64, high, low * 4 + b / 64);
  }

  lemma {:induction false} BitValues()
    ensures Pow2(0) == 1 && Pow2(2) == 4 && Pow2(4) == 16 && Pow2(6) == 64
  {
    assert Pow2(1) == 2 && Pow2(3) == 8 && Pow2(5) == 32;
  }

  lemma {:induction false} TakenFew(x: nat)
    ensures Taken(8, x) == [ToAscii(x / 4 % 64)]
    ensures Taken(10, x) == [ToAscii(x / 16 % 64)]
    ensures Taken(12, x) == [ToAscii(x / 64 % 64), ToAscii(x % 64)]
  {
    BitValues();
    assert Taken(6, x) == [ToAscii(x / 1 % 64)] + Taken(0, x);
  }

  /** What one more byte adds when fewer than three bytes are pending. */
  lemma {:induction false} ShiftPending(rest: seq<byte>, left: nat, b: byte)
    requires |rest| < 3
    requires Low(left, |rest| * 2) == HeldBack(rest)
    ensures var shifted := (left * 256 + b) % TWO_TO_32;
            && Emitted(rest + [b]) == EmittedTail(rest) + Taken(|rest| * 2 + 8, shifted)
            && Low(shifted, (|rest| + 1) % 3 * 2) == HeldBack(rest + [b])
  {
    hide ToAscii, First, Second, Third, Fourth, Taken, EmittedTail, Emitted, Group;
    BitValues();
    var shifted := (left * 256 + b) % TWO_TO_32;
    var high := ShiftInByte(left, b);
    TakenFew(shifted);
    EmittedFew(rest, b);
    if |rest| == 0 {
      FirstByte(high, left % 16, b);
    } else if |rest| == 1 {
      Low4(left);
      SecondByte(high, left % 16, rest[0], b);
    } else {
      ThirdByte(high, left % 16, rest[1], b);
    }
  }

  lemma {:induction false} Low4(left: nat)
    ensures left % 16 % 4 == left % 4
  {
  }

  lemma {:induction false} EmittedFew(rest: seq<byte>, b: byte)
    requires |rest| < 3
    ensures |rest| == 0 ==> Emitted(rest + [b]) == EmittedTail(rest) + [ToAscii(First(b))]
    ensures |rest| == 1 ==> Emitted(rest + [b]) == EmittedTail(rest) + [ToAscii(Second(rest[0], b))]
    ensures |rest| == 2 ==> Emitted(rest + [b]) == EmittedTail(rest) + [ToAscii(Third(rest[1], b)), ToAscii(Fourth(b))]
  {
    hide ToAscii, First, Second, Third, Fourth;
    if |rest| == 2 {
      assert (rest + [b])[3..] == [];
      assert Emitted([]) == [];
    }
  }

  /** What one byte adds to the output, whatever dead bits the accumulator carries. */
  lemma {:induction false} ShiftAndTake(bin: seq<byte>, left: nat, b: byte)
    requires Low(left, |bin| % 3 * 2) == HeldBack(bin)
    ensures var shifted := (left * 256 + b) % TWO_TO_32;
            && Emitted(bin + [b]) == Emitted(bin) + Taken(|bin| % 3 * 2 + 8, shifted)
            && Low(shifted, (|bin| + 1) % 3 * 2) == HeldBack(bin + [b])
  {
    hide Group, EmittedTail, Taken, Low, HeldBack, Emitted, Rfc4648;
    var n := |bin| / 3 * 3;
    var whole, rest := bin[..n], bin[n..];
    assert |whole| % 3 == 0 && |rest| == |bin| % 3 && bin == whole + rest;
    assert bin + [b] == whole + (rest + [b]);
    HeldBackRest(whole, rest);
    HeldBackRest(whole, rest + [b]);
    EmittedAppend(whole, rest);
    EmittedAppend(whole, rest + [b]);
    ShiftPending(rest, left, b);
    assert Emitted(rest) == EmittedTail(rest) by { EmittedRest(rest); }
    assert Emitted(whole) + (EmittedTail(rest) + Taken(|rest| * 2 + 8, (left * 256 + b) % TWO_TO_32))
        == Emitted(whole) + EmittedTail(rest) + Taken(|rest| * 2 + 8, (left * 256 + b) % TWO_TO_32);
  }

  lemma {:induction false} HeldBackRest(whole: seq<byte>, rest: seq<byte>)
    requires |whole| % 3 == 0
    ensures HeldBack(whole + rest) == HeldBack(rest)
  {
    assert rest != [] ==> (whole + rest)[|whole| + |rest| - 1] == rest[|rest| - 1];
  }

  lemma {:induction false} EmittedRest(rest: seq<byte>)
    requires |rest| < 3
    ensures Emitted(rest) == EmittedTail(rest)
  {
  }

  /** The pad the encoder writes after the last byte of a line. */
  lemma {:induction false} PadOut(bin: seq<byte>)
    ensures Rfc4648(bin) == Emitted(bin) + (if |bin| % 3 == 1 then [ToAscii(HeldBack(bin) * 16), PAD, PAD]
                                            else if |bin| % 3 == 2 then [ToAscii(HeldBack(bin) * 4), PAD]
                                            else [])
  {
    hide ToAscii, Group, First;
    var whole, rest := bin[..|bin| - |bin| % 3], bin[|bin| - |bin| % 3..];
    assert bin == whole + rest;
    EmittedAppend(whole, rest);
  }

  lemma {:induction false} EmittedLength(bin: seq<byte>)
    ensures |Emitted(bin)| <= 2 * |bin| && 3 * |Emitted(bin)| <= 4 * |bin| + 2
  {
    hide ToAscii;
    if |bin| >= 3 {
      EmittedLength(bin[3..]);
    }
  }

  /** Shift the bytes of one line in and take the complete sextets out. */
  method ShiftLine(chunk: seq<byte>, buffer: array<byte>) returns (used: nat, leftbits: nat, leftchar: nat)
    requires 0 < |chunk| <= MAXBIN
    requires buffer.Length == LINE_SIZE
    modifies buffer
    ensures leftbits == |chunk| % 3 * 2
    ensures Low(leftchar, leftbits) == HeldBack(chunk)
    ensures used <= 76
    ensures buffer[..used] == Emitted(chunk)
  {
    hide TopSextet, Emitted, HeldBack, Low, Pow2;
    used, leftbits, leftchar := 0, 0, 0;
    NothingEmitted();
    var i := 0;
    while i < |chunk|
      invariant i <= |chunk|
      invariant leftbits == i % 3 * 2
      invariant Low(leftchar, leftbits) == HeldBack(chunk[..i])
      invariant used <= 2 * i && buffer[..used] == Emitted(chunk[..i])
    {
      ghost var soFar := chunk[..i];
      ShiftAndTake(soFar, leftchar, chunk[i]);
      assert chunk[..i + 1] == soFar + [chunk[i]];
      EmittedLength(chunk[..i + 1]);
      leftchar := (leftchar * 256 + chunk[i]) % TWO_TO_32;
      leftbits := leftbits + 8;
      while leftbits >= 6
        invariant leftbits % 6 == (i + 1) % 3 * 2
        invariant used + |Taken(leftbits, leftchar)| == |Emitted(chunk[..i + 1])|
        invariant buffer[..used] + Taken(leftbits, leftchar) == Emitted(chunk[..i + 1])
      {
        buffer[used] := TopSextet(leftbits, leftchar);
        leftbits := leftbits - 6;
        used := used + 1;
      }
      i := i + 1;
    }
    assert chunk[..i] == chunk;
    EmittedLength(chunk);
  }

  /** One line of output: the sextets, the pad for the bits left over, and the courtesy CRLF. */
  method EncodeLine(chunk: seq<byte>, newlines: bool, buffer: array<byte>) returns (used: nat)
    requires 0 < |chunk| <= MAXBIN
    requires buffer.Length == LINE_SIZE
    modifies buffer
    ensures used <= LINE_SIZE
    ensures buffer[..used] == Rfc4648(chunk) + (if newlines then CRLF else [])
  {
    hide ToAscii, Rfc4648, Emitted, HeldBack;
    var leftbits, leftchar;
    used, leftbits, leftchar := ShiftLine(chunk, buffer);
    BitValues();
    PadOut(chunk);
    if leftbits == 2 {
      buffer[used], buffer[used + 1], buffer[used + 2] := ToAscii(leftchar % 4 * 16), PAD, PAD;
      used := used + 3;
    } else if leftbits == 4 {
      buffer[used], buffer[used + 1] := ToAscii(leftchar % 16 * 4), PAD;
      used := used + 2;
    }
    assert buffer[..used] == Rfc4648(chunk);
    if newlines {
      buffer[used], buffer[used + 1] := CR, LF;
      used := used + 2;
    }
  }

  lemma {:induction false} NothingEmitted()
    ensures Emitted([]) == [] && Low(0, 0) == HeldBack([]) == 0
  {
  }

  lemma {:induction false} LinesStep(rest: seq<byte>, left: nat, newlines: bool)
    requires rest != []
    requires left == if |rest| > MAXBIN then MAXBIN else |rest|
    ensures JoinLines(Lines(rest), newlines)
         == Rfc4648(rest[..left]) + (if newlines then CRLF else []) + JoinLines(Lines(rest[left..]), newlines)
  {
    hide Rfc4648;
    assert left == |rest| ==> rest[..left] == rest;
    assert Lines(rest) == [Rfc4648(rest[..left])] + Lines(rest[left..]);
  }

  /** xmlrpc_base64_encode and xmlrpc_base64_encode_without_newlines. */
  method Encode(bin: seq<byte>, newlines: bool) returns (output: seq<byte>)
    ensures output == Encoded(bin, newlines)
  {
    hide Rfc4648, Lines, JoinLines;
    output := [];
    if |bin| == 0 {
      if newlines {
        output := output + CRLF;
      }
      return;
    }
    assert bin[0..] == bin;
    var buffer := new byte[LINE_SIZE];
    var start := 0;
    while start < |bin|
      invariant start <= |bin|
      invariant output + JoinLines(Lines(bin[start..]), newlines) == Encoded(bin, newlines)
    {
      var left := if |bin| - start > MAXBIN then MAXBIN else |bin| - start;
      ghost var rest := bin[start..];
      assert bin[start..start + left] == rest[..left];
      assert bin[start + left..] == rest[left..];
      LinesStep(rest, left, newlines);
      var used := EncodeLine(bin[start..start + left], newlines, buffer);
      assert output + (buffer[..used] + JoinLines(Lines(rest[left..]), newlines))
          == output + buffer[..used] + JoinLines(Lines(rest[left..]), newlines);
      output := output + buffer[..used];
      start := start + left;
    }
    assert bin[start..] == [];
    NoLines(newlines);
  }

  lemma {:induction false} NoLines(newlines: bool)
    ensures JoinLines(Lines([]), newlines) == []
  {
  }

  // ---------------------------------------------------------------- specification: decoding

  function IsSkipped(c: byte): bool
  {
    var d := c % 128;
    d == CR || d == LF || d == 32
  }

  /** The six-bit values the decoder shifts in: one per alphabet or pad character. */
  function Sextets(ascii: seq<byte>): seq<sextet>
  {
    if ascii == [] then []
    else (if IsSkipped(ascii[0]) || FromAscii(ascii[0]) < 0 then [] else [FromAscii(ascii[0]) as sextet])
         + Sextets(ascii[1..])
  }

  /** How many pad characters the text has, wherever they stand. */
  function Pads(ascii: seq<byte>): nat
  {
    if ascii == [] then 0 else (if ascii[0] % 128 == PAD then 1 else 0) + Pads(ascii[1..])
  }

  /** The whole bytes in a string of sextets, first bit first. */
  function Unpack(sextets: seq<sextet>): seq<byte>
  {
    if |sextets| < 4 then UnpackTail(sextets)
    else Bytes3(sextets[0], sextets[1], sextets[2], sextets[3]) + Unpack(sextets[4..])
  }

  function UnpackTail(tail: seq<sextet>): seq<byte>
    requires |tail| < 4
  {
    if |tail| < 2 then []
    else if |tail| == 2 then [Upper(tail[0], tail[1])]
    else [Upper(tail[0], tail[1]), Middle(tail[1], tail[2])]
  }

  function Upper(p: sextet, q: sextet): byte { p * 4 + q / 16 }
  function Middle(q: sextet, r: sextet): byte { q % 16 * 16 + r / 4 }
  function Lower(r: sextet, s: sextet): byte { r % 4 * 64 + s }

  function Bytes3(p: sextet, q: sextet, r: sextet, s: sextet): (b: seq<byte>)
    ensures |b| == 3
  {
    [Upper(p, q), Middle(q, r), Lower(r, s)]
  }

  /** What decoding means: whole groups of four, at most two pads and no more pads than bytes;
      the pads' bytes are cut off at the end. */
  function Decoded(ascii: seq<byte>): Result<seq<byte>>
  {
    var bytes := Unpack(Sextets(ascii));
    if |Sextets(ascii)| % 4 != 0 then Fault(PARSE_ERROR)
    else if Pads(ascii) > |bytes| || Pads(ascii) > 2 then Fault(PARSE_ERROR)
    else Ok(bytes[..|bytes| - Pads(ascii)])
  }

  // ---------------------------------------------------------------- the decoder

  /** The bits still held back after `sextets`: none, six, four or two. */
  function Carry(sextets: seq<sextet>): nat
  {
    var n := |sextets|;
    if n % 4 == 0 then 0
    else if n % 4 == 1 then sextets[n - 1]
    else if n % 4 == 2 then sextets[n - 1] % 16
    else sextets[n - 1] % 4
  }

  /** The byte that becomes complete when `s` follows `sextets`. */
  function Completed(sextets: seq<sextet>, s: sextet): seq<byte>
  {
    var n := |sextets|;
    if n % 4 == 0 then []
    else if n % 4 == 1 then [Upper(sextets[n - 1], s)]
    else if n % 4 == 2 then [Middle(sextets[n - 1], s)]
    else [Lower(sextets[n - 1], s)]
  }

  lemma {:induction false} UnpackAppend(whole: seq<sextet>, rest: seq<sextet>)
    requires |whole| % 4 == 0
    ensures Unpack(whole + rest) == Unpack(whole) + Unpack(rest)
  {
    hide UnpackTail, Bytes3;
    if whole == [] {
      assert whole + rest == rest;
      assert UnpackTail([]) == [] by { UnpackNothing(); }
    } else {
      assert (whole + rest)[4..] == whole[4..] + rest;
      UnpackAppend(whole[4..], rest);
      var g := Bytes3(whole[0], whole[1], whole[2], whole[3]);
      assert g + (Unpack(whole[4..]) + Unpack(rest)) == g + Unpack(whole[4..]) + Unpack(rest);
    }
  }

  lemma {:induction false} UnpackNothing()
    ensures UnpackTail([]) == []
  {
  }

  lemma {:induction false} UnpackOneMore(sextets: seq<sextet>, s: sextet)
    ensures Unpack(sextets + [s]) == Unpack(sextets) + Completed(sextets, s)
  {
    hide UnpackTail, Completed;
    var n := |sextets| / 4 * 4;
    var whole, rest := sextets[..n], sextets[n..];
    assert sextets == whole + rest && sextets + [s] == whole + (rest + [s]);
    UnpackAppend(whole, rest);
    UnpackAppend(whole, rest + [s]);
    UnpackPending(rest, s);
    assert Completed(rest, s) == Completed(sextets, s) by { CompletedAfter(whole, rest, s); }
  }

  lemma {:induction false} CompletedAfter(whole: seq<sextet>, rest: seq<sextet>, s: sextet)
    requires |whole| % 4 == 0
    ensures Completed(whole + rest, s) == Completed(rest, s)
  {
    hide Upper, Middle, Lower;
  }

  lemma {:induction false} UnpackPending(rest: seq<sextet>, s: sextet)
    requires |rest| < 4
    ensures Unpack(rest + [s]) == Unpack(rest) + Completed(rest, s)
  {
    hide Upper, Middle, Lower;
    if |rest| == 3 {
      assert (rest + [s])[4..] == [];
      assert Unpack([]) == [];
    }
  }

  lemma {:induction false} UnpackLength(sextets: seq<sextet>)
    ensures |Unpack(sextets)| == |sextets| * 3 / 4
  {
    hide UnpackTail, Bytes3;
    if |sextets| >= 4 {
      UnpackLength(sextets[4..]);
    } else {
      UnpackTailLength(sextets);
    }
  }

  lemma {:induction false} UnpackTailLength(sextets: seq<sextet>)
    requires |sextets| < 4
    ensures |UnpackTail(sextets)| == |sextets| * 3 / 4
  {
  }

  lemma {:induction false} SextetsAppend(a: seq<byte>, b: seq<byte>)
    ensures Sextets(a + b) == Sextets(a) + Sextets(b)
    ensures Pads(a + b) == Pads(a) + Pads(b)
  {
    hide IsSkipped, FromAscii;
    if a == [] {
      assert a + b == b;
    } else {
      assert (a + b)[1..] == a[1..] + b;
      SextetsAppend(a[1..], b);
    }
  }

  /** Bits held back and bytes complete after `n` sextets. */
  function BitsLeft(n: nat): nat { n % 4 * 6 % 8 }
  function BytesOut(n: nat): nat { n * 3 / 4 }

  lemma {:induction false} Counts(n: nat)
    ensures n % 4 == 0 ==> BitsLeft(n) == 0 && BitsLeft(n + 1) == 6 && BytesOut(n + 1) == BytesOut(n)
    ensures n % 4 == 1 ==> BitsLeft(n) == 6 && BitsLeft(n + 1) == 4 && BytesOut(n + 1) == BytesOut(n) + 1
    ensures n % 4 == 2 ==> BitsLeft(n) == 4 && BitsLeft(n + 1) == 2 && BytesOut(n + 1) == BytesOut(n) + 1
    ensures n % 4 == 3 ==> BitsLeft(n) == 2 && BitsLeft(n + 1) == 0 && BytesOut(n + 1) == BytesOut(n) + 1
  {
    var q, r := n / 4, n % 4;
    assert n * 3 == 4 * (3 * q) + r * 3;
    assert n * 3 / 4 == 3 * q + r * 3 / 4 && (n + 1) * 3 / 4 == 3 * q + (r + 1) * 3 / 4;
  }

  /** What is held back and what becomes complete, by the place of the sextet in its group of four. */
  lemma {:induction false} CarryNext(sextets: seq<sextet>, s: sextet)
    ensures var n, next := |sextets|, Carry(sextets + [s]);
            && (n % 4 == 0 ==> Carry(sextets) == 0 && Completed(sextets, s) == [] && next == s)
            && (n % 4 == 1 ==> Carry(sextets) == sextets[n - 1] && Completed(sextets, s) == [Upper(sextets[n - 1], s)] && next == s % 16)
            && (n % 4 == 2 ==> Carry(sextets) == sextets[n - 1] % 16 && Completed(sextets, s) == [Middle(sextets[n - 1], s)] && next == s % 4)
            && (n % 4 == 3 ==> Carry(sextets) == sextets[n - 1] % 4 && Completed(sextets, s) == [Lower(sextets[n - 1], s)] && next == 0)
  {
    hide Upper, Middle, Lower;
    assert (sextets + [s])[|sextets|] == s;
  }

  /** One turn of the decoder's loop: it either holds all bits back or completes one byte. */
  lemma {:induction false} ByteOut(sextets: seq<sextet>, s: sextet)
    ensures var n, shifted := |sextets|, Carry(sextets) * 64 + s;
            && Unpack(sextets + [s]) == Unpack(sextets) + Completed(sextets, s)
            && (BitsLeft(n) + 6 < 8 ==> && Completed(sextets, s) == [] && shifted == Carry(sextets + [s])
                                        && BitsLeft(n + 1) == BitsLeft(n) + 6 && BytesOut(n + 1) == BytesOut(n))
            && (BitsLeft(n) + 6 >= 8 ==> && Completed(sextets, s) == [shifted / Pow2(BitsLeft(n) - 2) % 256]
                                         && shifted % Pow2(BitsLeft(n) - 2) == Carry(sextets + [s])
                                         && BitsLeft(n + 1) == BitsLeft(n) - 2 && BytesOut(n + 1) == BytesOut(n) + 1)
  {
    hide Unpack, BitsLeft, BytesOut, Pow2, Upper, Middle, Lower, Carry, Completed;
    BitValues();
    UnpackOneMore(sextets, s);
    CarryNext(sextets, s);
    var n := |sextets|;
    Counts(n);
    if n % 4 == 1 {
      UpperOut(sextets[n - 1], s);
    } else if n % 4 == 2 {
      MiddleOut(sextets[n - 1], s);
    } else if n % 4 == 3 {
      LowerOut(sextets[n - 1], s);
    }
  }

  lemma {:induction false} LowerOut(r: sextet, s: sextet)
    ensures (r % 4 * 64 + s) / 1 % 256 == Lower(r, s) && (r % 4 * 64 + s) % 1 == 0
  {
  }

  lemma {:induction false} UpperOut(p: sextet, s: sextet)
    ensures (p * 64 + s) / 16 % 256 == Upper(p, s) && (p * 64 + s) % 16 == s % 16
  {
    assert p * 64 + s == Upper(p, s) * 16 + s % 16;
  }

  lemma {:induction false} MiddleOut(p: sextet, s: sextet)
    ensures (p % 16 * 64 + s) / 4 % 256 == Middle(p, s) && (p % 16 * 64 + s) % 4 == s % 4
  {
    assert p % 16 * 64 + s == Middle(p, s) * 4 + s % 4;
  }

  /** xmlrpc_base64_decode: the accumulator holds the carry, the buffer the bytes unpacked so far,
      and the buffer estimate made before the scan is never exceeded. */
  method Decode(ascii: seq<byte>) returns (r: Result<seq<byte>>)
    ensures r == Decoded(ascii)
  {
    hide IsSkipped, FromAscii, Unpack, Carry, Completed, Pow2, BitsLeft, BytesOut, Sextets, Pads;
    var buffer := new byte[(|ascii| + 3) / 4 * 3];
    var leftbits: nat, leftchar: nat, npad: nat, binLen: nat := 0, 0, 0, 0;
    ghost var sx: seq<sextet> := [];
    UnpackStart();
    assert ascii[0..] == ascii;
    var i := 0;
    while i < |ascii|
      invariant i <= |ascii|
      invariant sx + Sextets(ascii[i..]) == Sextets(ascii) && |sx| <= i
      invariant npad + Pads(ascii[i..]) == Pads(ascii)
      invariant leftbits == BitsLeft(|sx|)
      invariant leftchar == Carry(sx)
      invariant binLen == BytesOut(|sx|) <= buffer.Length && buffer[..binLen] == Unpack(sx)
    {
      var c := ascii[i];
      SextetsStep(ascii, i);
      i := i + 1;
      if IsSkipped(c) {
        continue;
      }
      if c % 128 == PAD {
        npad := npad + 1;
      }
      var s := FromAscii(c);
      if s == -1 {
        continue;
      }
      ByteOut(sx, s);
      BufferHolds(|sx| + 1, |ascii|);
      assert sx + ([s as sextet] + Sextets(ascii[i..])) == sx + [s] + Sextets(ascii[i..]);
      sx := sx + [s];
      leftchar := leftchar * 64 + s;
      leftbits := leftbits + 6;
      if leftbits >= 8 {
        leftbits := leftbits - 8;
        buffer[binLen] := leftchar / Pow2(leftbits) % 256;
        leftchar := leftchar % Pow2(leftbits);
        binLen := binLen + 1;
      }
    }
    assert ascii[i..] == [];
    NoSextets();
    assert sx == Sextets(ascii);
    BitsLeftZero(|sx|);
    if leftbits != 0 {
      return Fault(PARSE_ERROR);
    }
    if npad > binLen || npad > 2 {
      return Fault(PARSE_ERROR);
    }
    assert buffer[..binLen - npad] == buffer[..binLen][..binLen - npad];
    return Ok(buffer[..binLen - npad]);
  }

  lemma {:induction false} SextetsStep(ascii: seq<byte>, i: nat)
    requires i < |ascii|
    ensures var c := ascii[i];
            && Sextets(ascii[i..]) == (if IsSkipped(c) || FromAscii(c) < 0 then [] else [FromAscii(c) as sextet])
                                      + Sextets(ascii[i + 1..])
            && Pads(ascii[i..]) == (if c % 128 == PAD then 1 else 0) + Pads(ascii[i + 1..])
            && (IsSkipped(c) ==> c % 128 != PAD) && -1 <= FromAscii(c) < 64
  {
    assert ascii[i..][1..] == ascii[i + 1..];
  }

  lemma {:induction false} NoSextets()
    ensures Sextets([]) == [] && Pads([]) == 0
  {
  }

  lemma {:induction false} BufferHolds(n: nat, len: nat)
    requires n <= len
    ensures BytesOut(n) <= (len + 3) / 4 * 3
  {
  }

  lemma {:induction false} BitsLeftZero(n: nat)
    ensures BitsLeft(n) == 0 <==> n % 4 == 0
  {
  }

  lemma {:induction false} UnpackStart()
    ensures Unpack([]) == [] && Carry([]) == 0 && BitsLeft(0) == 0 && BytesOut(0) == 0
  {
  }

  // ---------------------------------------------------------------- the two coders together

  /** How many pads bring `n` bytes to a whole number of groups. */
  function PadsFor(n: nat): nat { (3 - n % 3) % 3 }

  lemma {:induction false} PadsForMore(n: nat)
    ensures n >= 3 ==> PadsFor(n) == PadsFor(n - 3)
    ensures n == 0 ==> PadsFor(n) == 0
  {
  }

  /** The text the decoder sees of an encoding: its sextets spell the bytes, with one zero byte
      for each pad. */
  lemma {:induction false} EncodingSpells(bin: seq<byte>)
    ensures Unpack(Sextets(Rfc4648(bin))) == bin + Zeros(PadsFor(|bin|))
  {
    hide Unpack, UnpackTail, Sextets, Pads, Group, Zeros, LastGroup, PadsFor, First, Second, Third, Fourth, Rfc4648;
    PadsForMore(|bin|);
    RfcStep(bin);
    if |bin| >= 3 {
      var g := Group(bin[0], bin[1], bin[2]);
      GroupSextets(bin[0], bin[1], bin[2]);
      GroupSpells(bin[0], bin[1], bin[2]);
      EncodingSpells(bin[3..]);
      SextetsAppend(g, Rfc4648(bin[3..]));
      UnpackAppend(Sextets(g), Sextets(Rfc4648(bin[3..])));
      var zeros := Zeros(PadsFor(|bin|));
      assert [bin[0], bin[1], bin[2]] + (bin[3..] + zeros) == bin + zeros;
    } else if bin == [] {
      LineEnds();
      RfcNothing();
      UnpackStart();
    } else {
      var a := bin[0];
      var b := if |bin| == 2 then bin[1] else 0;
      assert bin == if |bin| == 1 then [a] else [a, b];
      LastSextets(a, b, bin);
      ZeroSextets();
      GroupSpells(a, b, 0);
      LastBytes(bin, b);
    }
  }

  /** An encoding has whole groups of sextets, and the pads its length asks for. */
  lemma {:induction false} EncodingCounts(bin: seq<byte>)
    ensures |Sextets(Rfc4648(bin))| % 4 == 0 && Pads(Rfc4648(bin)) == PadsFor(|bin|)
  {
    hide Sextets, Pads, Group, LastGroup, PadsFor, First, Second, Third, Fourth, Rfc4648;
    PadsForMore(|bin|);
    RfcStep(bin);
    if |bin| >= 3 {
      GroupSextets(bin[0], bin[1], bin[2]);
      EncodingCounts(bin[3..]);
      SextetsAppend(Group(bin[0], bin[1], bin[2]), Rfc4648(bin[3..]));
    } else if bin == [] {
      LineEnds();
      RfcNothing();
    } else {
      var b := if |bin| == 2 then bin[1] else 0;
      assert bin == if |bin| == 1 then [bin[0]] else [bin[0], b];
      LastSextets(bin[0], b, bin);
    }
  }

  lemma {:induction false} RfcStep(bin: seq<byte>)
    ensures |bin| >= 3 ==> Rfc4648(bin) == Group(bin[0], bin[1], bin[2]) + Rfc4648(bin[3..])
    ensures |bin| < 3 ==> Rfc4648(bin) == LastGroup(bin)
  {
    hide Group, LastGroup;
  }

  lemma {:induction false} LastBytes(bin: seq<byte>, b: byte)
    requires (|bin| == 1 && b == 0) || (|bin| == 2 && b == bin[1])
    ensures [bin[0], b, 0] == bin + Zeros(PadsFor(|bin|))
  {
  }

  lemma {:induction false} Alphabet(s: sextet)
    ensures FromAscii(ToAscii(s)) == s && !IsSkipped(ToAscii(s)) && ToAscii(s) != PAD && ToAscii(s) < 128
    ensures ToAscii(s) > 32 && ToAscii(s) !in [38, 60, 62]
  {
  }

  lemma {:induction false} FourSextets(text: seq<byte>)
    requires |text| == 4
    requires forall k | 0 <= k < 4 :: !IsSkipped(text[k]) && 0 <= FromAscii(text[k]) < 64
    ensures Sextets(text) == [FromAscii(text[0]), FromAscii(text[1]), FromAscii(text[2]), FromAscii(text[3])]
    ensures Pads(text) == Pads(text[2..]) + (if text[0] % 128 == PAD then 1 else 0) + (if text[1] % 128 == PAD then 1 else 0)
    ensures Pads(text[2..]) == (if text[2] % 128 == PAD then 1 else 0) + (if text[3] % 128 == PAD then 1 else 0)
  {
    hide IsSkipped, FromAscii;
    assert text[1..][1..] == text[2..] && text[2..][1..] == text[3..] && text[3..][1..] == [];
    assert Sextets(text[3..]) == [FromAscii(text[3]) as sextet];
    assert Sextets(text[2..]) == [FromAscii(text[2]) as sextet] + Sextets(text[3..]);
    assert Pads(text[3..]) == if text[3] % 128 == PAD then 1 else 0;
  }

  lemma {:induction false} Regroup(a: byte, b: byte, c: byte)
    ensures Upper(First(a), Second(a, b)) == a
    ensures Middle(Second(a, b), Third(b, c)) == b
    ensures Lower(Third(b, c), Fourth(c)) == c
  {
  }

  lemma {:induction false} GroupSextets(a: byte, b: byte, c: byte)
    ensures Sextets(Group(a, b, c)) == [First(a), Second(a, b), Third(b, c), Fourth(c)] && Pads(Group(a, b, c)) == 0
  {
    hide ToAscii, FromAscii, IsSkipped, First, Second, Third, Fourth, Sextets, Pads;
    Alphabet(First(a)); Alphabet(Second(a, b)); Alphabet(Third(b, c)); Alphabet(Fourth(c));
    FourSextets(Group(a, b, c));
  }

  lemma {:induction false} GroupSpells(a: byte, b: byte, c: byte)
    ensures Unpack([First(a), Second(a, b), Third(b, c), Fourth(c)]) == [a, b, c]
  {
    hide First, Second, Third, Fourth, Upper, Middle, Lower;
    Regroup(a, b, c);
    var sx: seq<sextet> := [First(a), Second(a, b), Third(b, c), Fourth(c)];
    assert sx[4..] == [];
    assert Unpack([]) == [];
  }

  lemma {:induction false} PadDecodes()
    ensures FromAscii(PAD) == 0 && !IsSkipped(PAD)
  {
  }

  lemma {:induction false} LastSextets(a: byte, b: byte, tail: seq<byte>)
    requires (tail == [a] && b == 0) || tail == [a, b]
    ensures Sextets(LastGroup(tail)) == [First(a), Second(a, b), Third(b, 0), 0]
    ensures Pads(LastGroup(tail)) == PadsFor(|tail|)
  {
    hide ToAscii, FromAscii, IsSkipped, First, Second, Third, Fourth;
    Alphabet(First(a)); Alphabet(Second(a, b)); Alphabet(Third(b, 0));
    PadDecodes();
    ZeroSextets();
    FourSextets(LastGroup(tail));
  }

  lemma {:induction false} ZeroSextets()
    ensures Third(0, 0) == 0 && Fourth(0) == 0
  {
  }

  /** Dropping line ends leaves what the decoder sees. */
  lemma {:induction false} JoinedLines(bin: seq<byte>, newlines: bool)
    ensures Sextets(JoinLines(Lines(bin), newlines)) == Sextets(Rfc4648(bin))
    ensures Pads(JoinLines(Lines(bin), newlines)) == Pads(Rfc4648(bin))
  {
    hide Sextets, Pads, Rfc4648, Lines, JoinLines;
    var ends := if newlines then CRLF else [];
    LineEnds();
    if bin == [] {
      NoLines(newlines);
      assert Rfc4648([]) == [] by { RfcNothing(); }
    } else {
      var left := if |bin| > MAXBIN then MAXBIN else |bin|;
      LinesStep(bin, left, newlines);
      JoinedLines(bin[left..], newlines);
      SextetsAppend(Rfc4648(bin[..left]) + ends, JoinLines(Lines(bin[left..]), newlines));
      SextetsAppend(Rfc4648(bin[..left]), ends);
      SextetsAppend(Rfc4648(bin[..left]), Rfc4648(bin[left..]));
      if left == MAXBIN {
        EmittedAppend(bin[..left], bin[left..]);
        assert bin == bin[..left] + bin[left..];
      } else {
        assert bin[..left] == bin && bin[left..] == [];
        RfcNothing();
      }
    }
  }

  lemma {:induction false} RfcNothing()
    ensures Rfc4648([]) == []
  {
  }

  lemma {:induction false} LineEnds()
    ensures Sextets(CRLF) == [] && Pads(CRLF) == 0 && Sextets([]) == [] && Pads([]) == 0
  {
    assert CRLF[1..] == [LF] && [LF][1..] == [];
    assert Sextets([LF]) == [] && Pads([LF]) == 0;
  }

  /** Decoding undoes encoding, with and without newlines, for every byte string. */
  lemma {:induction false} RoundTrip(bin: seq<byte>, newlines: bool)
    ensures Decoded(Encoded(bin, newlines)) == Ok(bin)
  {
    hide Sextets, Pads, Unpack, Rfc4648;
    LineEnds();
    JoinedLines(bin, newlines);
    EncodingSpells(bin);
    EncodingCounts(bin);
    var bytes := Unpack(Sextets(Rfc4648(bin)));
    assert bytes[..|bin|] == bin;
    if bin == [] {
      RfcNothing();
    }
  }

  /** Acceptance, counted: k sextets make floor(6k/8) bytes, and a text is accepted exactly when
      4 divides k and the pads number at most two and at most the bytes. */
  lemma {:induction false} Acceptance(ascii: seq<byte>)
    ensures var k := |Sextets(ascii)|;
            && (Decoded(ascii).Ok? <==> k % 4 == 0 && Pads(ascii) <= 2 && Pads(ascii) <= 6 * k / 8)
            && (Decoded(ascii).Ok? ==> |Decoded(ascii).value| == 6 * k / 8 - Pads(ascii))
            && k <= |ascii|
  {
    hide Sextets, Pads, Unpack;
    UnpackLength(Sextets(ascii));
    SextetsBound(ascii);
  }

  lemma {:induction false} SextetsBound(ascii: seq<byte>)
    ensures |Sextets(ascii)| <= |ascii|
  {
    hide IsSkipped, FromAscii;
    if ascii != [] {
      SextetsBound(ascii[1..]);
    }
  }

  /** No line is longer than 76 characters, and every line but the last is exactly that long. */
  lemma {:induction false} LineLengths(bin: seq<byte>, k: nat)
    requires k < |Lines(bin)|
    ensures |Lines(bin)[k]| <= 76
    ensures k < |Lines(bin)| - 1 ==> |Lines(bin)[k]| == 76
  {
    hide Rfc4648;
    if |bin| <= MAXBIN {
      RfcLength(bin);
    } else if k == 0 {
      RfcLength(bin[..MAXBIN]);
      assert Lines(bin[MAXBIN..]) != [];
    } else {
      LineLengths(bin[MAXBIN..], k - 1);
    }
  }

  /** A pad can only stand in the last two places of the last line. */
  lemma {:induction false} PadPlace(bin: seq<byte>, k: nat, j: nat)
    requires k < |Lines(bin)| && j < |Lines(bin)[k]| && Lines(bin)[k][j] == PAD
    ensures k == |Lines(bin)| - 1 && j >= |Lines(bin)[k]| - 2
  {
    hide Rfc4648;
    if |bin| <= MAXBIN {
      RfcShape(bin, j);
    } else if k == 0 {
      RfcShape(bin[..MAXBIN], j);
    } else {
      PadPlace(bin[MAXBIN..], k - 1, j);
    }
  }

  lemma {:induction false} RfcShape(bin: seq<byte>, j: nat)
    requires j < |Rfc4648(bin)|
    ensures |Rfc4648(bin)| == (|bin| + 2) / 3 * 4
    ensures Rfc4648(bin)[j] == PAD ==> |bin| % 3 != 0 && j >= |Rfc4648(bin)| - 2
  {
    hide Rfc4648, Group, LastGroup;
    RfcLength(bin);
    if |bin| >= 3 {
      var head, rest := Group(bin[0], bin[1], bin[2]), Rfc4648(bin[3..]);
      assert Rfc4648(bin) == head + rest by { RfcStep(bin); }
      if j >= 4 {
        RfcShape(bin[3..], j - 4);
        assert Rfc4648(bin)[j] == rest[j - 4];
      } else {
        GroupHasNoPad(bin[0], bin[1], bin[2], j);
      }
    } else {
      assert Rfc4648(bin) == LastGroup(bin) by { RfcStep(bin); }
      LastGroupShape(bin, j);
    }
  }

  lemma {:induction false} GroupHasNoPad(a: byte, b: byte, c: byte, j: nat)
    requires j < 4
    ensures Group(a, b, c)[j] != PAD
  {
    hide ToAscii, First, Second, Third, Fourth;
    Alphabet(First(a)); Alphabet(Second(a, b)); Alphabet(Third(b, c)); Alphabet(Fourth(c));
  }

  lemma {:induction false} LastGroupShape(tail: seq<byte>, j: nat)
    requires |tail| < 3 && j < |LastGroup(tail)|
    ensures |LastGroup(tail)| == (|tail| + 2) / 3 * 4
    ensures LastGroup(tail)[j] == PAD ==> |tail| != 0 && j >= |LastGroup(tail)| - 2
  {
    hide ToAscii;
    var b := if |tail| == 2 then tail[1] else 0;
    Alphabet(First(tail[0])); Alphabet(Second(tail[0], b)); Alphabet(Third(b, 0));
  }

  lemma {:induction false} RfcLength(bin: seq<byte>)
    ensures |Rfc4648(bin)| == (|bin| + 2) / 3 * 4
  {
    hide ToAscii;
    if |bin| >= 3 {
      RfcLength(bin[3..]);
    }
  }

  /** With newlines every encoding, of no bytes too, is made of lines that end in CRLF. */
  lemma {:induction false} EndsInLine(bin: seq<byte>)
    ensures var text := Encoded(bin, true); |text| >= 2 && text[|text| - 2..] == [13, 10]
  {
    hide Rfc4648;
    if bin != [] {
      LinesEnd(bin);
    }
  }

  lemma {:induction false} LinesEnd(bin: seq<byte>)
    requires bin != []
    ensures var text := JoinLines(Lines(bin), true); |text| >= 2 && text[|text| - 2..] == CRLF
  {
    hide Rfc4648, Lines, JoinLines;
    var left := if |bin| > MAXBIN then MAXBIN else |bin|;
    LinesStep(bin, left, true);
    if left < |bin| {
      LinesEnd(bin[left..]);
    } else {
      NoLines(true);
      assert bin[left..] == [];
    }
  }

  /** The alphabet, in order: table 1 of RFC 4648. */
  lemma {:induction false} AlphabetOrder(s: sextet)
    ensures s < 26 ==> ToAscii(s) == 'A' as int + s
    ensures 26 <= s < 52 ==> ToAscii(s) == 'a' as int + s - 26
    ensures 52 <= s < 62 ==> ToAscii(s) == '0' as int + s - 52
    ensures ToAscii(62) == '+' as int && ToAscii(63) == '/' as int && PAD == '=' as int
  {
  }

  // ---------------------------------------------------------------- exactly what is decoded

  ghost predicate InAlphabet(c: byte) { exists s: sextet :: ToAscii(s) == c }

  /** A character of the text as the encoder would have written it: the high bit is dropped, a pad stands
      for six zero bits, and whatever is in no alphabet is thrown away. */
  ghost function MeantChar(c: byte): seq<byte>
  {
    if c % 128 == PAD then [ToAscii(0)] else if InAlphabet(c % 128) then [c % 128] else []
  }

  ghost function Meant(ascii: seq<byte>): seq<byte>
  {
    if ascii == [] then [] else MeantChar(ascii[0]) + Meant(ascii[1..])
  }

  function Spelled(sextets: seq<sextet>): (text: seq<byte>)
    ensures |text| == |sextets|
  {
    seq(|sextets|, k requires 0 <= k < |sextets| => ToAscii(sextets[k]))
  }

  /** The decoding table undoes the encoding table, knows the pad, and nothing else. */
  lemma {:induction false} TableIs(c: byte)
    ensures MeantChar(c) == if IsSkipped(c) || FromAscii(c) < 0 then [] else [ToAscii(FromAscii(c))]
    ensures FromAscii(c) < 64
  {
    var d := c % 128;
    if FromAscii(c) >= 0 && d != PAD {
      assert ToAscii(FromAscii(c)) == d;
    } else if d != PAD {
      forall s: sextet
        ensures ToAscii(s) != d
      {
      }
    }
  }

  lemma {:induction false} MeantIs(ascii: seq<byte>)
    ensures Meant(ascii) == Spelled(Sextets(ascii))
  {
    hide MeantChar, IsSkipped, FromAscii, ToAscii;
    if ascii != [] {
      TableIs(ascii[0]);
      MeantIs(ascii[1..]);
    }
  }

  lemma {:induction false} Degroup(p: sextet, q: sextet, r: sextet, s: sextet)
    ensures First(Upper(p, q)) == p && Second(Upper(p, q), Middle(q, r)) == q
    ensures Third(Middle(q, r), Lower(r, s)) == r && Fourth(Lower(r, s)) == s
  {
  }

  lemma {:induction false} SpelledGroup(p: sextet, q: sextet, r: sextet, s: sextet, rest: seq<sextet>)
    ensures Spelled([p, q, r, s] + rest) == Group(Upper(p, q), Middle(q, r), Lower(r, s)) + Spelled(rest)
  {
    hide ToAscii, Upper, Middle, Lower, First, Second, Third, Fourth;
    Degroup(p, q, r, s);
  }

  /** Whole groups of sextets spell the encoding of the bytes they are unpacked to. */
  lemma {:induction false} UnpackSpells(sextets: seq<sextet>)
    requires |sextets| % 4 == 0
    ensures Rfc4648(Unpack(sextets)) == Spelled(sextets) && |Unpack(sextets)| % 3 == 0
  {
    hide Group, Upper, Middle, Lower, ToAscii;
    if sextets == [] {
      UnpackNothing();
      RfcNothing();
    } else {
      var p, q, r, s, rest := sextets[0], sextets[1], sextets[2], sextets[3], sextets[4..];
      assert sextets == [p, q, r, s] + rest;
      UnpackSpells(rest);
      SpelledGroup(p, q, r, s, rest);
      var front := Bytes3(p, q, r, s);
      assert Unpack(sextets) == front + Unpack(rest);
      assert (front + Unpack(rest))[3..] == Unpack(rest);
    }
  }

  lemma {:induction false} SpelledOnce(a: seq<sextet>, b: seq<sextet>)
    requires Spelled(a) == Spelled(b)
    ensures a == b
  {
    hide ToAscii, FromAscii, IsSkipped;
    forall k | 0 <= k < |a|
      ensures a[k] == b[k]
    {
      assert Spelled(a)[k] == Spelled(b)[k];
      Alphabet(a[k]);
      Alphabet(b[k]);
    }
  }

  /** Whole groups of bytes are encoded as sextets that unpack to them. */
  lemma {:induction false} WholeGroups(full: seq<byte>) returns (sextets: seq<sextet>)
    requires |full| % 3 == 0
    ensures |sextets| % 4 == 0 && Spelled(sextets) == Rfc4648(full) && Unpack(sextets) == full
  {
    hide Group, Upper, Middle, Lower, ToAscii, First, Second, Third, Fourth;
    if full == [] {
      sextets := [];
      UnpackNothing();
      RfcNothing();
    } else {
      var a, b, c := full[0], full[1], full[2];
      var rest := WholeGroups(full[3..]);
      var p, q, r, s := First(a), Second(a, b), Third(b, c), Fourth(c);
      sextets := [p, q, r, s] + rest;
      Regroup(a, b, c);
      SpelledGroup(p, q, r, s, rest);
      assert sextets[4..] == rest;
      assert Unpack(sextets) == [a, b, c] + full[3..];
    }
  }

  /** The texts that decode, and to what: thrown-away characters aside and with each pad read as six zero
      bits, the text must be the encoding of the data with one more byte for every pad, in whole groups
      of three, and there are at most two pads. */
  lemma {:induction false} DecodedExactly(ascii: seq<byte>, data: seq<byte>)
    ensures Decoded(ascii) == Ok(data)
            <==> && Pads(ascii) <= 2
                 && exists cut: seq<byte> :: |cut| == Pads(ascii) && (|data| + |cut|) % 3 == 0 && Meant(ascii) == Rfc4648(data + cut)
  {
    hide Sextets, Pads, Unpack, Meant, Spelled, Rfc4648;
    var sextets, n := Sextets(ascii), Pads(ascii);
    MeantIs(ascii);
    if Decoded(ascii) == Ok(data) {
      UnpackSpells(sextets);
      var full := Unpack(sextets);
      assert data + full[|full| - n..] == full;
    }
    if n <= 2 && exists cut: seq<byte> :: |cut| == n && (|data| + |cut|) % 3 == 0 && Meant(ascii) == Rfc4648(data + cut) {
      var cut: seq<byte> :| |cut| == n && (|data| + |cut|) % 3 == 0 && Meant(ascii) == Rfc4648(data + cut);
      var same := WholeGroups(data + cut);
      SpelledOnce(same, sextets);
      assert (data + cut)[..|data|] == data;
    }
  }

  /** The text without what is thrown away. */
  ghost function Kept(ascii: seq<byte>): seq<byte>
  {
    if ascii == [] then []
    else (if ascii[0] % 128 == PAD || InAlphabet(ascii[0] % 128) then [ascii[0]] else []) + Kept(ascii[1..])
  }

  /** Characters in no alphabet, whatever they are and wherever they stand, make no difference. */
  lemma {:induction false} OthersIgnored(ascii: seq<byte>)
    ensures Decoded(Kept(ascii)) == Decoded(ascii)
  {
    hide Sextets, Pads, Unpack;
    KeptSextets(ascii);
  }

  lemma {:induction false} KeptSextets(ascii: seq<byte>)
    ensures Sextets(Kept(ascii)) == Sextets(ascii) && Pads(Kept(ascii)) == Pads(ascii)
  {
    hide Sextets, Pads, InAlphabet;
    if ascii != [] {
      var c, rest := ascii[0], ascii[1..];
      var front := if c % 128 == PAD || InAlphabet(c % 128) then [c] else [];
      KeptSextets(rest);
      ThrownAway(c);
      SextetsAppend(front, Kept(rest));
      SextetsAppend([c], rest);
      assert ascii == [c] + rest;
    }
  }

  lemma {:induction false} ThrownAway(c: byte)
    ensures Sextets([]) == [] && Pads([]) == 0
    ensures c % 128 != PAD && !InAlphabet(c % 128) ==> Sextets([c]) == [] && Pads([c]) == 0
  {
    hide IsSkipped, FromAscii, ToAscii, InAlphabet;
    TableIs(c);
    assert [c][1..] == [];
  }
}
