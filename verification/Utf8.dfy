/**
 The UTF-8 coder of xmlrpc_utf8.c, restricted to UCS-2, against the grammar of section 4 of
 RFC 3629.
 */
module Utf8 {
  import opened Bytes

  /** wchar_t as a 32-bit signed integer. */
  type wchar = w: int | -0x8000_0000 <= w < 0x8000_0000

  const MAX_LEGAL: wchar := 0xFFFD
  const FIRST_SURROGATE: wchar := 0xD800
  const LAST_SURROGATE: wchar := 0xDFFF

  // ---------------------------------------------------------------- specification

  predicate IsTail(b: byte) { 0x80 <= b <= 0xBF }

  /** UTF8-1, UTF8-2 and UTF8-3 of section 4 of RFC 3629, without U+FFFE and U+FFFF. */
  predicate Utf8Char(s: seq<byte>)
  {
    || (|s| == 1 && s[0] <= 0x7F)
    || (|s| == 2 && 0xC2 <= s[0] <= 0xDF && IsTail(s[1]))
    || (|s| == 3 && IsTail(s[2])
        && (|| (s[0] == 0xE0 && 0xA0 <= s[1] <= 0xBF)
            || (0xE1 <= s[0] <= 0xEC && IsTail(s[1]))
            || (s[0] == 0xED && 0x80 <= s[1] <= 0x9F)
            || (s[0] == 0xEE && IsTail(s[1]))
            || (s[0] == 0xEF && IsTail(s[1]) && !(s[1] == 0xBF && s[2] >= 0xBE))))
  }

  /** How many bytes the sequence starting with `b` would have. */
  function Claimed(b: byte): (n: nat)
    ensures 1 <= n <= 3
  {
    if b < 0x80 then 1 else if b < 0xE0 then 2 else 3
  }

  /** A string of such characters. */
  predicate Legal(data: seq<byte>)
    decreases |data|
  {
    data == []
    || (Claimed(data[0]) <= |data| && Utf8Char(data[..Claimed(data[0])]) && Legal(data[Claimed(data[0])..]))
  }

  /** The code point a character stands for (section 3 of RFC 3629). */
  function CodePoint(s: seq<byte>): wchar
    requires Utf8Char(s)
  {
    if |s| == 1 then s[0]
    else if |s| == 2 then (s[0] as int - 0xC0) * 64 + (s[1] as int - 0x80)
    else (s[0] as int - 0xE0) * 4096 + (s[1] as int - 0x80) * 64 + (s[2] as int - 0x80)
  }

  function CodePoints(data: seq<byte>): (ws: seq<wchar>)
    requires Legal(data)
    decreases |data|
  {
    if data == [] then []
    else [CodePoint(data[..Claimed(data[0])])] + CodePoints(data[Claimed(data[0])..])
  }

  /** A code point that UCS-2 text may contain. */
  predicate LegalUcs2(w: wchar)
  {
    0 <= w <= MAX_LEGAL && !(FIRST_SURROGATE <= w <= LAST_SURROGATE)
  }

  predicate LegalText(ws: seq<wchar>) { forall k | 0 <= k < |ws| :: LegalUcs2(ws[k]) }

  // ---------------------------------------------------------------- the decoder

  /** utf8_seq_length; 0 marks an illegal initial byte. */
  function SeqLength(b: byte): nat
  {
    if b < 0x80 then 1
    else if b < 0xC0 then 0
    else if b < 0xE0 then 2
    else if b < 0xF0 then 3
    else if b < 0xF8 then 4
    else if b < 0xFC then 5
    else if b < 0xFE then 6
    else 0
  }

  /** `(c & 0xC0) == 0x80` */
  predicate IsContinuation(c: byte) { c / 64 == 2 }

  /** What the decoder computes from the payload bits of a two- or three-byte sequence. */
  function Wide2(init: byte, con1: byte): wchar { init % 32 * 64 + con1 % 64 }
  function Wide3(init: byte, con1: byte, con2: byte): wchar { init % 16 * 4096 + con1 % 64 * 64 + con2 % 64 }

  /** The checks decode_utf8 makes on a decoded character: range, surrogates, overlong form. */
  predicate Plausible(wc: wchar, minimum: wchar)
  {
    wc <= MAX_LEGAL && !(FIRST_SURROGATE <= wc <= LAST_SURROGATE) && wc >= minimum
  }

  lemma {:induction false} TwoBytes(init: byte, con1: byte)
    requires 0xC0 <= init < 0xE0
    ensures IsContinuation(con1) && Plausible(Wide2(init, con1), 0x80) <==> Utf8Char([init, con1])
    ensures Utf8Char([init, con1]) ==> Wide2(init, con1) == CodePoint([init, con1])
  {
    assert init % 32 == init - 0xC0;
    if IsContinuation(con1) {
      assert con1 % 64 == con1 - 0x80;
    }
  }

  lemma {:induction false} ThreeBytes(init: byte, con1: byte, con2: byte)
    requires 0xE0 <= init < 0xF0
    ensures IsContinuation(con1) && IsContinuation(con2) && Plausible(Wide3(init, con1, con2), 0x800)
       <==> Utf8Char([init, con1, con2])
    ensures Utf8Char([init, con1, con2]) ==> Wide3(init, con1, con2) == CodePoint([init, con1, con2])
  {
    assert init % 16 == init - 0xE0;
    if IsContinuation(con1) && IsContinuation(con2) {
      assert con1 % 64 == con1 - 0x80 && con2 % 64 == con2 - 0x80;
    }
  }

  /** The first character of `rest`, if a character starts there. */
  predicate StartsChar(rest: seq<byte>)
    requires rest != []
  {
    Claimed(rest[0]) <= |rest| && Utf8Char(rest[..Claimed(rest[0])])
  }

  /** One turn of the decoder's loop: table lookup, length check, payload bits, legality checks. */
  method NextChar(data: seq<byte>, i: nat) returns (ok: bool, wc: wchar, length: nat)
    requires i < |data|
    ensures ok <==> StartsChar(data[i..])
    ensures ok ==> length == Claimed(data[i]) && i + length <= |data| && wc == CodePoint(data[i..][..length])
  {
    hide CodePoint, Wide2, Wide3, Plausible, IsContinuation;
    ghost var rest := data[i..];
    var init := data[i];
    if init < 0x80 {
      assert rest[..1] == [init];
      OneByte(init);
      return true, init, 1;
    }
    ok, wc, length := false, 0, SeqLength(init);
    if i + length > |data| {
      return;
    }
    if length == 2 {
      var con1 := data[i + 1];
      assert rest[..2] == [init, con1];
      TwoBytes(init, con1);
      if !IsContinuation(con1) {
        return;
      }
      wc := Wide2(init, con1);
      ok := Plausible(wc, 0x80);
    } else if length == 3 {
      var con1, con2 := data[i + 1], data[i + 2];
      assert rest[..3] == [init, con1, con2];
      ThreeBytes(init, con1, con2);
      if !IsContinuation(con1) || !IsContinuation(con2) {
        return;
      }
      wc := Wide3(init, con1, con2);
      ok := Plausible(wc, 0x800);
    }
  }

  lemma {:induction false} OneByte(init: byte)
    requires init < 0x80
    ensures Utf8Char([init]) && CodePoint([init]) == init
  {
  }

  /** decode_utf8. Without a buffer it only validates; with one, at least as long as the data, it
      writes the decoded text. Either way it accepts exactly the legal strings. */
  method DecodeUtf8(data: seq<byte>, buffer: array?<wchar>) returns (ok: bool, outLen: nat)
    requires buffer != null ==> buffer.Length >= |data|
    modifies if buffer == null then {} else {buffer}
    ensures ok <==> Legal(data)
    ensures ok && buffer != null ==> outLen <= buffer.Length && buffer[..outLen] == CodePoints(data)
    ensures !ok || buffer == null ==> outLen == 0
  {
    hide Utf8Char, CodePoint, Legal, CodePoints, StartsChar;
    var i: nat, outPos: nat := 0, 0;
    assert data[0..] == data;
    while i < |data|
      invariant i <= |data|
      invariant Legal(data) <==> Legal(data[i..])
      invariant buffer != null ==> outPos <= i
      invariant buffer == null ==> outPos == 0
      invariant buffer != null && Legal(data) ==> buffer[..outPos] + CodePoints(data[i..]) == CodePoints(data)
    {
      LegalStep(data, i);
      var good, wc, length := NextChar(data, i);
      if !good {
        return false, 0;
      }
      i := i + length;
      if buffer != null {
        assert Legal(data) ==> buffer[..outPos] + ([wc] + CodePoints(data[i..])) == buffer[..outPos] + [wc] + CodePoints(data[i..]);
        buffer[outPos] := wc;
        outPos := outPos + 1;
      }
    }
    assert data[i..] == [];
    LegalEnd();
    ok, outLen := true, outPos;
  }

  lemma {:induction false} LegalEnd()
    ensures Legal([]) && CodePoints([]) == []
  {
  }

  lemma {:induction false} LegalStep(data: seq<byte>, i: nat)
    requires i < |data|
    ensures var rest, n := data[i..], Claimed(data[i]);
            && (Legal(rest) <==> StartsChar(rest) && Legal(data[i + n..]))
            && (Legal(rest) ==> CodePoints(rest) == [CodePoint(rest[..n])] + CodePoints(data[i + n..]))
  {
    hide Utf8Char, CodePoint;
    var rest, n := data[i..], Claimed(data[i]);
    if i + n <= |data| {
      assert rest[n..] == data[i + n..];
    }
  }

  /** xmlrpc_utf8_to_wcs: one wide character per input byte is room enough. */
  method Utf8ToWcs(data: seq<byte>) returns (r: Result<seq<wchar>>)
    ensures r == if Legal(data) then Ok(CodePoints(data)) else Fault(INVALID_UTF8_ERROR)
  {
    var buffer := new wchar[|data|];
    var ok, length := DecodeUtf8(data, buffer);
    if !ok {
      return Fault(INVALID_UTF8_ERROR);
    }
    return Ok(buffer[..length]);
  }

  // ---------------------------------------------------------------- the encoder

  /** The bytes xmlrpc_wcs_to_utf8 writes for one character of at most 0xFFFF. */
  function EncodeChar(wc: wchar): (s: seq<byte>)
    requires wc <= 0xFFFF
    ensures 1 <= |s| <= 3
  {
    if wc <= 0x7F then [wc % 128]
    else if wc <= 0x7FF then [0xC0 + wc / 64, 0x80 + wc % 64]
    else [0xE0 + wc / 4096, 0x80 + wc / 64 % 64, 0x80 + wc % 64]
  }

  predicate Encodable(ws: seq<wchar>) { forall k | 0 <= k < |ws| :: ws[k] <= 0xFFFF }

  function EncodedWcs(ws: seq<wchar>): (s: seq<byte>)
    requires Encodable(ws)
  {
    if ws == [] then [] else EncodeChar(ws[0]) + EncodedWcs(ws[1..])
  }

  lemma {:induction false} EncodedSoFar(ws: seq<wchar>, i: nat)
    requires i < |ws| && Encodable(ws[..i + 1])
    ensures Encodable(ws[..i])
    ensures EncodedWcs(ws[..i + 1]) == EncodedWcs(ws[..i]) + EncodeChar(ws[i])
  {
    hide EncodeChar;
    assert Encodable(ws[..i]) by {
      assert forall k | 0 <= k < i :: ws[..i][k] == ws[..i + 1][k];
    }
    assert ws[..i + 1][i] == ws[i];
    if i > 0 {
      assert ws[..i + 1][1..] == ws[1..][..i];
      assert ws[..i][1..] == ws[1..][..i - 1];
      EncodedSoFar(ws[1..], i - 1);
      assert EncodeChar(ws[0]) + (EncodedWcs(ws[1..][..i - 1]) + EncodeChar(ws[i]))
          == EncodeChar(ws[0]) + EncodedWcs(ws[1..][..i - 1]) + EncodeChar(ws[i]);
    }
  }

  /** xmlrpc_wcs_to_utf8: three bytes per character are room enough, surrogates are encoded like
      any other character, and anything past the UCS-2 range is a fault. */
  method WcsToUtf8(ws: seq<wchar>) returns (r: Result<seq<byte>>)
    ensures r == if Encodable(ws) then Ok(EncodedWcs(ws)) else Fault(INTERNAL_ERROR)
  {
    hide EncodeChar;
    var buffer := new byte[|ws| * 3];
    var used: nat, i: nat := 0, 0;
    while i < |ws|
      invariant i <= |ws| && used <= 3 * i
      invariant Encodable(ws[..i])
      invariant buffer[..used] == EncodedWcs(ws[..i])
    {
      var wc := ws[i];
      assert ws[..i + 1][i] == wc;
      if wc > 0xFFFF {
        assert !Encodable(ws);
        return Fault(INTERNAL_ERROR);
      }
      EncodedSoFar(ws, i);
      used := PutChar(wc, buffer, used);
      i := i + 1;
    }
    assert ws[..i] == ws;
    return Ok(buffer[..used]);
  }

  method PutChar(wc: wchar, buffer: array<byte>, used: nat) returns (after: nat)
    requires wc <= 0xFFFF
    requires used + 3 <= buffer.Length
    modifies buffer
    ensures after <= used + 3
    ensures buffer[..after] == old(buffer[..used]) + EncodeChar(wc)
  {
    after := used;
    if wc <= 0x7F {
      buffer[after] := wc % 128; after := after + 1;
    } else if wc <= 0x7FF {
      buffer[after] := 0xC0 + wc / 64; after := after + 1;
      buffer[after] := 0x80 + wc % 64; after := after + 1;
    } else {
      buffer[after] := 0xE0 + wc / 4096; after := after + 1;
      buffer[after] := 0x80 + wc / 64 % 64; after := after + 1;
      buffer[after] := 0x80 + wc % 64; after := after + 1;
    }
  }

  // ---------------------------------------------------------------- the two coders together

  lemma {:induction false} CharRoundTrip(w: wchar)
    requires w <= 0xFFFF
    ensures var s := EncodeChar(w);
            && Claimed(s[0]) == |s|
            && (Utf8Char(s) <==> w < 0 || LegalUcs2(w))
            && (Utf8Char(s) ==> CodePoint(s) == if w < 0 then w % 128 else w)
  {
  }

  lemma {:induction false} CharCanonical(s: seq<byte>)
    requires Utf8Char(s)
    ensures LegalUcs2(CodePoint(s)) && EncodeChar(CodePoint(s)) == s && Claimed(s[0]) == |s|
  {
    if |s| == 2 {
      Split64(s[0] as int - 0xC0, s[1] as int - 0x80);
    } else if |s| == 3 {
      var high := (s[0] as int - 0xE0) * 64 + (s[1] as int - 0x80);
      Split64(high, s[2] as int - 0x80);
      Split64(s[0] as int - 0xE0, s[1] as int - 0x80);
      assert CodePoint(s) / 4096 == s[0] - 0xE0;
    }
  }

  lemma {:induction false} Split64(q: nat, r: nat)
    requires r < 64
    ensures (q * 64 + r) / 64 == q && (q * 64 + r) % 64 == r
  {
  }

  lemma {:induction false} LegalCons(c: seq<byte>, rest: seq<byte>)
    requires c != [] && Claimed(c[0]) == |c|
    ensures Legal(c + rest) <==> Utf8Char(c) && Legal(rest)
    ensures Legal(c + rest) ==> CodePoints(c + rest) == [CodePoint(c)] + CodePoints(rest)
  {
    hide Utf8Char, CodePoint;
    assert (c + rest)[..|c|] == c && (c + rest)[|c|..] == rest;
  }

  /** Decoding gives a text back after encoding exactly when the text is legal UCS-2. */
  lemma {:induction false} EncodeThenDecode(ws: seq<wchar>)
    requires Encodable(ws)
    ensures var s := EncodedWcs(ws);
            Legal(s) && CodePoints(s) == ws <==> LegalText(ws)
  {
    hide EncodeChar, Utf8Char, CodePoint;
    if ws != [] {
      CharRoundTrip(ws[0]);
      LegalCons(EncodeChar(ws[0]), EncodedWcs(ws[1..]));
      EncodeThenDecode(ws[1..]);
      assert ws == [ws[0]] + ws[1..];
    }
  }

  /** Every accepted byte string is the encoding of the text it decodes to, and that text is legal. */
  lemma {:induction false} DecodeThenEncode(data: seq<byte>)
    requires Legal(data)
    ensures LegalText(CodePoints(data))
    ensures Encodable(CodePoints(data)) && EncodedWcs(CodePoints(data)) == data
    decreases |data|
  {
    hide EncodeChar, Utf8Char, CodePoint;
    if data != [] {
      var n := Claimed(data[0]);
      CharCanonical(data[..n]);
      DecodeThenEncode(data[n..]);
      assert data == data[..n] + data[n..];
    }
  }

  /** Buffer bounds: decoding never produces more characters than bytes, encoding never more than
      three bytes a character. */
  lemma {:induction false} CoderBounds(data: seq<byte>, ws: seq<wchar>)
    requires Legal(data) && Encodable(ws)
    ensures |CodePoints(data)| <= |data| <= 3 * |CodePoints(data)|
    ensures |ws| <= |EncodedWcs(ws)| <= 3 * |ws|
    decreases |data| + |ws|
  {
    hide EncodeChar, Utf8Char, CodePoint;
    if data != [] {
      CoderBounds(data[Claimed(data[0])..], ws);
    } else if ws != [] {
      CoderBounds(data, ws[1..]);
    }
  }
}
