// The second pass of parse_string writes into a buffer that the first pass has sized.
module StringDecoder {
  import opened Bits
  import opened ByteStrings
  import opened JsonData
  import opened JsonString

  // ---- the size that the first pass computes ----

  // Steps of the first pass from p to the closing quote at e.
  function Steps(text: Bytes, p: nat, e: nat): nat
    requires e <= |text|
    decreases |text| - p
  {
    if p >= e then 0 else 1 + Steps(text, if text[p] == BACKSLASH then p + 2 else p + 1, e)
  }

  ghost predicate Aligned(text: Bytes, p: nat, e: nat) {
    p <= |text| && FindClose(text, p) == Some(e)
  }

  // p is the second byte of a pair that the first pass steps over as one.
  ghost predicate Astray(text: Bytes, p: nat, e: nat) {
    0 < p < e < |text| && text[p - 1] == BACKSLASH && Aligned(text, p - 1, e)
  }

  // The second pass stands where the first one stood, or inside one of its pairs, or has just
  // taken the closing quote for an escaped one.
  ghost predicate OnTrack(text: Bytes, p: nat, e: nat) {
    e < |text| && (Aligned(text, p, e) || Astray(text, p, e) || p == e + 1)
  }

  // The bytes that may still be written at p.
  ghost function Room(text: Bytes, p: nat, e: nat): nat
    requires OnTrack(text, p, e)
  {
    if p == e + 1 then 0
    else if Aligned(text, p, e) then Steps(text, p, e)
    else Steps(text, p - 1, e)
  }

  lemma AlignedStep(text: Bytes, p: nat, e: nat)
    requires Aligned(text, p, e) && p < e
    ensures text[p] != QUOTE
    ensures var q := if text[p] == BACKSLASH then p + 2 else p + 1;
      q <= e && Aligned(text, q, e) && Steps(text, p, e) == 1 + Steps(text, q, e)
  {
  }

  // After a pair in which the second pass went astray it may be back on track at once.
  lemma AstrayStep(text: Bytes, p: nat, e: nat)
    requires OnTrack(text, p, e) && p < e && !Aligned(text, p, e)
    ensures Astray(text, p, e) && Aligned(text, p + 1, e) && Room(text, p, e) == 1 + Steps(text, p + 1, e)
  {
  }

  lemma PlainStep(text: Bytes, p: nat, e: nat)
    requires OnTrack(text, p, e) && p < e && text[p] != BACKSLASH
    ensures OnTrack(text, p + 1, e) && Room(text, p + 1, e) + 1 <= Room(text, p, e)
  {
  }

  lemma ShortStep(text: Bytes, p: nat, e: nat)
    requires OnTrack(text, p, e) && p < e && text[p] == BACKSLASH
    ensures OnTrack(text, p + 2, e) && Room(text, p + 2, e) + 1 <= Room(text, p, e)
  {
    if Aligned(text, p, e) {
      AlignedStep(text, p, e);
    } else {
      AstrayStep(text, p, e);
      if p + 1 < e {
        AlignedStep(text, p + 1, e);
      }
    }
  }

  // A backslash and a u at p take at least one step, and the first pass stands right after them.
  lemma MarkStep(text: Bytes, p: nat, e: nat)
    requires OnTrack(text, p, e) && p + 1 < e && text[p] == BACKSLASH && text[p + 1] == LETTER_U
    ensures Aligned(text, p + 2, e) && 1 + Steps(text, p + 2, e) <= Room(text, p, e)
  {
    if Aligned(text, p, e) {
      AlignedStep(text, p, e);
    } else {
      AstrayStep(text, p, e);
      AlignedStep(text, p + 1, e);
    }
  }

  // Four hexadecimal digits are four steps of the first pass.
  lemma HexSteps(text: Bytes, q: nat, e: nat)
    requires Aligned(text, q, e) && q + 4 <= e && HexAt(text, q)
    ensures Aligned(text, q + 4, e) && Steps(text, q, e) == 4 + Steps(text, q + 4, e)
  {
    AlignedStep(text, q, e);
    AlignedStep(text, q + 1, e);
    AlignedStep(text, q + 2, e);
    AlignedStep(text, q + 3, e);
  }

  // From a later position there are no more steps to take.
  lemma {:induction false} FewerSteps(text: Bytes, p: nat, q: nat, e: nat)
    requires Aligned(text, p, e) && Aligned(text, q, e) && p <= q <= e
    ensures Steps(text, q, e) <= Steps(text, p, e)
    decreases e - p
  {
    if p < q {
      AlignedStep(text, p, e);
      if text[p] != BACKSLASH || p + 2 <= q {
        FewerSteps(text, if text[p] == BACKSLASH then p + 2 else p + 1, q, e);
      } else if q < e {
        AlignedStep(text, q, e);
        FewerSteps(text, p + 2, if text[q] == BACKSLASH then q + 2 else q + 1, e);
      }
    }
  }

  // Moving by n bytes keeps the second pass on track and takes about a step for every two of them.
  lemma {:induction false} AnyBytes(text: Bytes, q: nat, n: nat, e: nat)
    requires Aligned(text, q, e) && q + n <= e
    ensures OnTrack(text, q + n, e) && 2 * Room(text, q + n, e) + n <= 2 * Steps(text, q, e) + 1
    decreases n
  {
    if n > 0 {
      AlignedStep(text, q, e);
      if text[q] != BACKSLASH {
        AnyBytes(text, q + 1, n - 1, e);
      } else if n > 1 {
        AnyBytes(text, q + 2, n - 2, e);
      } else if Aligned(text, q + 1, e) {
        FewerSteps(text, q, q + 1, e);
      } else {
        AstrayStep(text, q + 1, e);
      }
    }
  }

  // An escape that decodes leaves room for what it writes, whatever its four digits are.
  lemma UnitStep(text: Bytes, p: nat, e: nat)
    requires OnTrack(text, p, e) && p + 6 <= e && text[p] == BACKSLASH && text[p + 1] == LETTER_U
    ensures OnTrack(text, p + 6, e)
    ensures Room(text, p + 6, e) + (if Hex4At(text, p + 2) == 0 then 1 else 3) <= Room(text, p, e)
    ensures Hex4At(text, p + 2) != 0 ==> Aligned(text, p + 6, e)
  {
    MarkStep(text, p, e);
    if HexAt(text, p + 2) {
      HexSteps(text, p + 2, e);
    } else {
      AnyBytes(text, p + 2, 4, e);
    }
  }

  lemma LiteralStep(text: Bytes, p: nat, e: nat)
    requires OnTrack(text, p, e) && p < e && text[p] == BACKSLASH && text[p + 1] == LETTER_U && Utf16(text, p, e).Literal?
    ensures var l := Utf16(text, p, e);
      OnTrack(text, p + l.length, e) && Room(text, p + l.length, e) + |Utf8(l.code)| <= Room(text, p, e)
  {
    UnitStep(text, p, e);
    if Utf16(text, p, e).length == 12 {
      UnitStep(text, p + 6, e);
    }
  }

  // ---- reading does not go past the closing quote ----

  ghost predicate SameUpTo(a: Bytes, b: Bytes, e: nat) {
    e < |a| && e < |b| && forall k :: 0 <= k <= e ==> a[k] == b[k]
  }

  lemma {:induction false} DecodeIsLocal(a: Bytes, b: Bytes, p: nat, e: nat)
    requires SameUpTo(a, b, e)
    ensures Decode(a, p, e) == Decode(b, p, e)
    decreases |a| - p
  {
    if p < e {
      if a[p] != BACKSLASH {
        DecodeIsLocal(a, b, p + 1, e);
      } else if a[p + 1] == LETTER_U {
        assert Utf16(a, p, e) == Utf16(b, p, e);
        if Utf16(a, p, e).Literal? {
          DecodeIsLocal(a, b, p + Utf16(a, p, e).length, e);
        }
      } else {
        DecodeIsLocal(a, b, p + 2, e);
      }
    }
  }

  // ---- parse_hex4 ----

  method ParseHex4(input: Bytes, p: nat) returns (h: nat)
    requires p + 4 <= |input|
    ensures h == Hex4At(input, p)
  {
    h := 0;
    var i := 0;
    while i < 4
      invariant 0 <= i <= 4
      invariant FirstHex(input, p, i)
      invariant h == HexPrefix(input, p, i)
    {
      if !IsHex(input[p + i]) {
        return 0;
      }
      h := h + HexValue(input[p + i]);
      if i < 3 {
        ShlMul(h, 4);
        assert Pow2(4) == 16;
        h := Shl(h, 4);
      }
      i := i + 1;
    }
  }

  ghost predicate FirstHex(input: Bytes, p: nat, i: nat)
    requires i <= 4 && p + 4 <= |input|
  {
    (i > 0 ==> IsHex(input[p])) && (i > 1 ==> IsHex(input[p + 1])) && (i > 2 ==> IsHex(input[p + 2])) && (i > 3 ==> IsHex(input[p + 3]))
  }

  // The value of the first i digits, moved up to make place for the next one.
  ghost function HexPrefix(input: Bytes, p: nat, i: nat): nat
    requires i <= 4 && p + 4 <= |input| && FirstHex(input, p, i)
  {
    if i == 0 then 0
    else if i == 1 then HexValue(input[p]) * 16
    else if i == 2 then (HexValue(input[p]) * 16 + HexValue(input[p + 1])) * 16
    else if i == 3 then ((HexValue(input[p]) * 16 + HexValue(input[p + 1])) * 16 + HexValue(input[p + 2])) * 16
    else ((HexValue(input[p]) * 16 + HexValue(input[p + 1])) * 16 + HexValue(input[p + 2])) * 16 + HexValue(input[p + 3])
  }

  // ---- utf16_literal_to_utf8 ----

  // code / 64^m, the groups of six bits above the lowest m
  function Upper(code: nat, m: nat): nat {
    if m == 0 then code else Upper(code, m - 1) / 64
  }

  lemma Utf8Bytes(code: nat)
    requires code <= 0x10_FFFF
    ensures var s := Utf8(code); var n := |s|;
      && (forall k :: 0 < k < n ==> s[k] == 0x80 + Upper(code, n - 1 - k) % 64)
      && s[0] == Mark(n) + Upper(code, n - 1)
      && Upper(code, n - 1) < (if n == 1 then 0x80 else if n == 2 then 0x20 else if n == 3 then 0x10 else 0x08)
  {
    assert code / 4096 == code / 64 / 64;
    assert code / 262144 == code / 4096 / 64;
    assert Upper(code, 0) == code && Upper(code, 1) == code / 64 && Upper(code, 2) == code / 4096;
    assert Upper(code, 3) == code / 262144;
  }

  // first_byte_mark for a sequence of n bytes
  function Mark(n: nat): nat {
    if n == 2 then 0xC0 else if n == 3 then 0xE0 else if n == 4 then 0xF0 else 0
  }

  // (codepoint | 0x80) & 0xBF keeps the low six bits below the mark of a continuation byte.
  lemma ContinuationByte(c: nat)
    ensures And(Or(c, 0x80), 0xBF) == 0x80 + c % 64
  {
    var h, l := c / 64, c % 64;
    assert Pow2(6) == 64;
    ShlMul(h, 6);
    ShlMul(2, 6);
    OrSplit(h, l, 2, 0, 6);
    OrZero(l);
    var o := Or(h, 2);
    AndSplit(o, l, 2, 63, 6);
    assert Or(c, 0x80) == Shl(o, 6) + l;
    AndLow(0, l, 6);
    assert Shl(0, 6) == 0;
    OrBitTwo(h);
    ShlMul(And(o, 2), 6);
  }

  lemma OrZero(l: nat)
    ensures Or(l, 0) == l
  {
  }

  lemma OrBitTwo(h: nat)
    ensures And(Or(h, 2), 2) == 2
  {
  }

  // A marked first byte, whose payload does not reach the bits of the mark.
  lemma FirstByte(n: nat, c: nat)
    requires 2 <= n <= 4 && c < (if n == 2 then 0x20 else if n == 3 then 0x10 else 0x08)
    ensures And(Or(c, Mark(n)), 0xFF) == Mark(n) + c
  {
    var k, h := 7 - n, if n == 2 then 6 else if n == 3 then 14 else 30;
    assert Pow2(3) == 8 && Pow2(4) == 16 && Pow2(5) == 32;
    ShlMul(h, k);
    OrAdd(h, c, k);
    assert Pow2(8) == 256;
    AndLow(0, Mark(n) + c, 8);
    assert Shl(0, 8) == 0;
  }

  lemma ShiftSix(c: nat)
    ensures Shr(c, 6) == c / 64
  {
    assert Pow2(6) == 64;
    ShlMul(c / 64, 6);
    ShrShl(c / 64, c % 64, 6);
  }

  // The loop of utf16_literal_to_utf8 writes the UTF-8 form of the code point, last byte first.
  method WriteUtf8(code: nat, output: array<byte>, at: nat) returns (length: nat)
    requires code <= 0x10_FFFF && at + |Utf8(code)| <= output.Length
    modifies output
    ensures length == |Utf8(code)|
    ensures forall k :: at <= k < at + length ==> output[k] == Utf8(code)[k - at]
    ensures forall k :: 0 <= k < output.Length && !(at <= k < at + length) ==> output[k] == old(output[k])
  {
    Utf8Bytes(code);
    length := if code < 0x80 then 1 else if code < 0x800 then 2 else if code < 0x1_0000 then 3 else 4;
    var codepoint := code;
    var position := length - 1;
    while position > 0
      invariant 0 <= position < length
      invariant codepoint == Upper(code, length - 1 - position)
      invariant forall k :: at + position < k < at + length ==> output[k] == Utf8(code)[k - at]
      invariant forall k :: 0 <= k < output.Length && !(at + position < k < at + length) ==> output[k] == old(output[k])
    {
      ContinuationByte(codepoint);
      ShiftSix(codepoint);
      output[at + position] := And(Or(codepoint, 0x80), 0xBF);
      codepoint := Shr(codepoint, 6);
      position := position - 1;
    }
    if length > 1 {
      FirstByte(length, codepoint);
      output[at] := And(Or(codepoint, Mark(length)), 0xFF);
    } else {
      output[at] := codepoint;
    }
  }

  // The low k bits of two numbers side by side.
  lemma LowBitsJoin(x: nat, y: nat, h: nat, a: nat, i: nat, b: nat, k: nat, p: nat)
    requires p == Pow2(k) && a < p && b < p && x == h * p + a && y == i * p + b
    ensures Or(Shl(And(x, p - 1), k), And(y, p - 1)) == a * p + b
  {
    ShlMul(h, k);
    ShlMul(i, k);
    AndLow(h, a, k);
    AndLow(i, b, k);
    ShlMul(a, k);
    OrAdd(a, b, k);
  }

  // (first_code & 0x3FF) << 10 | (second_code & 0x3FF), moved up by 0x10000
  lemma PairBits(first: nat, second: nat)
    requires IsHigh(first) && IsLow(second)
    ensures 0x1_0000 + Or(Shl(And(first, 0x3FF), 10), And(second, 0x3FF)) == PairCode(first, second)
  {
    assert Pow2(10) == 1024;
    LowBitsJoin(first, second, 54, first - 0xD800, 55, second - 0xDC00, 10, 1024);
  }

  // utf16_literal_to_utf8: the length of the escape, or 0 when it is rejected, and the new end of the output.
  method Utf16LiteralToUtf8(input: Bytes, p: nat, e: nat, output: array<byte>, at: nat)
      returns (sequenceLength: nat, end: nat)
    requires p <= e <= |input| && at <= output.Length
    requires Utf16(input, p, e).Literal? ==> at + |Utf8(Utf16(input, p, e).code)| <= output.Length
    modifies output
    ensures forall k :: 0 <= k < at ==> output[k] == old(output[k])
    ensures match Utf16(input, p, e)
      case BadLiteral => sequenceLength == 0
      case Literal(code, length) =>
        sequenceLength == length && end == at + |Utf8(code)| && output[at..end] == Utf8(code)
  {
    end := at;
    var codepoint;
    sequenceLength, codepoint := ReadUtf16(input, p, e);
    if sequenceLength != 0 {
      var written := WriteUtf8(codepoint, output, at);
      end := at + written;
    }
  }

  // Its first half: the units of the escape, and the code point they make up.
  method ReadUtf16(input: Bytes, p: nat, e: nat) returns (length: nat, codepoint: nat)
    requires p <= e <= |input|
    ensures match Utf16(input, p, e)
      case BadLiteral => length == 0
      case Literal(code, n) => length == n && codepoint == code
  {
    length, codepoint := 0, 0;
    if e - p < 6 {
      return;
    }
    var firstCode := ParseHex4(input, p + 2);
    if 0xDC00 <= firstCode <= 0xDFFF {
      return;
    }
    if 0xD800 <= firstCode <= 0xDBFF {
      if e - (p + 6) < 6 {
        return;
      }
      if input[p + 6] != BACKSLASH || input[p + 7] != LETTER_U {
        return;
      }
      var secondCode := ParseHex4(input, p + 8);
      if secondCode < 0xDC00 || secondCode > 0xDFFF {
        return;
      }
      PairBits(firstCode, secondCode);
      codepoint := 0x1_0000 + Or(Shl(And(firstCode, 0x3FF), 10), And(secondCode, 0x3FF));
      length := 12;
    } else {
      codepoint, length := firstCode, 6;
    }
  }

  lemma PrependNothing(a: Bytes, tail: Option<Bytes>)
    requires a == []
    ensures Prepend(a, tail) == tail
  {
    if tail.Some? {
      assert a + tail.value == tail.value;
    }
  }

  lemma PrependTwice(a: Bytes, b: Bytes, tail: Option<Bytes>)
    ensures Prepend(a, Prepend(b, tail)) == Prepend(a + b, tail)
  {
    if tail.Some? {
      assert a + (b + tail.value) == a + b + tail.value;
    }
  }

  // The decoding loop of parse_string, from the byte after the opening quote to the closing quote at e.
  // The output has the size that the first pass asked for, and every write stays inside it.
  method DecodeInto(input: Bytes, start: nat, e: nat, output: array<byte>) returns (ok: bool, count: nat, p: nat)
    requires Aligned(input, start, e) && output.Length == Steps(input, start, e) + 2
    modifies output
    ensures p <= e + 1
    ensures ok <==> Decode(input, start, e).Some?
    ensures ok ==> count <= Steps(input, start, e) && output[count] == 0 && Decode(input, start, e) == Some(output[..count])
  {
    ghost var limit, whole := Steps(input, start, e), Decode(input, start, e);
    ok, count, p := true, 0, start;
    PrependNothing(output[..0], whole);
    while p < e
      invariant Decoded(input, p, e, output, count, whole, limit)
      decreases |input| - p
    {
      if input[p] != BACKSLASH {
        CopyPlain(input, p, e, output, count, whole, limit);
        count, p := count + 1, p + 1;
      } else {
        ok, count, p := DecodeEscape(input, p, e, output, count, whole, limit);
        if !ok {
          return;
        }
      }
    }
    assert output[..count] + [] == output[..count];
    output[count] := 0;
  }

  // What the output holds and what the rest of the input decodes to make up the whole; both fit the limit.
  ghost predicate Decoded(input: Bytes, p: nat, e: nat, output: array<byte>, count: nat, whole: Option<Bytes>, limit: nat)
    reads output
  {
    && OnTrack(input, p, e) && count + Room(input, p, e) <= limit && output.Length == limit + 2
    && whole == Prepend(output[..count], Decode(input, p, e))
  }

  method CopyPlain(input: Bytes, p: nat, e: nat, output: array<byte>, count: nat, ghost whole: Option<Bytes>, ghost limit: nat)
    requires Decoded(input, p, e, output, count, whole, limit) && p < e && input[p] != BACKSLASH
    modifies output
    ensures Decoded(input, p + 1, e, output, count + 1, whole, limit)
  {
    PlainStep(input, p, e);
    ghost var before := output[..count];
    PrependTwice(before, [input[p]], Decode(input, p + 1, e));
    output[count] := input[p];
    assert output[..count + 1] == before + [input[p]];
  }

  // The switch on the byte after a backslash.
  method DecodeEscape(input: Bytes, p: nat, e: nat, output: array<byte>, count: nat, ghost whole: Option<Bytes>, ghost limit: nat)
      returns (ok: bool, next: nat, q: nat)
    requires Decoded(input, p, e, output, count, whole, limit) && p < e && input[p] == BACKSLASH
    modifies output
    ensures ok ==> p < q && Decoded(input, q, e, output, next, whole, limit)
    ensures !ok ==> whole == None && q <= e + 1
  {
    if input[p + 1] == LETTER_U {
      ok, next, q := DecodeUnicode(input, p, e, output, count, whole, limit);
      return;
    }
    ok, next, q := false, count, p;
    ShortStep(input, p, e);
    var b := ShortEscape(input[p + 1]);
    if b.Some? {
      ghost var before := output[..count];
      PrependTwice(before, [b.value], Decode(input, p + 2, e));
      output[count] := b.value;
      ok, next, q := true, count + 1, p + 2;
      assert output[..next] == before + [b.value];
    }
  }

  // Its case for a unicode escape.
  method DecodeUnicode(input: Bytes, p: nat, e: nat, output: array<byte>, count: nat, ghost whole: Option<Bytes>, ghost limit: nat)
      returns (ok: bool, next: nat, q: nat)
    requires Decoded(input, p, e, output, count, whole, limit) && p < e && input[p] == BACKSLASH && input[p + 1] == LETTER_U
    modifies output
    ensures ok ==> p < q && Decoded(input, q, e, output, next, whole, limit)
    ensures !ok ==> whole == None && q <= e + 1
  {
    ghost var before := output[..count];
    if Utf16(input, p, e).Literal? {
      LiteralStep(input, p, e);
      PrependTwice(before, Utf8(Utf16(input, p, e).code), Decode(input, p + Utf16(input, p, e).length, e));
    }
    var length, end := Utf16LiteralToUtf8(input, p, e, output, count);
    ok, next, q := length != 0, end, p + length;
    assert ok ==> output[..end] == before + output[count..end];
  }
}
