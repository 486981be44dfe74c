// Which bytes print_string_ptr writes, and that no literal without control bytes is shorter.
module PrintedStrings {
  import opened Bits
  import opened ByteStrings
  import opened JsonData
  import opened JsonString

  // ---- the bytes ----

  // A digit from 0 to 15 in lower case.
  predicate WritesDigit(d: byte, v: nat) {
    if v < 10 then d == 48 + v else v < 16 && d == 87 + v
  }

  // What is written for a byte: the short escapes, \u and four digits for the other control bytes, and the byte itself
  // for all the rest.
  lemma ByteWritten(b: byte)
    ensures b == 34 || b == 92 ==> EscapeByte(b) == [92, b]
    ensures b == 8 ==> EscapeByte(b) == [92, 98]
    ensures b == 9 ==> EscapeByte(b) == [92, 116]
    ensures b == 10 ==> EscapeByte(b) == [92, 110]
    ensures b == 12 ==> EscapeByte(b) == [92, 102]
    ensures b == 13 ==> EscapeByte(b) == [92, 114]
    ensures b < 32 && b != 8 && b != 9 && b != 10 && b != 12 && b != 13 ==>
      |EscapeByte(b)| == 6 && EscapeByte(b)[..4] == [92, 117, 48, 48]
      && WritesDigit(EscapeByte(b)[4], b / 16) && WritesDigit(EscapeByte(b)[5], b % 16)
    ensures b >= 32 && b != 34 && b != 92 ==> EscapeByte(b) == [b]
  {
  }

  lemma {:induction false} EscapeJoins(a: Bytes, b: Bytes, j: nat)
    requires j <= |a|
    ensures Escape(a + b, j) == Escape(a, j) + Escape(a + b, |a|)
    decreases |a| - j
  {
    var n := j + 1;
    if n <= |a| {
      EscapeJoins(a, b, n);
      Regroup(EscapeByte(a[j]), Escape(a, n), Escape(a + b, |a|));
    }
  }

  lemma {:induction false} EscapeShifts(s: Bytes, i: nat, b: Bytes, j: nat, k: nat)
    requires At(s, i, b) && |s| == i + |b| && j <= |b| && k == i + j
    ensures Escape(s, k) == Escape(b, j)
    decreases |b| - j
  {
    var n, m := j + 1, k + 1;
    if n <= |b| {
      AtIndex(s, i, b, j);
      assert s[k] == b[j];
      EscapeShifts(s, i, b, n, m);
    }
  }

  // A string is written byte for byte, between two quotes.
  lemma EscapesJoin(a: Bytes, b: Bytes)
    ensures Escape(a + b, 0) == Escape(a, 0) + Escape(b, 0) && Quoted(a) == [34] + Escape(a, 0) + [34]
  {
    EscapeJoins(a, b, 0);
    EscapeShifts(a + b, |a|, b, 0, |a|);
  }

  lemma EscapeOne(b: byte)
    ensures Escape([b], 0) == EscapeByte(b)
  {
    assert Escape([b], 1) == [];
  }

  // A byte that is written as itself.
  predicate IsPlain(b: byte) {
    b >= 32 && b != 34 && b != 92
  }

  lemma {:induction false} PlainEscape(s: Bytes, j: nat)
    requires j <= |s| && forall k :: j <= k < |s| ==> IsPlain(s[k])
    ensures Escape(s, j) == s[j..]
    decreases |s| - j
  {
    if j < |s| {
      ByteWritten(s[j]);
      PlainEscape(s, j + 1);
      assert s[j..] == [s[j]] + s[j + 1..];
    } else {
      assert s[j..] == [];
    }
  }

  // A string is written as it is between quotes exactly if it has no control byte, no quote and no backslash.
  lemma WrittenPlain(s: Bytes)
    ensures Quoted(s) == [34] + s + [34] <==> forall k :: 0 <= k < |s| ==> IsPlain(s[k])
  {
    if forall k :: 0 <= k < |s| ==> IsPlain(s[k]) {
      PlainEscape(s, 0);
      assert s[0..] == s;
    } else {
      var k :| 0 <= k < |s| && !IsPlain(s[k]);
      LongerEscape(s, 0, k);
    }
  }

  lemma ByteLength(b: byte)
    ensures |EscapeByte(b)| >= if IsPlain(b) then 1 else 2
  {
  }

  lemma {:induction false} AtLeast(s: Bytes, j: nat)
    requires j <= |s|
    ensures |Escape(s, j)| >= |s| - j
    decreases |s| - j
  {
    if j < |s| {
      AtLeast(s, j + 1);
      ByteLength(s[j]);
    }
  }

  lemma {:induction false} LongerEscape(s: Bytes, j: nat, k: nat)
    requires j <= k < |s| && !IsPlain(s[k])
    ensures |Escape(s, j)| > |s| - j
    decreases |s| - j
  {
    ByteLength(s[j]);
    if j == k {
      AtLeast(s, j + 1);
    } else {
      LongerEscape(s, j + 1, k);
    }
  }

  // ---- no literal is shorter ----

  ghost predicate NoControl(text: Bytes, i: nat, e: nat) {
    forall k :: i <= k < e && k < |text| ==> text[k] >= 32
  }

  // What is in front of the others takes at least as many bytes in the text as it would when written.
  lemma Shorter(head: Bytes, tail: Bytes, n: nat, m: nat)
    requires |Escape(head, 0)| <= n && |Escape(tail, 0)| <= m
    ensures |Escape(head + tail, 0)| <= n + m
  {
    EscapesJoin(head, tail);
  }

  lemma {:induction false} HighBytes(s: Bytes, j: nat)
    requires j <= |s| && forall k :: 0 <= k < |s| ==> s[k] >= 128
    ensures |Escape(s, j)| == |s| - j
    decreases |s| - j
  {
    if j < |s| {
      HighBytes(s, j + 1);
    }
  }

  lemma CodeWritten(c: nat)
    requires c <= 0x10_FFFF
    ensures |Escape(Utf8(c), 0)| <= if c < 0x1_0000 then 6 else 12
  {
    if c < 128 {
      EscapeOne(c);
    } else {
      HighBytes(Utf8(c), 0);
    }
  }

  lemma {:induction false} ShortestRest(text: Bytes, p: nat, e: nat, s: Bytes)
    requires StringValue(text, p) == Parsed(s, e) && NoControl(text, p, e)
    ensures p < e && |Escape(s, 0)| <= e - 1 - p
    decreases |text| - p
  {
    if text[p] == QUOTE {
    } else if text[p] != BACKSLASH {
      PlainFirst(text, p, e, s);
    } else if EscapeAt(text, p) {
      var n := EscapeLength(text, p);
      var tail := StringValue(text, p + n).value;
      ShortestRest(text, p + n, e, tail);
      CodeWritten(EscapeCode(text, p));
      Shorter(Utf8(EscapeCode(text, p)), tail, n, e - 1 - (p + n));
    } else {
      var b, tail := ShortEscape(text[p + 1]).value, StringValue(text, p + 2).value;
      ShortestRest(text, p + 2, e, tail);
      EscapeOne(b);
      Shorter([b], tail, 2, e - 1 - (p + 2));
    }
  }

  lemma {:induction false} PlainFirst(text: Bytes, p: nat, e: nat, s: Bytes)
    requires StringValue(text, p) == Parsed(s, e) && NoControl(text, p, e) && text[p] != QUOTE && text[p] != BACKSLASH
    ensures p < e && |Escape(s, 0)| <= e - 1 - p
    decreases |text| - p, 0
  {
    var b, tail := text[p], StringValue(text, p + 1).value;
    ShortestRest(text, p + 1, e, tail);
    EscapeOne(b);
    Shorter([b], tail, 1, e - 1 - (p + 1));
  }

  // Of all literals of the grammar that denote a string and have no control bytes, none is shorter than the one that is
  // written.
  lemma ShortestPrint(text: Bytes, i: nat, e: nat, s: Bytes)
    requires StringAt(text, i, e, s) && NoControl(text, i, e)
    ensures i < e && |Quoted(s)| <= e - i
  {
    ShortestRest(text, i + 1, e, s);
  }

  lemma {:induction false} NoControlWritten(s: Bytes, j: nat)
    requires j <= |s|
    ensures forall k :: 0 <= k < |Escape(s, j)| ==> Escape(s, j)[k] >= 32
    decreases |s| - j
  {
    if j < |s| {
      NoControlWritten(s, j + 1);
    }
  }

  // And that one is such a literal.
  lemma WrittenIsOne(s: Bytes)
    ensures StringAt(Quoted(s), 0, |Quoted(s)|, s) && NoControl(Quoted(s), 0, |Quoted(s)|)
  {
    QuotedAt(Quoted(s), 0, |Quoted(s)|, s);
    NoControlWritten(s, 0);
  }
}
