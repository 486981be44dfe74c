// Sequences of bytes, C strings, and pieces that stand at a position.
module ByteStrings {
  import opened Bits

  type Bytes = seq<byte>

  datatype Option<+T> = None | Some(value: T)

  // What reading at a position gives: a value and the position after it.
  datatype Parsed<+T> = Parsed(value: T, next: nat) | Rejected

  function Max(a: nat, b: nat): nat {
    if a >= b then a else b
  }

  // strlen from position i: the first NUL, or the end of the bytes.
  function StrEnd(s: Bytes, i: nat): (e: nat)
    requires i <= |s|
    ensures i <= e <= |s|
    decreases |s| - i
  {
    if i == |s| || s[i] == 0 then i else StrEnd(s, i + 1)
  }

  // The bytes a C string function sees: everything before the first NUL.
  function CString(s: Bytes): Bytes {
    s[..StrEnd(s, 0)]
  }

  lemma {:induction false} StrEndIs(s: Bytes, i: nat, e: nat)
    requires i <= e <= |s| && (forall k :: i <= k < e ==> s[k] != 0) && (e < |s| ==> s[e] == 0)
    ensures StrEnd(s, i) == e
    decreases e - i
  {
    if i < e {
      StrEndIs(s, i + 1, e);
    }
  }

  lemma {:induction false} NoNulBefore(s: Bytes, i: nat)
    requires i <= |s|
    ensures forall k :: i <= k < StrEnd(s, i) ==> s[k] != 0
    decreases |s| - i
  {
    if i < |s| && s[i] != 0 {
      NoNulBefore(s, i + 1);
    }
  }

  // A C string function sees the whole exactly if there is no NUL in it.
  lemma CStringOfText(s: Bytes)
    ensures CString(s) == s <==> NulFree(s)
  {
    if NulFree(s) {
      StrEndIs(s, 0, |s|);
    }
    NoNulBefore(s, 0);
  }

  predicate NulFree(s: Bytes) {
    forall k :: 0 <= k < |s| ==> s[k] != 0
  }

  // piece stands in the text at position i
  ghost predicate At(text: Bytes, i: nat, piece: Bytes) {
    i + |piece| <= |text| && forall k :: 0 <= k < |piece| ==> text[i + k] == piece[k]
  }

  lemma AtSplit(text: Bytes, i: nat, a: Bytes, b: Bytes)
    requires At(text, i, a + b)
    ensures At(text, i, a) && At(text, i + |a|, b)
  {
    forall k | 0 <= k < |a| ensures text[i + k] == a[k] {
      assert (a + b)[k] == a[k];
    }
    forall k | 0 <= k < |b| ensures text[i + |a| + k] == b[k] {
      assert (a + b)[|a| + k] == b[k];
    }
  }

  lemma AtJoin(text: Bytes, i: nat, a: Bytes, b: Bytes)
    requires At(text, i, a) && At(text, i + |a|, b)
    ensures At(text, i, a + b)
  {
  }

  lemma AtIndex(text: Bytes, i: nat, piece: Bytes, k: nat)
    requires At(text, i, piece) && k < |piece|
    ensures i + k < |text| && text[i + k] == piece[k]
  {
  }

  lemma AtByte(text: Bytes, i: nat, b: byte)
    requires At(text, i, [b])
    ensures i < |text| && text[i] == b
  {
    AtIndex(text, i, [b], 0);
  }

  lemma Regroup(a: Bytes, b: Bytes, c: Bytes)
    ensures a + (b + c) == (a + b) + c
  {
  }

  lemma HeadsAndTails<T>(x: T, xs: seq<T>, y: T, ys: seq<T>)
    ensures [x] + xs == [y] + ys <==> x == y && xs == ys
  {
    if [x] + xs == [y] + ys {
      assert ([x] + xs)[0] == ([y] + ys)[0];
      assert ([x] + xs)[1..] == ([y] + ys)[1..];
    }
  }
}
