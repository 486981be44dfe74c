// cJSON_Minify: what it makes of a text, that doing it again changes nothing, and that it works in place.
module JsonMinify {
  import opened Bits
  import opened ByteStrings
  import opened JsonData

  const STAR: byte := 42
  const RETURN: byte := 13

  predicate IsBlank(b: byte) {
    b == SPACE || b == TAB || b == RETURN || b == NEWLINE
  }

  predicate StarSlash(s: Bytes, p: nat) {
    p + 1 < |s| && s[p] == STAR && s[p + 1] == SLASH
  }

  predicate EscapedQuote(s: Bytes, p: nat) {
    p + 1 < |s| && s[p] == BACKSLASH && s[p + 1] == QUOTE
  }

  // skip_oneline_comment, behind the slashes: to the byte after the end of the line
  function LineEnd(s: Bytes, p: nat): (e: nat)
    requires p <= |s|
    ensures p <= e <= |s|
    decreases |s| - p
  {
    if p == |s| then p else if s[p] == NEWLINE then p + 1 else LineEnd(s, p + 1)
  }

  // skip_multiline_comment, behind the opening
  function CommentEnd(s: Bytes, p: nat): (e: nat)
    requires p <= |s|
    ensures p <= e <= |s|
    decreases |s| - p
  {
    if p == |s| then p else if StarSlash(s, p) then p + 2 else CommentEnd(s, p + 1)
  }

  // The end of what is dropped at p: a blank, a comment or a slash that opens none.
  function SkipEnd(s: Bytes, p: nat): (e: nat)
    requires p < |s| && (IsBlank(s[p]) || s[p] == SLASH)
    ensures p < e <= |s|
  {
    if s[p] == SLASH && p + 1 < |s| && s[p + 1] == SLASH then LineEnd(s, p + 2)
    else if s[p] == SLASH && p + 1 < |s| && s[p + 1] == STAR then CommentEnd(s, p + 2)
    else p + 1
  }

  // What cJSON_Minify makes of the bytes from p on.
  function Minify(s: Bytes, p: nat): (r: Bytes)
    requires p <= |s|
    ensures |r| <= |s| - p
    decreases |s| - p
  {
    if p == |s| then []
    else if IsBlank(s[p]) || s[p] == SLASH then Minify(s, SkipEnd(s, p))
    else if s[p] == QUOTE then [QUOTE] + Inside(s, p + 1)
    else [s[p]] + Minify(s, p + 1)
  }

  // The same for bytes that are taken to stand inside a string; only an escaped quote counts as an
  // escape there.
  function Inside(s: Bytes, p: nat): (r: Bytes)
    requires p <= |s|
    ensures |r| <= |s| - p
    decreases |s| - p
  {
    if p == |s| then []
    else if s[p] == QUOTE then [QUOTE] + Minify(s, p + 1)
    else if EscapedQuote(s, p) then [BACKSLASH, QUOTE] + Inside(s, p + 2)
    else [s[p]] + Inside(s, p + 1)
  }

  // ---- minifying twice is minifying once ----

  lemma {:induction false} MinifyAgain(s: Bytes, p: nat, out: Bytes, q: nat, r: Bytes)
    requires p <= |s| && r == Minify(s, p) && At(out, q, r) && |out| == q + |r|
    ensures Minify(out, q) == r
    decreases |s| - p
  {
    if p == |s| {
    } else if IsBlank(s[p]) || s[p] == SLASH {
      MinifyAgain(s, SkipEnd(s, p), out, q, r);
    } else {
      AtIndex(out, q, r, 0);
      if s[p] == QUOTE {
        AtRest(out, q, [QUOTE], Inside(s, p + 1));
        InsideAgain(s, p + 1, out, q + 1, Inside(s, p + 1));
      } else {
        AtRest(out, q, [s[p]], Minify(s, p + 1));
        MinifyAgain(s, p + 1, out, q + 1, Minify(s, p + 1));
      }
    }
  }

  lemma {:induction false} InsideAgain(s: Bytes, p: nat, out: Bytes, q: nat, r: Bytes)
    requires p <= |s| && r == Inside(s, p) && At(out, q, r) && |out| == q + |r|
    ensures Inside(out, q) == r
    decreases |s| - p
  {
    if p < |s| {
      AtIndex(out, q, r, 0);
      if s[p] == QUOTE {
        AtRest(out, q, [QUOTE], Minify(s, p + 1));
        MinifyAgain(s, p + 1, out, q + 1, Minify(s, p + 1));
      } else if EscapedQuote(s, p) {
        AtIndex(out, q, r, 1);
        AtRest(out, q, [BACKSLASH, QUOTE], Inside(s, p + 2));
        InsideAgain(s, p + 2, out, q + 2, Inside(s, p + 2));
      } else {
        AtRest(out, q, [s[p]], Inside(s, p + 1));
        InsideAgain(s, p + 1, out, q + 1, Inside(s, p + 1));
        if q + 1 < |out| {
          AtIndex(out, q, r, 1);
          InsideFirst(s, p + 1, Inside(s, p + 1));
        }
      }
    }
  }

  lemma AtRest(text: Bytes, q: nat, a: Bytes, b: Bytes)
    requires At(text, q, a + b)
    ensures At(text, q + |a|, b)
  {
    AtSplit(text, q, a, b);
  }

  lemma InsideFirst(s: Bytes, p: nat, r: Bytes)
    requires p <= |s| && r == Inside(s, p) && r != []
    ensures p < |s| && r[0] == s[p]
  {
  }

  lemma MinifyTwice(s: Bytes)
    ensures Minify(Minify(s, 0), 0) == Minify(s, 0)
  {
    MinifyAgain(s, 0, Minify(s, 0), 0, Minify(s, 0));
  }

  // ---- in place ----

  // json holds a C string whose bytes from p on are still those of text; nothing behind the string changes.
  ghost predicate Unread(json: array<byte>, text: Bytes, behind: Bytes, p: nat)
    reads json
  {
    p <= |text| && NulFree(text) && json.Length == |text| + 1 + |behind| && json[|text|] == 0
    && (forall k :: p <= k < |text| ==> json[k] == text[k]) && json[|text| + 1..] == behind
  }

  method SkipOnelineComment(json: array<byte>, input: nat, ghost text: Bytes, ghost behind: Bytes) returns (p: nat)
    requires Unread(json, text, behind, input) && input + 2 <= |text|
    ensures p == LineEnd(text, input + 2)
  {
    p := input + 2;
    while json[p] != 0
      invariant input + 2 <= p <= |text| && LineEnd(text, input + 2) == LineEnd(text, p)
      decreases |text| - p
    {
      if json[p] == NEWLINE {
        return p + 1;
      }
      p := p + 1;
    }
  }

  method SkipMultilineComment(json: array<byte>, input: nat, ghost text: Bytes, ghost behind: Bytes) returns (p: nat)
    requires Unread(json, text, behind, input) && input + 2 <= |text|
    ensures p == CommentEnd(text, input + 2)
  {
    p := input + 2;
    while json[p] != 0
      invariant input + 2 <= p <= |text| && CommentEnd(text, input + 2) == CommentEnd(text, p)
      decreases |text| - p
    {
      if json[p] == STAR && json[p + 1] == SLASH {
        return p + 2;
      }
      p := p + 1;
    }
  }

  // What minifying makes of the whole text is what stands before the write cursor and then rest.
  ghost predicate Wrote(json: array<byte>, output: nat, whole: Bytes, rest: Bytes)
    reads json
  {
    && output <= json.Length && |whole| == output + |rest| && At(whole, output, rest)
    && forall k :: 0 <= k < output ==> json[k] == whole[k] != 0
  }

  // output[0] = input[0]
  method CopyByte(json: array<byte>, input: nat, output: nat, ghost text: Bytes, ghost behind: Bytes, ghost whole: Bytes, ghost rest: Bytes)
    requires Unread(json, text, behind, input) && output <= input < |text|
    requires Wrote(json, output, whole, [text[input]] + rest)
    modifies json
    ensures Unread(json, text, behind, input + 1) && Wrote(json, output + 1, whole, rest)
  {
    AtSplit(whole, output, [text[input]], rest);
    AtByte(whole, output, text[input]);
    json[output] := json[input];
  }

  // One round of the loop of minify_string that does not end it; an escaped quote is two bytes.
  method CopyInside(json: array<byte>, input: nat, output: nat, ghost text: Bytes, ghost behind: Bytes, ghost whole: Bytes)
      returns (n: nat)
    requires Unread(json, text, behind, input) && output <= input < |text| && text[input] != QUOTE
    requires Wrote(json, output, whole, Inside(text, input))
    modifies json
    ensures 1 <= n <= |text| - input
    ensures Unread(json, text, behind, input + n) && Wrote(json, output + n, whole, Inside(text, input + n))
  {
    if json[input] == BACKSLASH && json[input + 1] == QUOTE {
      EscapedInside(text, input);
      CopyByte(json, input, output, text, behind, whole, [QUOTE] + Inside(text, input + 2));
      CopyByte(json, input + 1, output + 1, text, behind, whole, Inside(text, input + 2));
      return 2;
    }
    CopyByte(json, input, output, text, behind, whole, Inside(text, input + 1));
    return 1;
  }

  // The quotes of a string.

  method CopyOpening(json: array<byte>, input: nat, output: nat, ghost text: Bytes, ghost behind: Bytes, ghost whole: Bytes)
    requires Unread(json, text, behind, input) && output <= input < |text| && text[input] == QUOTE
    requires Wrote(json, output, whole, Minify(text, input))
    modifies json
    ensures Unread(json, text, behind, input + 1) && Wrote(json, output + 1, whole, Inside(text, input + 1))
  {
    CopyByte(json, input, output, text, behind, whole, Inside(text, input + 1));
  }

  method CopyClosing(json: array<byte>, input: nat, output: nat, ghost text: Bytes, ghost behind: Bytes, ghost whole: Bytes)
    requires Unread(json, text, behind, input) && output <= input < |text| && text[input] == QUOTE
    requires Wrote(json, output, whole, Inside(text, input))
    modifies json
    ensures Unread(json, text, behind, input + 1) && Wrote(json, output + 1, whole, Minify(text, input + 1))
  {
    CopyByte(json, input, output, text, behind, whole, Minify(text, input + 1));
  }

  // minify_string
  method MinifyString(json: array<byte>, input: nat, output: nat, ghost text: Bytes, ghost behind: Bytes, ghost whole: Bytes)
      returns (i: nat, o: nat)
    requires Unread(json, text, behind, input) && output <= input < |text| && text[input] == QUOTE
    requires Wrote(json, output, whole, Minify(text, input))
    modifies json
    ensures o <= i <= |text| && input < i && Unread(json, text, behind, i)
    ensures Wrote(json, o, whole, Minify(text, i))
  {
    CopyOpening(json, input, output, text, behind, whole);
    i, o := input + 1, output + 1;
    while json[i] != 0
      invariant o <= i <= |text| && input < i && Unread(json, text, behind, i)
      invariant Wrote(json, o, whole, Inside(text, i))
      decreases |text| - i
    {
      var closes := json[i] == QUOTE;
      var n := CopyNext(json, i, o, text, behind, whole);
      i, o := i + n, o + n;
      if closes {
        return;
      }
    }
  }

  // One round of that loop.
  method CopyNext(json: array<byte>, input: nat, output: nat, ghost text: Bytes, ghost behind: Bytes, ghost whole: Bytes)
      returns (n: nat)
    requires Unread(json, text, behind, input) && output <= input < |text|
    requires Wrote(json, output, whole, Inside(text, input))
    modifies json
    ensures 1 <= n <= |text| - input && Unread(json, text, behind, input + n)
    ensures Wrote(json, output + n, whole, if text[input] == QUOTE then Minify(text, input + n) else Inside(text, input + n))
  {
    if json[input] == QUOTE {
      CopyClosing(json, input, output, text, behind, whole);
      return 1;
    }
    n := CopyInside(json, input, output, text, behind, whole);
  }

  lemma EscapedInside(s: Bytes, p: nat)
    requires EscapedQuote(s, p)
    ensures Inside(s, p) == [BACKSLASH] + ([QUOTE] + Inside(s, p + 2))
  {
  }

  // cJSON_Minify: the write cursor never passes the read cursor, so no unread byte is lost.
  method MinifyInPlace(json: array<byte>, ghost text: Bytes, ghost behind: Bytes)
    requires Unread(json, text, behind, 0)
    modifies json
    ensures CString(json[..]) == Minify(text, 0)
    ensures json[|text| + 1..] == behind
  {
    var input: nat, into: nat := 0, 0;
    ghost var whole := Minify(text, 0);
    while json[input] != 0
      invariant into <= input <= |text| && Unread(json, text, behind, input)
      invariant Wrote(json, into, whole, Minify(text, input))
      decreases |text| - input
    {
      var b := json[input];
      if b == SPACE || b == TAB || b == RETURN || b == NEWLINE {
        input := input + 1;
      } else if b == SLASH {
        if json[input + 1] == SLASH {
          input := SkipOnelineComment(json, input, text, behind);
        } else if json[input + 1] == STAR {
          input := SkipMultilineComment(json, input, text, behind);
        } else {
          input := input + 1;
        }
      } else if b == QUOTE {
        input, into := MinifyString(json, input, into, text, behind, whole);
      } else {
        CopyByte(json, input, into, text, behind, whole, Minify(text, input + 1));
        input, into := input + 1, into + 1;
      }
    }
    json[into] := 0;
    assert json[..into] == whole;
    StrEndIs(json[..], 0, into);
  }
}
