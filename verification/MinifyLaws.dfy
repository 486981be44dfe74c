// What minifying does to each kind of piece of a text, told by the bytes of the pieces.
module MinifyLaws {
  import opened Bits
  import opened ByteStrings
  import opened JsonData
  import opened JsonMinify

  // ---- where the comments end ----

  ghost predicate NoneOf(s: Bytes, p: nat, e: nat, b: byte) {
    forall k :: p <= k < e && k < |s| ==> s[k] != b
  }

  // Behind the first line feed (byte 10), or at the end.
  lemma {:induction false} LineEndIs(s: Bytes, p: nat)
    requires p <= |s|
    ensures var e := LineEnd(s, p);
      if NoneOf(s, p, |s|, 10) then e == |s| else p < e && s[e - 1] == 10 && NoneOf(s, p, e - 1, 10)
    decreases |s| - p
  {
    if p < |s| && s[p] != 10 {
      LineEndIs(s, p + 1);
    }
  }

  // A star and a slash (bytes 42 and 47).
  predicate EndsAt(s: Bytes, k: nat) {
    k + 1 < |s| && s[k] == 42 && s[k + 1] == 47
  }

  ghost predicate NoEnd(s: Bytes, p: nat, e: nat) {
    forall k :: p <= k < e ==> !EndsAt(s, k)
  }

  // Behind the first of these, or at the end.
  lemma {:induction false} CommentEndIs(s: Bytes, p: nat)
    requires p <= |s|
    ensures var e := CommentEnd(s, p);
      if NoEnd(s, p, |s|) then e == |s| else p + 2 <= e && EndsAt(s, e - 2) && NoEnd(s, p, e - 2)
    decreases |s| - p
  {
    if p < |s| && !EndsAt(s, p) {
      CommentEndIs(s, p + 1);
    }
  }

  // ---- texts that end outside strings and comments ----

  // Read from p on, where no string and no comment is open.
  predicate Outside(a: Bytes, p: nat)
    decreases |a| - p
  {
    if p >= |a| then p == |a|
    else if a[p] == 34 then InString(a, p + 1)
    else if a[p] == 47 then
      p + 1 < |a| && (if a[p + 1] == 47 then InLine(a, p + 2) else if a[p + 1] == 42 then InComment(a, p + 2) else Outside(a, p + 1))
    else Outside(a, p + 1)
  }

  // Inside a string only a backslash in front of a quote (bytes 92 and 34) counts as an escape.
  predicate InString(a: Bytes, p: nat)
    decreases |a| - p
  {
    p < |a| &&
    if a[p] == 34 then Outside(a, p + 1)
    else if a[p] == 92 && p + 1 < |a| && a[p + 1] == 34 then InString(a, p + 2)
    else InString(a, p + 1)
  }

  predicate InLine(a: Bytes, p: nat)
    decreases |a| - p
  {
    p < |a| && if a[p] == 10 then Outside(a, p + 1) else InLine(a, p + 1)
  }

  predicate InComment(a: Bytes, p: nat)
    decreases |a| - p
  {
    p < |a| && if EndsAt(a, p) then Outside(a, p + 2) else InComment(a, p + 1)
  }

  lemma {:induction false} LineJoins(a: Bytes, b: Bytes, p: nat)
    requires InLine(a, p)
    ensures p < LineEnd(a, p) && LineEnd(a + b, p) == LineEnd(a, p) && Outside(a, LineEnd(a, p))
    decreases |a| - p
  {
    if a[p] != 10 {
      LineJoins(a, b, p + 1);
    }
  }

  lemma {:induction false} CommentJoins(a: Bytes, b: Bytes, p: nat)
    requires InComment(a, p)
    ensures p < CommentEnd(a, p) && CommentEnd(a + b, p) == CommentEnd(a, p) && Outside(a, CommentEnd(a, p))
    decreases |a| - p
  {
    if !EndsAt(a, p) {
      CommentJoins(a, b, p + 1);
      NoEndYet(a, b, p);
    }
  }

  lemma {:induction false} NoEndYet(a: Bytes, b: Bytes, p: nat)
    requires !EndsAt(a, p) && InComment(a, p + 1)
    ensures !EndsAt(a + b, p)
  {
  }

  // Where such a text ends the minifier goes on as if the rest were all there is.
  lemma {:induction false} OutsideJoins(a: Bytes, b: Bytes, p: nat)
    requires Outside(a, p)
    ensures Minify(a + b, p) == Minify(a, p) + Minify(a + b, |a|)
    decreases |a| - p
  {
    var s := a + b;
    if p < |a| {
      if a[p] == 34 {
        StringJoins(a, b, p + 1);
        Regroup([34], Inside(a, p + 1), Minify(s, |a|));
      } else if a[p] == 47 || IsBlank(a[p]) {
        SkipJoins(a, b, p);
        OutsideJoins(a, b, SkipEnd(a, p));
      } else {
        OutsideJoins(a, b, p + 1);
        Regroup([a[p]], Minify(a, p + 1), Minify(s, |a|));
      }
    }
  }

  lemma SkipJoins(a: Bytes, b: Bytes, p: nat)
    requires p < |a| && Outside(a, p) && (a[p] == 47 || IsBlank(a[p]))
    ensures SkipEnd(a + b, p) == SkipEnd(a, p) && Outside(a, SkipEnd(a, p))
  {
    if a[p] == 47 && a[p + 1] == 47 {
      LineJoins(a, b, p + 2);
    } else if a[p] == 47 && a[p + 1] == 42 {
      CommentJoins(a, b, p + 2);
    }
  }

  lemma {:induction false} StringJoins(a: Bytes, b: Bytes, p: nat)
    requires InString(a, p)
    ensures Inside(a + b, p) == Inside(a, p) + Minify(a + b, |a|)
    decreases |a| - p
  {
    var s := a + b;
    if a[p] == 34 {
      OutsideJoins(a, b, p + 1);
      Regroup([34], Minify(a, p + 1), Minify(s, |a|));
    } else if EscapedQuote(a, p) {
      StringJoins(a, b, p + 2);
      Regroup([92, 34], Inside(a, p + 2), Minify(s, |a|));
    } else {
      StringJoins(a, b, p + 1);
      Regroup([a[p]], Inside(a, p + 1), Minify(s, |a|));
    }
  }

  // ---- what is behind it is minified as a text of its own ----

  // The text b stands from i to the end of s.
  ghost predicate EndsWith(s: Bytes, i: nat, b: Bytes) {
    At(s, i, b) && |s| == i + |b|
  }

  lemma {:induction false} LineShifts(s: Bytes, i: nat, b: Bytes, j: nat)
    requires EndsWith(s, i, b) && j <= |b|
    ensures LineEnd(s, i + j) == i + LineEnd(b, j)
    decreases |b| - j
  {
    if j < |b| {
      AtIndex(s, i, b, j);
      LineShifts(s, i, b, j + 1);
    }
  }

  lemma {:induction false} CommentShifts(s: Bytes, i: nat, b: Bytes, j: nat)
    requires EndsWith(s, i, b) && j <= |b|
    ensures CommentEnd(s, i + j) == i + CommentEnd(b, j)
    decreases |b| - j
  {
    if j < |b| {
      PairShifts(s, i, b, j);
      CommentShifts(s, i, b, j + 1);
    }
  }

  // Two bytes that are looked at together.
  lemma PairShifts(s: Bytes, i: nat, b: Bytes, j: nat)
    requires EndsWith(s, i, b) && j < |b|
    ensures i + j < |s| && s[i + j] == b[j] && (j + 1 < |b| ==> s[i + j + 1] == b[j + 1])
    ensures StarSlash(s, i + j) == StarSlash(b, j) && EscapedQuote(s, i + j) == EscapedQuote(b, j)
  {
    AtIndex(s, i, b, j);
    if j + 1 < |b| {
      AtIndex(s, i, b, j + 1);
    }
  }

  lemma SkipShifts(s: Bytes, i: nat, b: Bytes, j: nat)
    requires EndsWith(s, i, b) && j < |b| && (IsBlank(b[j]) || b[j] == SLASH)
    ensures i + j < |s| && s[i + j] == b[j] && SkipEnd(s, i + j) == i + SkipEnd(b, j)
  {
    PairShifts(s, i, b, j);
    if j + 1 < |b| {
      LineShifts(s, i, b, j + 2);
      CommentShifts(s, i, b, j + 2);
    }
  }

  lemma {:induction false} MinifyShifts(s: Bytes, i: nat, b: Bytes, j: nat)
    requires EndsWith(s, i, b) && j <= |b|
    ensures Minify(s, i + j) == Minify(b, j)
    decreases |b| - j
  {
    if j < |b| {
      var n := j + 1;
      PairShifts(s, i, b, j);
      if IsBlank(b[j]) || b[j] == SLASH {
        SkipShifts(s, i, b, j);
        MinifyShifts(s, i, b, SkipEnd(b, j));
      } else if b[j] == QUOTE {
        InsideShifts(s, i, b, n);
      } else {
        MinifyShifts(s, i, b, n);
      }
    }
  }

  lemma {:induction false} InsideShifts(s: Bytes, i: nat, b: Bytes, j: nat)
    requires EndsWith(s, i, b) && j <= |b|
    ensures Inside(s, i + j) == Inside(b, j)
    decreases |b| - j
  {
    if j < |b| {
      var n := j + 1;
      PairShifts(s, i, b, j);
      if b[j] == QUOTE {
        MinifyShifts(s, i, b, n);
      } else if EscapedQuote(b, j) {
        InsideShifts(s, i, b, j + 2);
      } else {
        InsideShifts(s, i, b, n);
      }
    }
  }

  // Behind a text that ends outside strings and comments another one is minified as if it stood alone.
  lemma MinifyJoins(a: Bytes, b: Bytes)
    requires Outside(a, 0)
    ensures Minify(a + b, 0) == Minify(a, 0) + Minify(b, 0)
  {
    OutsideJoins(a, b, 0);
    MinifyShifts(a + b, |a|, b, 0);
  }

  // ---- the pieces of a text ----

  // White: a space, a tab, a line feed or a carriage return. Line, Block: a comment with what is between its marks.
  // Lone: a slash that opens no comment. Quoted: a string with what is between its quotes. Kept: any other byte.
  datatype Piece = White(b: byte) | Line(comment: Bytes) | Block(comment: Bytes) | Lone | Quoted(body: Bytes) | Kept(b: byte)

  predicate IsWhite(b: byte) {
    b == 32 || b == 9 || b == 10 || b == 13
  }

  // A quote ends a string unless there is a backslash in front of it, which it does not take from another quote.
  predicate StringBody(w: Bytes, j: nat)
    decreases |w| - j
  {
    if j >= |w| then true
    else if w[j] == 34 then false
    else if w[j] == 92 then j + 1 < |w| && (if w[j + 1] == 34 then StringBody(w, j + 2) else StringBody(w, j + 1))
    else StringBody(w, j + 1)
  }

  ghost predicate ValidPiece(x: Piece) {
    match x
    case White(b) => IsWhite(b)
    case Line(c) => NoneOf(c, 0, |c|, 10)
    case Block(c) => NoEnd(c, 0, |c|)
    case Lone => true
    case Quoted(w) => StringBody(w, 0)
    case Kept(b) => !IsWhite(b) && b != 34 && b != 47
  }

  function PieceText(x: Piece): (s: Bytes)
    ensures s != []
  {
    match x
    case White(b) => [b]
    case Line(c) => [47, 47] + c + [10]
    case Block(c) => [47, 42] + c + [42, 47]
    case Lone => [47]
    case Quoted(w) => [34] + w + [34]
    case Kept(b) => [b]
  }

  // What is left of it.
  function PieceLeft(x: Piece): Bytes {
    match x
    case Quoted(w) => [34] + w + [34]
    case Kept(b) => [b]
    case _ => []
  }

  // What the text ends in: nothing, a comment or a string that is not closed.
  datatype Tail = NoTail | OpenLine(comment: Bytes) | OpenBlock(comment: Bytes) | OpenString(body: Bytes)

  // A body that no quote ends.
  predicate OpenBody(w: Bytes, j: nat)
    decreases |w| - j
  {
    if j >= |w| then true
    else if w[j] == 34 then false
    else if w[j] == 92 && j + 1 < |w| && w[j + 1] == 34 then OpenBody(w, j + 2)
    else OpenBody(w, j + 1)
  }

  ghost predicate ValidTail(x: Tail) {
    match x
    case NoTail => true
    case OpenLine(c) => NoneOf(c, 0, |c|, 10)
    case OpenBlock(c) => NoEnd(c, 0, |c|)
    case OpenString(w) => OpenBody(w, 0)
  }

  function TailText(x: Tail): Bytes {
    match x
    case NoTail => []
    case OpenLine(c) => [47, 47] + c
    case OpenBlock(c) => [47, 42] + c
    case OpenString(w) => [34] + w
  }

  function TailLeft(x: Tail): Bytes {
    match x
    case OpenString(w) => [34] + w
    case _ => []
  }

  datatype Pieces = Ending(tail: Tail) | More(first: Piece, rest: Pieces)

  function TextOf(xs: Pieces): Bytes {
    match xs
    case Ending(x) => TailText(x)
    case More(x, rest) => PieceText(x) + TextOf(rest)
  }

  function LeftOf(xs: Pieces): Bytes {
    match xs
    case Ending(x) => TailLeft(x)
    case More(x, rest) => PieceLeft(x) + LeftOf(rest)
  }

  // Behind a lone slash there is neither another slash nor a star.
  ghost predicate ValidPieces(xs: Pieces) {
    match xs
    case Ending(x) => ValidTail(x)
    case More(x, rest) =>
      ValidPiece(x) && ValidPieces(rest) && (x.Lone? && TextOf(rest) != [] ==> TextOf(rest)[0] != 47 && TextOf(rest)[0] != 42)
  }

  lemma {:induction false} LineAlone(s: Bytes, c: Bytes, j: nat)
    requires s == [47, 47] + c + [10] && j <= |c| && NoneOf(c, 0, |c|, 10)
    ensures InLine(s, 2 + j) && LineEnd(s, 2 + j) == |s|
    decreases |c| - j
  {
    if j < |c| {
      assert s[2 + j] == c[j];
      LineAlone(s, c, j + 1);
    }
  }

  lemma {:induction false} BlockAlone(s: Bytes, c: Bytes, j: nat)
    requires s == [47, 42] + c + [42, 47] && j <= |c| && NoEnd(c, 0, |c|)
    ensures InComment(s, 2 + j) && CommentEnd(s, 2 + j) == |s|
    decreases |c| - j
  {
    if j < |c| {
      assert s[2 + j] == c[j] && s[3 + j] == if j + 1 < |c| then c[j + 1] else 42;
      assert !EndsAt(c, j);
      BlockAlone(s, c, j + 1);
    }
  }

  lemma {:induction false} StringAlone(s: Bytes, w: Bytes, j: nat)
    requires s == [34] + w + [34] && j <= |w| && StringBody(w, j)
    ensures InString(s, 1 + j) && Inside(s, 1 + j) == w[j..] + [34]
    decreases |w| - j
  {
    if j == |w| {
      assert [34] + Minify(s, |s|) == w[j..] + [34];
    } else if w[j] == 92 && w[j + 1] == 34 {
      assert s[1 + j] == w[j] && s[2 + j] == w[j + 1];
      StringAlone(s, w, j + 2);
      assert w[j..] + [34] == [92, 34] + (w[j + 2..] + [34]);
    } else {
      assert s[1 + j] == w[j] && s[2 + j] == if j + 1 < |w| then w[j + 1] else 34;
      StringAlone(s, w, j + 1);
      assert w[j..] + [34] == [w[j]] + (w[j + 1..] + [34]);
    }
  }

  lemma LinePiece(s: Bytes, c: Bytes)
    requires s == [47, 47] + c + [10] && NoneOf(c, 0, |c|, 10)
    ensures Outside(s, 0) && Minify(s, 0) == []
  {
    LineAlone(s, c, 0);
    assert s[0] == 47 && s[1] == 47;
  }

  lemma BlockPiece(s: Bytes, c: Bytes)
    requires s == [47, 42] + c + [42, 47] && NoEnd(c, 0, |c|)
    ensures Outside(s, 0) && Minify(s, 0) == []
  {
    BlockAlone(s, c, 0);
    assert s[0] == 47 && s[1] == 42;
  }

  lemma StringPiece(s: Bytes, w: Bytes)
    requires s == [34] + w + [34] && StringBody(w, 0)
    ensures Outside(s, 0) && Minify(s, 0) == s
  {
    StringAlone(s, w, 0);
    assert w[0..] == w;
    Regroup([34], w, [34]);
  }

  lemma BytePiece(s: Bytes, b: byte)
    requires s == [b] && b != 34 && b != 47
    ensures Outside(s, 0) && Minify(s, 0) == if IsWhite(b) then [] else [b]
  {
    assert Minify(s, 1) == [] && Outside(s, 1);
  }

  // A piece of its own: it ends outside, and what is left of it is what minifying makes of it.
  lemma PieceAlone(x: Piece)
    requires ValidPiece(x) && !x.Lone?
    ensures Outside(PieceText(x), 0) && Minify(PieceText(x), 0) == PieceLeft(x)
  {
    match x
    case Line(c) => LinePiece(PieceText(x), c);
    case Block(c) => BlockPiece(PieceText(x), c);
    case Quoted(w) => StringPiece(PieceText(x), w);
    case White(b) => BytePiece(PieceText(x), b);
    case Kept(b) => BytePiece(PieceText(x), b);
  }

  lemma LoneAlone(b: Bytes)
    requires b == [] || (b[0] != 47 && b[0] != 42)
    ensures Minify([47] + b, 0) == Minify(b, 0)
  {
    MinifyShifts([47] + b, 1, b, 0);
  }

  lemma {:induction false} OpenStringAlone(s: Bytes, w: Bytes, j: nat)
    requires s == [34] + w && j <= |w| && OpenBody(w, j)
    ensures Inside(s, 1 + j) == w[j..]
    decreases |w| - j
  {
    if j == |w| {
    } else if w[j] == 92 && j + 1 < |w| && w[j + 1] == 34 {
      assert s[1 + j] == w[j] && s[2 + j] == w[j + 1];
      OpenStringAlone(s, w, j + 2);
      assert w[j..] == [92, 34] + w[j + 2..];
    } else {
      assert s[1 + j] == w[j] && (j + 1 < |w| ==> s[2 + j] == w[j + 1]);
      OpenStringAlone(s, w, j + 1);
      assert w[j..] == [w[j]] + w[j + 1..];
    }
  }

  lemma OpenLineAlone(s: Bytes, c: Bytes)
    requires s == [47, 47] + c && NoneOf(c, 0, |c|, 10)
    ensures Minify(s, 0) == []
  {
    LineEndIs(s, 2);
    assert forall k :: 2 <= k < |s| ==> s[k] == c[k - 2];
    assert s[0] == 47 && s[1] == 47 && Minify(s, |s|) == [];
  }

  lemma OpenBlockAlone(s: Bytes, c: Bytes)
    requires s == [47, 42] + c && NoEnd(c, 0, |c|)
    ensures Minify(s, 0) == []
  {
    CommentEndIs(s, 2);
    assert forall k :: 2 <= k < |s| && EndsAt(s, k) ==> EndsAt(c, k - 2);
    assert s[0] == 47 && s[1] == 42 && Minify(s, |s|) == [];
  }

  lemma TailAlone(x: Tail)
    requires ValidTail(x)
    ensures Minify(TailText(x), 0) == TailLeft(x)
  {
    match x
    case NoTail =>
    case OpenLine(c) => OpenLineAlone(TailText(x), c);
    case OpenBlock(c) => OpenBlockAlone(TailText(x), c);
    case OpenString(w) =>
      OpenStringAlone(TailText(x), w, 0);
      assert w[0..] == w;
  }

  // Every text made of pieces is minified to what is left of them: white space, comments and lone slashes outside
  // strings vanish, and everything else stays as it is.
  lemma {:induction false} PiecesLeft(xs: Pieces)
    requires ValidPieces(xs)
    ensures Minify(TextOf(xs), 0) == LeftOf(xs)
    decreases xs
  {
    match xs
    case Ending(x) => TailAlone(x);
    case More(x, rest) =>
      PiecesLeft(rest);
      if x.Lone? {
        LoneAlone(TextOf(rest));
      } else {
        PieceAlone(x);
        MinifyJoins(PieceText(x), TextOf(rest));
      }
  }

  // ---- every text is made of pieces ----

  // What a string that opens in front of w has up to the quote that closes it, and whether there is one.
  lemma {:induction false} CutString(w: Bytes, j: nat) returns (e: nat, closed: bool)
    requires j <= |w|
    ensures j <= e <= |w| && (closed ==> e < |w| && w[e] == 34 && StringBody(w[..e], j)) && (!closed ==> OpenBody(w, j))
    decreases |w| - j
  {
    if j == |w| {
      e, closed := j, false;
    } else if w[j] == 34 {
      e, closed := j, true;
    } else if w[j] == 92 && j + 1 < |w| && w[j + 1] == 34 {
      e, closed := CutString(w, j + 2);
    } else {
      e, closed := CutString(w, j + 1);
    }
  }

  // The first piece of a text, or all of it.
  lemma FirstPiece(s: Bytes) returns (x: Piece, rest: Bytes, tail: Tail)
    requires s != []
    ensures if tail == NoTail then ValidPiece(x) && s == PieceText(x) + rest else ValidTail(tail) && s == TailText(tail)
    ensures tail == NoTail && x == Lone && rest != [] ==> rest[0] != 47 && rest[0] != 42
  {
    x, rest, tail := Kept(s[0]), s[1..], NoTail;
    assert s == [s[0]] + rest;
    if IsWhite(s[0]) {
      x := White(s[0]);
    } else if s[0] == 34 {
      x, rest, tail := FirstString(s);
    } else if s[0] == 47 {
      if |s| > 1 && s[1] == 47 {
        x, rest, tail := FirstLine(s);
      } else if |s| > 1 && s[1] == 42 {
        x, rest, tail := FirstBlock(s);
      } else {
        x := Lone;
      }
    }
  }

  lemma FirstString(s: Bytes) returns (x: Piece, rest: Bytes, tail: Tail)
    requires s != [] && s[0] == 34
    ensures if tail == NoTail then x.Quoted? && ValidPiece(x) && s == PieceText(x) + rest else ValidTail(tail) && s == TailText(tail)
  {
    var w := s[1..];
    var e, closed := CutString(w, 0);
    assert s == [34] + w;
    if closed {
      x, rest, tail := Quoted(w[..e]), w[e + 1..], NoTail;
      assert w == w[..e] + [34] + rest;
    } else {
      x, rest, tail := Lone, [], OpenString(w);
    }
  }

  lemma FirstLine(s: Bytes) returns (x: Piece, rest: Bytes, tail: Tail)
    requires |s| > 1 && s[0] == 47 && s[1] == 47
    ensures if tail == NoTail then x.Line? && ValidPiece(x) && s == PieceText(x) + rest else ValidTail(tail) && s == TailText(tail)
  {
    LineEndIs(s, 2);
    var e := LineEnd(s, 2);
    if NoneOf(s, 2, |s|, 10) {
      x, rest, tail := Lone, [], OpenLine(s[2..]);
      assert s == [47, 47] + s[2..];
    } else {
      x, rest, tail := Line(s[2..e - 1]), s[e..], NoTail;
      assert s == [47, 47] + s[2..e - 1] + [10] + rest;
    }
  }

  lemma FirstBlock(s: Bytes) returns (x: Piece, rest: Bytes, tail: Tail)
    requires |s| > 1 && s[0] == 47 && s[1] == 42
    ensures if tail == NoTail then x.Block? && ValidPiece(x) && s == PieceText(x) + rest else ValidTail(tail) && s == TailText(tail)
  {
    CommentEndIs(s, 2);
    var e := CommentEnd(s, 2);
    if NoEnd(s, 2, |s|) {
      var c := s[2..];
      x, rest, tail := Lone, [], OpenBlock(c);
      assert forall k :: 0 <= k < |c| && EndsAt(c, k) ==> EndsAt(s, k + 2);
      assert s == [47, 42] + c;
    } else {
      var c := s[2..e - 2];
      x, rest, tail := Block(c), s[e..], NoTail;
      assert forall k :: 0 <= k < |c| && EndsAt(c, k) ==> EndsAt(s, k + 2);
      assert s == [47, 42] + c + [42, 47] + rest;
    }
  }

  lemma {:induction false} MadeOfPieces(s: Bytes) returns (xs: Pieces)
    ensures ValidPieces(xs) && TextOf(xs) == s
    decreases |s|
  {
    if s == [] {
      xs := Ending(NoTail);
    } else {
      var x, rest, tail := FirstPiece(s);
      if tail != NoTail {
        xs := Ending(tail);
      } else {
        var more := MadeOfPieces(rest);
        xs := More(x, more);
      }
    }
  }

  // So this is what minifying does to every text.
  lemma MinifyLeaves(s: Bytes) returns (xs: Pieces)
    ensures ValidPieces(xs) && TextOf(xs) == s && Minify(s, 0) == LeftOf(xs)
  {
    xs := MadeOfPieces(s);
    PiecesLeft(xs);
  }

  lemma Between(a: Bytes, open: Bytes, c: Bytes, close: Bytes, b: Bytes)
    ensures a + open + c + close + b == a + ((open + c + close) + b)
  {
  }

  // A line comment between two texts, of which the first ends outside strings and comments, vanishes with its line feed.
  lemma LineCommentVanishes(a: Bytes, c: Bytes, b: Bytes)
    requires Outside(a, 0) && NoneOf(c, 0, |c|, 10)
    ensures Minify(a + [47, 47] + c + [10] + b, 0) == Minify(a, 0) + Minify(b, 0)
  {
    var comment := [47, 47] + c + [10];
    PieceAlone(Line(c));
    MinifyJoins(comment, b);
    MinifyJoins(a, comment + b);
    Between(a, [47, 47], c, [10], b);
  }

  // So does a comment between slashes and stars.
  lemma BlockCommentVanishes(a: Bytes, c: Bytes, b: Bytes)
    requires Outside(a, 0) && NoEnd(c, 0, |c|)
    ensures Minify(a + [47, 42] + c + [42, 47] + b, 0) == Minify(a, 0) + Minify(b, 0)
  {
    var comment := [47, 42] + c + [42, 47];
    PieceAlone(Block(c));
    MinifyJoins(comment, b);
    MinifyJoins(a, comment + b);
    Between(a, [47, 42], c, [42, 47], b);
  }
}
