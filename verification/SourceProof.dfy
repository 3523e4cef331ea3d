/** Locations order as offsets do, and tell the characters of a text apart. */
module SourceProof {
  import opened Utf8
  import opened Utf8Text
  import opened SourceLines

  // ---------------------------------------------------------------- columns

  /** More bytes are at least as many characters, whatever the bytes. */
  lemma {:induction false} StrLenMonotone(x: Bytes, y: Bytes)
    ensures StrLen(x) <= StrLen(x + y)
    decreases |x|
  {
    hide Stride;
    if x != [] && x[0] != 0 && Stride(x[0]) < |x| {
      var n := Stride(x[0]);
      StrLenMonotone(x[n..], y);
      assert (x + y)[n..] == x[n..] + y;
    }
  }

  predicate NulFree(s: Bytes) {
    forall i :: 0 <= i < |s| ==> s[i] != 0
  }

  lemma CharStride(c: Bytes)
    requires IsChar(c)
    ensures |c| == Stride(c[0]) >= 1
  {
  }

  /** On valid text without NUL the columns count the encoded characters. */
  lemma {:induction false} StrLenAgrees(s: Bytes)
    requires Valid(s) && NulFree(s)
    ensures StrLen(s) == CharCount(s)
    decreases |s|
  {
    hide Decode, CharLen, IsChar, Encode, IsScalar, Stride;
    if s != [] {
      var n := Decode(s).bytes;
      FirstChar(s);
      CharStride(s[..n]);
      assert s[..n][0] == s[0];
      StrLenAgrees(s[n..]);
      if n == |s| {
        assert s[n..] == [];
      }
    }
  }

  // ---------------------------------------------------------------- order

  lemma {:induction false} BreaksMonotone(s: Bytes, n: nat, m: nat)
    requires n <= m <= |s|
    ensures Breaks(s, n) <= Breaks(s, m)
    ensures Breaks(s, n) == Breaks(s, m) ==> LineStart(s, n) == LineStart(s, m)
    decreases m
  {
    if n < m {
      BreaksMonotone(s, n, m - 1);
    }
  }

  predicate LexAtMost(a: Loc, b: Loc)
    requires a.Loc? && b.Loc?
  {
    a.line < b.line || (a.line == b.line && a.column <= b.column)
  }

  /** A later offset never has a smaller line, nor on the same line a smaller column. */
  lemma LocMonotone(s: Bytes, n: nat, m: nat)
    requires n <= m <= |s|
    ensures LexAtMost(LocOf(s, n), LocOf(s, m))
  {
    BreaksMonotone(s, n, m);
    if Breaks(s, n) == Breaks(s, m) {
      LineStartHere(s, n);
      var a := LineStart(s, n);
      StrLenMonotone(s[a..n], s[n..m]);
      assert s[a..n] + s[n..m] == s[a..m];
    }
  }

  // ---------------------------------------------------------------- telling apart

  lemma BoundaryByte(s: Bytes, p: nat)
    requires Boundary(s, p) && p < |s|
    ensures !IsContinuation(s[p])
  {
    hide Decode, CharLen, IsChar, Encode, IsScalar, IsContinuation;
    FirstChar(s[p..]);
    CharShape(s[p..][..Decode(s[p..]).bytes]);
  }

  /** The bytes of one character after its first are continuations. */
  lemma Inside(s: Bytes, p: nat, i: nat)
    requires Boundary(s, p) && p < i < p + CharLen(s[p..]) <= |s|
    ensures IsContinuation(s[i])
  {
    hide Decode, CharLen, IsChar, Encode, IsScalar, IsContinuation;
    FirstChar(s[p..]);
    var c := s[p..][..CharLen(s[p..])];
    CharShape(c);
    assert c[i - p] == s[i];
  }

  /** No boundary lies inside a character. */
  lemma NotInside(s: Bytes, p: nat, q: nat)
    requires Boundary(s, p) && Boundary(s, q) && p < q
    ensures p + CharLen(s[p..]) <= q
  {
    hide Decode, CharLen, IsChar, Encode, IsScalar, IsContinuation, Valid;
    if q < p + CharLen(s[p..]) {
      Inside(s, p, q);
      BoundaryByte(s, q);
    }
  }

  lemma CharThenText(s: Bytes, p: nat, m: nat, q: nat)
    requires p <= m <= q <= |s| && IsChar(s[p..m]) && Valid(s[m..q])
    ensures Valid(s[p..q])
  {
    hide Decode, CharLen, IsChar, Encode, IsScalar, IsContinuation, Valid;
    CharIsValid(s[p..m]);
    ValidAppend(s[p..m], s[m..q]);
    assert s[p..q] == s[p..m] + s[m..q];
  }

  /** What lies between two boundaries is a valid text. */
  lemma {:induction false} Between(s: Bytes, p: nat, q: nat)
    requires Boundary(s, p) && Boundary(s, q) && p <= q
    ensures Valid(s[p..q])
    decreases q - p
  {
    hide Decode, CharLen, IsChar, Encode, IsScalar, IsContinuation;
    if p < q {
      hide Valid, CharCount;
      var n := CharLen(s[p..]);
      FirstChar(s[p..]);
      Middle(s, p, n);
      StepForward(s, p);
      NotInside(s, p, q);
      Between(s, p + n, q);
      CharThenText(s, p, p + n, q);
    }
  }

  lemma AsciiIsNoContinuation(b: Byte)
    requires b < 0x80
    ensures !IsContinuation(b)
  {
  }

  lemma AsciiChar(c: Bytes)
    requires IsChar(c) && c[0] < 0x80
    ensures |c| == 1
  {
  }

  /** In a valid text an ASCII byte is a character of its own. */
  lemma {:induction false} AsciiBoundary(s: Bytes, p: nat, i: nat)
    requires Boundary(s, p) && p <= i < |s| && s[i] < 0x80
    ensures Boundary(s, i) && Boundary(s, i + 1)
    decreases i - p
  {
    hide Decode, CharLen, IsChar, Encode, IsScalar, IsContinuation;
    var n := CharLen(s[p..]);
    FirstChar(s[p..]);
    StepForward(s, p);
    AsciiIsNoContinuation(s[i]);
    if p == i {
      AsciiChar(s[p..][..n]);
    } else if i < p + n {
      Inside(s, p, i);
    } else {
      AsciiBoundary(s, p + n, i);
    }
  }

  lemma LineStartBoundary(s: Bytes, n: nat)
    requires Valid(s) && n <= |s|
    ensures LineStart(s, n) <= n && Boundary(s, LineStart(s, n))
  {
    LineStartHere(s, n);
    StartsFacts(s, n);
    var a := LineStart(s, n);
    assert s[..0] == [] && s[0..] == s;
    if a > 0 {
      assert IsBreak(s, a - 1);
      AsciiBoundary(s, 0, a - 1);
    }
  }

  /** On valid text without NUL no two character boundaries have the same line and column. */
  lemma LocInjective(s: Bytes, n: nat, m: nat)
    requires Valid(s) && NulFree(s) && Boundary(s, n) && Boundary(s, m) && n < m
    ensures LocOf(s, n).line != LocOf(s, m).line || LocOf(s, n).column < LocOf(s, m).column
  {
    hide Decode, CharLen, IsChar, Encode, IsScalar, IsContinuation, Valid, StrLen;
    BreaksMonotone(s, n, m);
    if Breaks(s, n) == Breaks(s, m) {
      var a := LineStart(s, n);
      LineStartBoundary(s, n);
      Between(s, a, n);
      Between(s, n, m);
      var x, y := s[a..n], s[n..m];
      assert s[a..m] == x + y;
      ValidAppend(x, y);
      StrLenAgrees(x);
      StrLenAgrees(x + y);
    }
  }

  // ---------------------------------------------------------------- lines

  /** The text and the terminator of line `k`. */
  ghost predicate IsLine(s: Bytes, k: nat, text: Bytes, terminator: Bytes) {
    && k < |LineStarts(s)|
    && var (a, b) := (LineStarts(s)[k], LineEnd(s, k));
    && a + |text| + |terminator| == b <= |s|
    && s[a..a + |text|] == text && s[a + |text|..b] == terminator
    && IsLineText(s, a, b, |text|)
  }

  /** Lines put together again, each text followed by its terminator. */
  function Rebuilt(texts: seq<Bytes>, terminators: seq<Bytes>): Bytes
    requires |texts| == |terminators|
  {
    if texts == [] then [] else texts[0] + terminators[0] + Rebuilt(texts[1..], terminators[1..])
  }

  lemma LineThenRest(s: Bytes, k: nat, text: Bytes, terminator: Bytes)
    requires IsLine(s, k, text, terminator)
    ensures LineStarts(s)[k] <= LineEnd(s, k) <= |s|
    ensures text + terminator + s[LineEnd(s, k)..] == s[LineStarts(s)[k]..]
  {
  }

  lemma {:induction false} RebuiltFrom(s: Bytes, k: nat, texts: seq<Bytes>, terminators: seq<Bytes>)
    requires k + |texts| == |LineStarts(s)| && |texts| == |terminators| && k < |LineStarts(s)|
    requires forall i :: 0 <= i < |texts| ==> IsLine(s, k + i, texts[i], terminators[i])
    ensures LineStarts(s)[k] <= |s| && Rebuilt(texts, terminators) == s[LineStarts(s)[k]..]
    decreases |texts|
  {
    hide LineStarts, IsLine;
    assert IsLine(s, k + 0, texts[0], terminators[0]);
    LineThenRest(s, k, texts[0], terminators[0]);
    if k + 1 < |LineStarts(s)| {
      forall i | 0 <= i < |texts| - 1
        ensures IsLine(s, k + 1 + i, texts[1..][i], terminators[1..][i])
      {
        assert IsLine(s, k + (i + 1), texts[i + 1], terminators[i + 1]);
      }
      RebuiltFrom(s, k + 1, texts[1..], terminators[1..]);
    } else {
      assert texts[1..] == [] && s[LineEnd(s, k)..] == [];
    }
  }

  /** The texts of all lines, each with its terminator, are the file. */
  lemma LinesRebuildFile(s: Bytes, texts: seq<Bytes>, terminators: seq<Bytes>)
    requires |texts| == |terminators| == |LineStarts(s)|
    requires forall k :: 0 <= k < |texts| ==> IsLine(s, k, texts[k], terminators[k])
    ensures Rebuilt(texts, terminators) == s
  {
    StartsFacts(s, |s|);
    forall i | 0 <= i < |texts|
      ensures IsLine(s, 0 + i, texts[i], terminators[i])
    {
    }
    RebuiltFrom(s, 0, texts, terminators);
    assert s[0..] == s;
  }

  // ---------------------------------------------------------------- naive counts

  /** Where lines end before an offset: at each newline that is not the last byte. */
  ghost function NewlinesBefore(s: Bytes, offset: nat): set<nat> {
    set i: nat | i < offset && i + 1 < |s| && s[i] == 0x0A
  }

  lemma {:induction false} BreaksAreCounted(s: Bytes, offset: nat)
    requires offset <= |s|
    ensures Breaks(s, offset) == |NewlinesBefore(s, offset)|
  {
    if offset == 0 {
      assert NewlinesBefore(s, 0) == {};
    } else {
      BreaksAreCounted(s, offset - 1);
      assert NewlinesBefore(s, offset) ==
             NewlinesBefore(s, offset - 1) + if IsBreak(s, offset - 1) then {offset - 1} else {};
    }
  }

  lemma {:induction false} LineStartIs(s: Bytes, offset: nat)
    requires offset <= |s|
    ensures var a := LineStart(s, offset);
      && a <= offset && (a > 0 ==> a < |s| && s[a - 1] == 0x0A)
      && forall i :: a <= i < offset && i + 1 < |s| ==> s[i] != 0x0A
  {
    if offset > 0 {
      LineStartIs(s, offset - 1);
    }
  }

  /** A location is found by counting: its line is one more than the newlines before it, its
      column one more than the characters since the last of these. */
  lemma LocCounts(s: Bytes, offset: nat)
    requires offset <= |s|
    ensures var loc := LocOf(s, offset);
      && loc.Loc? && loc.offset == offset && loc.line == 1 + |NewlinesBefore(s, offset)|
      && exists a: nat :: a <= offset && (a > 0 ==> s[a - 1] == 0x0A)
           && (forall i :: a <= i < offset && i + 1 < |s| ==> s[i] != 0x0A)
           && loc.column == 1 + StrLen(s[a..offset])
  {
    BreaksAreCounted(s, offset);
    LineStartIs(s, offset);
    LineStartHere(s, offset);
  }

  /** Past the end there is none. */
  lemma NoLocPastEnd(s: Bytes, offset: nat)
    ensures LocOf(s, offset).NoLoc? <==> offset > |s|
  {
  }

  /** What the columns count in any bytes: none from a NUL on, each stray byte once, and as
      many bytes as one as the first of them announces. */
  lemma StrLenSteps(b: Byte, rest: Bytes)
    ensures b == 0 ==> StrLen([b] + rest) == 0
    ensures 0 < b < 0x80 || 0x80 <= b < 0xC0 || b >= 0xF8 ==> StrLen([b] + rest) == 1 + StrLen(rest)
    ensures b >= 0xC0 && |rest| < Announced(b) ==> StrLen([b] + rest) == 1
    ensures b >= 0xC0 && |rest| >= Announced(b) ==>
              StrLen([b] + rest) == 1 + StrLen(rest[Announced(b) - 1..])
  {
    FirstByte(b);
    var s := [b] + rest;
    if Stride(b) <= |rest| {
      assert s[Stride(b)..] == rest[Stride(b) - 1..];
    }
    if rest == [] {
    }
  }
}
