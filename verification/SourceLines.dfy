/** The line index of kernel/sourceloc/src/sourceloc.c. */
module SourceLines {
  import opened Utf8

  const NEWLINE: Byte := 0x0A
  const RETURN: Byte := 0x0D

  // ---------------------------------------------------------------- specification

  /** A newline that begins another line: one at the very end of the file does not. */
  predicate IsBreak(s: Bytes, i: nat)
    requires i < |s|
  {
    s[i] == NEWLINE && i + 1 < |s|
  }

  /** The breaks before `n`. */
  function Breaks(s: Bytes, n: nat): nat
    requires n <= |s|
  {
    if n == 0 then 0 else Breaks(s, n - 1) + if IsBreak(s, n - 1) then 1 else 0
  }

  /** The starts of the lines that start at or before `n`. */
  function Starts(s: Bytes, n: nat): (r: seq<nat>)
    requires n <= |s|
    ensures |r| == 1 + Breaks(s, n) && r[0] == 0
  {
    if n == 0 then [0] else Starts(s, n - 1) + if IsBreak(s, n - 1) then [n] else []
  }

  function LineStarts(s: Bytes): (r: seq<nat>)
    ensures r != [] && r[0] == 0
  {
    Starts(s, |s|)
  }

  /** How far `utf8_strlen` goes on for a first byte. */
  function Stride(c: Byte): (n: nat)
    ensures 1 <= n <= 4
  {
    if c & 0x80 == 0 then 1
    else if c & 0xE0 == 0xC0 then 2
    else if c & 0xF0 == 0xE0 then 3
    else if c & 0xF8 == 0xF0 then 4
    else 1
  }

  function StrLen(s: Bytes): nat
    decreases |s|
  {
    if s == [] || s[0] == 0 then 0
    else if Stride(s[0]) >= |s| then 1
    else 1 + StrLen(s[Stride(s[0])..])
  }

  /** A location; the zeroed one has no file. */
  datatype Loc = NoLoc | Loc(line: nat, column: nat, offset: nat)

  /** `ak_source_loc_from_offset`: one more than the breaks before the offset, and one more
      than the characters from the start of the line. */
  function LocOf(s: Bytes, offset: nat): Loc {
    if offset > |s| then NoLoc
    else
      LineStartHere(s, offset);
      Loc(1 + Breaks(s, offset), 1 + StrLen(s[LineStart(s, offset)..offset]), offset)
  }

  /** The start of the line an offset is in. */
  function LineStart(s: Bytes, offset: nat): nat
    requires offset <= |s|
  {
    if offset == 0 || IsBreak(s, offset - 1) then offset else LineStart(s, offset - 1)
  }

  lemma {:induction false} LineStartHere(s: Bytes, offset: nat)
    requires offset <= |s|
    ensures LineStart(s, offset) <= offset
    ensures Starts(s, offset)[Breaks(s, offset)] == LineStart(s, offset)
  {
    if offset > 0 {
      LineStartHere(s, offset - 1);
    }
  }

  /** The index: strictly increasing, each entry 0 or just past a break. */
  lemma {:induction false} StartsFacts(s: Bytes, n: nat)
    requires n <= |s|
    ensures forall i :: 0 <= i < |Starts(s, n)| ==> Starts(s, n)[i] <= n
    ensures forall i, j :: 0 <= i < j < |Starts(s, n)| ==> Starts(s, n)[i] < Starts(s, n)[j]
    ensures forall i :: 0 < i < |Starts(s, n)| ==> Starts(s, n)[i] > 0 && IsBreak(s, Starts(s, n)[i] - 1)
    ensures Starts(s, n)[0] == 0
    decreases n
  {
    if n > 0 {
      StartsFacts(s, n - 1);
    }
  }

  /** The starts up to an offset are the first of all starts; the others lie past it. */
  lemma {:induction false} StartsSplit(s: Bytes, n: nat, m: nat)
    requires n <= m <= |s|
    ensures Starts(s, n) <= Starts(s, m)
    ensures forall i :: |Starts(s, n)| <= i < |Starts(s, m)| ==> Starts(s, m)[i] > n
    decreases m
  {
    if n < m {
      StartsSplit(s, n, m - 1);
      StartsFacts(s, m - 1);
    }
  }

  const UINT32: nat := 0x1_0000_0000

  /** What is left of the starts in entries of type `uint32_t`. */
  function Narrowed(starts: seq<nat>): (r: seq<nat>)
    ensures |r| == |starts|
  {
    seq(|starts|, i requires 0 <= i < |starts| => starts[i] % UINT32)
  }

  /** Every line starts below 4 GiB. */
  predicate Indexable(s: Bytes) {
    forall i :: 0 <= i < |LineStarts(s)| ==> LineStarts(s)[i] < UINT32
  }

  /** The index holds the starts exactly if they fit its entries. */
  lemma NarrowedIff(s: Bytes)
    ensures Narrowed(LineStarts(s)) == LineStarts(s) <==> Indexable(s)
  {
    hide LineStarts;
    if Narrowed(LineStarts(s)) == LineStarts(s) {
      forall i | 0 <= i < |LineStarts(s)|
        ensures LineStarts(s)[i] < UINT32
      {
        assert Narrowed(LineStarts(s))[i] == LineStarts(s)[i];
      }
    }
  }

  /** The loop of the binary search, on any starts. */
  function SearchFrom(starts: seq<nat>, offset: nat, left: nat, right: nat, lineIdx: nat): (r: nat)
    requires right < |starts| && lineIdx < |starts|
    ensures r < |starts| && (starts[lineIdx] <= offset ==> starts[r] <= offset)
    decreases right + 1 - left
  {
    if left > right then lineIdx
    else
      var mid := left + (right - left) / 2;
      if starts[mid] <= offset then
        if mid == right then mid else SearchFrom(starts, offset, mid + 1, right, mid)
      else if mid == 0 then lineIdx
      else SearchFrom(starts, offset, left, mid - 1, lineIdx)
  }

  /** The line the search finds an offset in. */
  function FoundLine(s: Bytes, offset: nat): (k: nat)
    ensures k < |LineStarts(s)| && Narrowed(LineStarts(s))[k] <= offset
  {
    var starts := Narrowed(LineStarts(s));
    SearchFrom(starts, offset, 0, |starts| - 1, 0)
  }

  /** The location `ak_source_loc_from_offset` gives, in 32 bits. */
  function FoundLoc(s: Bytes, offset: nat): Loc {
    if offset > |s| then NoLoc
    else
      var start := Narrowed(LineStarts(s))[FoundLine(s, offset)];
      Loc(FoundLine(s, offset) + 1, (StrLen(s[start..offset]) + 1) % UINT32, offset)
  }

  /** Where line `k` ends with its terminator: at the next start, or the end of the file. */
  function LineEnd(s: Bytes, k: nat): nat
    requires k < |LineStarts(s)|
  {
    if k + 1 < |LineStarts(s)| then LineStarts(s)[k + 1] else |s|
  }

  /** `n` bytes from `a` are a line's text and the rest up to `b` its terminator, a newline
      with the return before it if there is one; only at the end of the file it may be missing. */
  ghost predicate IsLineText(s: Bytes, a: nat, b: nat, n: nat)
    requires a + n <= b <= |s|
  {
    var terminator := s[a + n..b];
    && NEWLINE !in s[a..a + n]
    && (|| (terminator == [] && b == |s|)
        || (terminator == [NEWLINE] && (n == 0 || s[a + n - 1] != RETURN))
        || terminator == [RETURN, NEWLINE])
  }

  /** Between a line's start and its end there is no break but perhaps the last byte. */
  lemma LineFacts(s: Bytes, k: nat)
    requires k < |LineStarts(s)|
    ensures var a, b := LineStarts(s)[k], LineEnd(s, k);
      && a <= b <= |s|
      && (k + 1 < |LineStarts(s)| ==> a < b < |s| && s[b - 1] == NEWLINE)
      && (a > 0 ==> s[a - 1] == NEWLINE)
      && (forall i :: a <= i < b - 1 ==> s[i] != NEWLINE)
  {
    StartsFacts(s, |s|);
    var a, b := LineStarts(s)[k], LineEnd(s, k);
    forall i | a <= i < b - 1
      ensures s[i] != NEWLINE
    {
      if s[i] == NEWLINE {
        StartsSplit(s, i + 1, |s|);
        LineStartHere(s, i + 1);
      }
    }
  }

  /** The end of a line's text: before its newline, and before the return before that. */
  function TextEnd(s: Bytes, a: nat, b: nat): (e: nat)
    requires a <= b <= |s|
    ensures a <= e <= b
  {
    if b == a || s[b - 1] != NEWLINE then b
    else if b - 1 == a || s[b - 2] != RETURN then b - 1
    else b - 2
  }

  /** Where the trimming of a newline and a return before it ends, not below `floor`. */
  function Trimmed(s: Bytes, floor: nat, end: nat): (e: nat)
    requires end <= |s|
    ensures e <= end
  {
    if end <= floor || s[end - 1] != NEWLINE then end
    else if end - 1 <= floor || s[end - 2] != RETURN then end - 1
    else end - 2
  }

  lemma NarrowedFits(s: Bytes, k: nat)
    requires k < |LineStarts(s)|
    ensures Narrowed(LineStarts(s))[k] <= LineStarts(s)[k] <= |s|
  {
    StartsFacts(s, |s|);
  }

  /** The length `ak_source_get_line_len` gives, in 32 bits. */
  function FoundLen(s: Bytes, line: nat): nat {
    var starts := Narrowed(LineStarts(s));
    if line == 0 || line > |starts| then 0
    else
      var start := starts[line - 1];
      var end :=
        if line < |starts| then NarrowedFits(s, line); Trimmed(s, 0, starts[line])
        else Trimmed(s, start, |s| % UINT32);
      if end > start then end - start else 0
  }

  lemma TextEndIsRight(s: Bytes, k: nat)
    requires k < |LineStarts(s)|
    ensures var a, b := LineStarts(s)[k], LineEnd(s, k);
      a <= b <= |s| && IsLineText(s, a, b, TextEnd(s, a, b) - a)
  {
    hide LineStarts;
    LineFacts(s, k);
    var a, b := LineStarts(s)[k], LineEnd(s, k);
    var e := TextEnd(s, a, b);
    assert s[e..b] == if e == b then [] else if e == b - 1 then [s[b - 1]] else [s[b - 2], s[b - 1]];
    forall i | a <= i < e
      ensures s[i] != NEWLINE
    {
    }
  }

  // ---------------------------------------------------------------- the file

  /** `utf8_strlen` on the bytes of a slice */
  method Utf8Strlen(str: Bytes) returns (count: nat)
    ensures count == StrLen(str)
  {
    hide Stride;
    count := 0;
    var s: nat := 0;
    assert str[0..] == str;
    while s < |str|
      invariant count + (if s < |str| then StrLen(str[s..]) else 0) == StrLen(str)
      decreases |str| - s
    {
      var c := str[s];
      if c == 0 {
        break;
      }
      assert s + Stride(c) < |str| ==> str[s..][Stride(c)..] == str[s + Stride(c)..];
      count := count + 1;
      s := s + Stride(c);
    }
  }

  class SourceFile {
    const contents: Bytes
    var lineStarts: array<nat>
    var lineCount: nat

    ghost predicate Valid()
      reads this, lineStarts
    {
      lineStarts[..] == Narrowed(LineStarts(contents)) && lineCount == lineStarts.Length
    }

    /** A file just read, its lines computed; fewer than 2^32 of them. */
    constructor (contents: Bytes)
      requires |LineStarts(contents)| < UINT32
      ensures Valid() && this.contents == contents && fresh(lineStarts)
    {
      this.contents := contents;
      lineStarts, lineCount := new nat[0], 0;
      new;
      ComputeLineStarts();
    }

    /** `compute_line_starts`: one pass to count, one to fill. */
    method ComputeLineStarts()
      requires |LineStarts(contents)| < UINT32
      modifies this
      ensures Valid() && fresh(lineStarts)
    {
      var count := 1;
      for i := 0 to |contents|
        invariant count == 1 + Breaks(contents, i)
      {
        if contents[i] == NEWLINE && i + 1 < |contents| {
          count := count + 1;
        }
      }
      lineStarts := new nat[count];
      lineCount := count;
      lineStarts[0] := 0;
      Fill();
    }

    /** The entries after the first: one behind every line feed. */
    method Fill()
      requires lineStarts.Length == lineCount == |LineStarts(contents)| && lineStarts[0] == 0
      modifies lineStarts
      ensures lineStarts[..] == Narrowed(LineStarts(contents))
    {
      var lineIdx := 1;
      for i := 0 to |contents|
        invariant lineIdx == 1 + Breaks(contents, i) <= lineStarts.Length
        invariant lineStarts[..lineIdx] == Narrowed(Starts(contents, i))
      {
        if contents[i] == NEWLINE && i + 1 < |contents| {
          StartsSplit(contents, i + 1, |contents|);
          lineStarts[lineIdx] := (i + 1) % UINT32;
          lineIdx := lineIdx + 1;
        }
      }
    }

    /** The binary search on unsigned indices; it ends without underflow on any array. */
    method Search(offset: nat) returns (lineIdx: nat)
      requires lineCount == lineStarts.Length > 0
      ensures lineIdx == SearchFrom(lineStarts[..], offset, 0, lineCount - 1, 0)
    {
      var left: nat, right: nat := 0, lineCount - 1;
      lineIdx := 0;
      while left <= right
        invariant right < lineCount && lineIdx < lineCount
        invariant SearchFrom(lineStarts[..], offset, left, right, lineIdx) ==
                  SearchFrom(lineStarts[..], offset, 0, lineCount - 1, 0)
        decreases right + 1 - left
      {
        var mid := left + (right - left) / 2;
        if lineStarts[mid] <= offset {
          lineIdx := mid;
          if mid == right {
            return;
          }
          left := mid + 1;
        } else {
          if mid == 0 {
            return;
          }
          right := mid - 1;
        }
      }
    }

    /** `ak_source_loc_from_offset` */
    method FromOffset(offset: nat) returns (loc: Loc)
      requires Valid() && offset < UINT32
      ensures loc == FoundLoc(contents, offset)
    {
      if offset > |contents| {
        return NoLoc;
      }
      var lineIdx := Search(offset);
      assert lineStarts[lineIdx] == Narrowed(LineStarts(contents))[FoundLine(contents, offset)];
      var lineStart := lineStarts[lineIdx];
      var column := Utf8Strlen(contents[lineStart..offset]);
      return Loc(lineIdx + 1, (column + 1) % UINT32, offset);
    }

    /** `ak_source_get_line`, as an offset into the contents */
    method GetLine(line: nat) returns (start: int)
      requires Valid()
      ensures start == if line == 0 || line > |LineStarts(contents)| then -1
                       else Narrowed(LineStarts(contents))[line - 1]
    {
      if line == 0 || line > lineCount {
        return -1;
      }
      assert lineStarts[line - 1] == lineStarts[..][line - 1];
      return lineStarts[line - 1];
    }

    /** `ak_source_get_line_len` */
    method GetLineLen(line: nat) returns (n: nat)
      requires Valid()
      ensures n == FoundLen(contents, line)
    {
      hide LineStarts;
      if line == 0 || line > lineCount {
        return 0;
      }
      assert forall i :: 0 <= i < lineCount ==> lineStarts[i] == Narrowed(LineStarts(contents))[i];
      var lineIdx := line - 1;
      var lineStart := lineStarts[lineIdx];
      var lineEnd: nat;
      if lineIdx + 1 < lineCount {
        NarrowedFits(contents, line);
        lineEnd := lineStarts[lineIdx + 1];
        if lineEnd > 0 && contents[lineEnd - 1] == NEWLINE {
          lineEnd := lineEnd - 1;
          if lineEnd > 0 && contents[lineEnd - 1] == RETURN {
            lineEnd := lineEnd - 1;
          }
        }
      } else {
        lineEnd := |contents| % UINT32;
        if lineEnd > lineStart && contents[lineEnd - 1] == NEWLINE {
          lineEnd := lineEnd - 1;
          if lineEnd > lineStart && contents[lineEnd - 1] == RETURN {
            lineEnd := lineEnd - 1;
          }
        }
      }
      n := if lineEnd > lineStart then lineEnd - lineStart else 0;
    }
  }
}
