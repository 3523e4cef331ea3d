/** What the 32-bit entries of the line index do to the locations and lines that are read
through it. */
module SourceWidth {
  import opened Utf8
  import opened SourceLines

  // ---------------------------------------------------------------- locations

  /** The search finds the last entry that is not past the offset, if those are the first. */
  lemma {:induction false} SearchSplit(starts: seq<nat>, offset: nat, left: nat, right: nat, lineIdx: nat, k: nat)
    requires k < |starts| && forall i :: 0 <= i < |starts| ==> (starts[i] <= offset <==> i <= k)
    requires left <= k + 1 && k <= right < |starts| && left <= right + 1
    requires lineIdx == if left == 0 then 0 else left - 1
    ensures SearchFrom(starts, offset, left, right, lineIdx) == k
    decreases right + 1 - left
  {
    if left <= right {
      var mid := left + (right - left) / 2;
      if starts[mid] <= offset {
        if mid < right {
          SearchSplit(starts, offset, mid + 1, right, mid, k);
        }
      } else if mid > 0 {
        SearchSplit(starts, offset, left, mid - 1, lineIdx, k);
      }
    }
  }

  lemma FoundLineIs(s: Bytes, offset: nat)
    requires Indexable(s) && offset <= |s|
    ensures FoundLine(s, offset) == Breaks(s, offset)
    ensures Narrowed(LineStarts(s))[FoundLine(s, offset)] == LineStart(s, offset)
  {
    NarrowedIff(s);
    StartsSplit(s, offset, |s|);
    StartsFacts(s, offset);
    LineStartHere(s, offset);
    SearchSplit(LineStarts(s), offset, 0, |LineStarts(s)| - 1, 0, Breaks(s, offset));
  }

  lemma {:induction false} StrLenAtMost(x: Bytes)
    ensures StrLen(x) <= |x|
    decreases |x|
  {
    hide Stride;
    if x != [] && x[0] != 0 && Stride(x[0]) < |x| {
      StrLenAtMost(x[Stride(x[0])..]);
    }
  }

  /** No column is past 32 bits; only at the last offset of all it may be. */
  predicate ColumnsFit(s: Bytes) {
    |s| >= UINT32 - 1 ==> LocOf(s, UINT32 - 1).column < UINT32
  }

  lemma FoundLocIs(s: Bytes, offset: nat)
    requires Indexable(s) && ColumnsFit(s) && offset < UINT32
    ensures FoundLoc(s, offset) == LocOf(s, offset)
  {
    hide Narrowed, LineStarts, Indexable;
    if offset <= |s| {
      FoundLineIs(s, offset);
      LineStartHere(s, offset);
      StrLenAtMost(s[LineStart(s, offset)..offset]);
    }
  }

  /** A line that starts at 2^32 or later is found in its stead at an earlier offset: every
      entry is at most 2^32 - 1, so the search for that offset ends at the last line. */
  lemma LateLineIsFound(s: Bytes)
    requires !Indexable(s)
    ensures UINT32 <= |s| && FoundLine(s, UINT32 - 1) == |LineStarts(s)| - 1 > Breaks(s, UINT32 - 1)
  {
    hide LineStarts, SearchFrom;
    var starts := LineStarts(s);
    var i :| 0 <= i < |starts| && starts[i] >= UINT32;
    StartsBefore(s, UINT32 - 1, i);
    NarrowedBelow(s);
    SearchSplit(Narrowed(starts), UINT32 - 1, 0, |starts| - 1, 0, |starts| - 1);
  }

  lemma NarrowedBelow(s: Bytes)
    ensures forall i :: 0 <= i < |LineStarts(s)| ==> Narrowed(LineStarts(s))[i] <= UINT32 - 1
  {
  }

  lemma StartsBefore(s: Bytes, n: nat, i: nat)
    requires i < |LineStarts(s)| && LineStarts(s)[i] > n
    ensures n < |s| && Breaks(s, n) < |LineStarts(s)| - 1
  {
    StartsFacts(s, |s|);
    StartsSplit(s, n, |s|);
    StartsFacts(s, n);
  }

  /** All offsets have the right locations exactly if every line starts below 4 GiB and no
      column reaches 2^32. */
  lemma LocationsRightIff(s: Bytes)
    ensures (forall offset: nat | offset < UINT32 :: FoundLoc(s, offset) == LocOf(s, offset))
            <==> Indexable(s) && ColumnsFit(s)
  {
    hide FoundLoc, LocOf, Indexable, LineStarts;
    if Indexable(s) && ColumnsFit(s) {
      forall offset: nat | offset < UINT32
        ensures FoundLoc(s, offset) == LocOf(s, offset)
      {
        FoundLocIs(s, offset);
      }
    } else {
      LastOffsetMisplaced(s);
    }
  }

  lemma LastOffsetMisplaced(s: Bytes)
    requires !Indexable(s) || !ColumnsFit(s)
    ensures FoundLoc(s, UINT32 - 1) != LocOf(s, UINT32 - 1)
  {
    hide Indexable, LineStarts, Narrowed, FoundLine;
    if !Indexable(s) {
      LateLineIsFound(s);
    }
  }

  lemma {:induction false} NoBreaks(s: Bytes, n: nat)
    requires n <= |s| && forall i :: 0 <= i < n ==> s[i] != NEWLINE
    ensures Breaks(s, n) == 0 && LineStart(s, n) == 0
  {
    if n > 0 {
      NoBreaks(s, n - 1);
    }
  }

  /** One such file: 2^32 - 1 letters, a newline and another letter.  The end of its first
      line is said to be in the second. */
  lemma SecondLineTooLate(s: Bytes)
    requires |s| == UINT32 + 1 && s[UINT32 - 1] == NEWLINE
    requires forall i :: 0 <= i < UINT32 - 1 ==> s[i] != NEWLINE
    ensures FoundLoc(s, UINT32 - 1).line == 2 && LocOf(s, UINT32 - 1).line == 1
  {
    NoBreaks(s, UINT32 - 1);
    assert IsBreak(s, UINT32 - 1);
    assert Breaks(s, UINT32) == 1 && Breaks(s, UINT32 + 1) == 1;
    assert Starts(s, UINT32) == Starts(s, UINT32 - 1) + [UINT32];
    assert Starts(s, UINT32 + 1) == Starts(s, UINT32);
    assert LineStarts(s)[1] == UINT32;
    LateLineIsFound(s);
  }

  lemma {:induction false} AsciiStrLen(x: Bytes)
    requires forall i :: 0 <= i < |x| ==> x[i] != 0 && x[i] & 0x80 == 0
    ensures StrLen(x) == |x|
    decreases |x|
  {
    if |x| > 1 {
      AsciiStrLen(x[1..]);
    }
  }

  /** And one whose lines all start in time: 2^32 - 1 letters and no newline.  The column of
      its end wraps to 0. */
  lemma LongLineWraps(s: Bytes)
    requires |s| == UINT32 - 1
    requires forall i :: 0 <= i < |s| ==> s[i] != NEWLINE && s[i] != 0 && s[i] & 0x80 == 0
    ensures Indexable(s) && FoundLoc(s, UINT32 - 1) == Loc(1, 0, UINT32 - 1)
    ensures LocOf(s, UINT32 - 1).column == UINT32
  {
    hide Narrowed, FoundLine, Stride;
    NoBreaks(s, |s|);
    StartsFacts(s, |s|);
    FoundLineIs(s, |s|);
    AsciiStrLen(s);
    assert s[0..|s|] == s;
  }

  // ---------------------------------------------------------------- lines

  /** What is read as a line starts where the line starts and ends where its text ends. */
  predicate LineReadRight(s: Bytes, k: nat)
    requires k < |LineStarts(s)|
  {
    LineFacts(s, k);
    var a, b := LineStarts(s)[k], LineEnd(s, k);
    Narrowed(LineStarts(s))[k] == a && FoundLen(s, k + 1) == TextEnd(s, a, b) - a
  }

  /** Such a line has no newline in it, and behind it comes its terminator. */
  lemma ReadLineIsText(s: Bytes, k: nat)
    requires k < |LineStarts(s)| && LineReadRight(s, k)
    ensures LineStarts(s)[k] + FoundLen(s, k + 1) <= LineEnd(s, k) <= |s|
    ensures IsLineText(s, LineStarts(s)[k], LineEnd(s, k), FoundLen(s, k + 1))
  {
    hide LineStarts, FoundLen;
    LineFacts(s, k);
    TextEndIsRight(s, k);
  }

  predicate LastTextEmpty(s: Bytes) {
    var k := |LineStarts(s)| - 1;
    LineFacts(s, k);
    TextEnd(s, LineStarts(s)[k], |s|) == LineStarts(s)[k]
  }

  lemma LineIsRight(s: Bytes, k: nat)
    requires Indexable(s) && k < |LineStarts(s)|
    requires k + 1 < |LineStarts(s)| || |s| < UINT32
    ensures LineReadRight(s, k)
  {
    hide LineStarts;
    NarrowedIff(s);
    LineFacts(s, k);
  }

  lemma LastLineIff(s: Bytes)
    requires Indexable(s) && |s| >= UINT32
    ensures LineReadRight(s, |LineStarts(s)| - 1) <==> LastTextEmpty(s)
  {
    hide LineStarts;
    NarrowedIff(s);
    LineFacts(s, |LineStarts(s)| - 1);
    assert |s| % UINT32 <= |s| - UINT32;
  }

  /** Every line is read right exactly if all start below 4 GiB, and the file also ends
      there or its last line has no text. */
  lemma LinesReadRightIff(s: Bytes)
    ensures (forall k: nat | k < |LineStarts(s)| :: LineReadRight(s, k))
            <==> Indexable(s) && (|s| < UINT32 || LastTextEmpty(s))
  {
    hide LineStarts, FoundLen, LastTextEmpty;
    if forall k: nat | k < |LineStarts(s)| :: LineReadRight(s, k) {
      forall k: nat | k < |LineStarts(s)|
        ensures Narrowed(LineStarts(s))[k] == LineStarts(s)[k]
      {
        assert LineReadRight(s, k);
      }
      assert Narrowed(LineStarts(s)) == LineStarts(s);
      NarrowedIff(s);
    }
    if Indexable(s) {
      forall k: nat | k + 1 < |LineStarts(s)|
        ensures LineReadRight(s, k)
      {
        LineIsRight(s, k);
      }
      if |s| < UINT32 {
        LineIsRight(s, |LineStarts(s)| - 1);
      } else {
        LastLineIff(s);
      }
    }
  }
}
