/** What the scanner reads and skips in any bytes, not only ASCII. */
module ScannerAnywhere {
  import opened Options
  import opened Utf8
  import opened Scanner

  /** The code points taken for whitespace. */
  lemma SpacesAre(c: Codepoint)
    ensures IsWhitespace(c) <==>
            c in {0x0009, 0x000A, 0x000D, 0x0020, 0x00A0, 0x1680, 0x2000, 0x2001, 0x2002, 0x2003, 0x2004, 0x2005,
                  0x2006, 0x2007, 0x2008, 0x2009, 0x200A, 0x202F, 0x205F, 0x3000}
  {
  }

  // ---------------------------------------------------------------- skipping

  /** `cuts` leads from `a` to `b` over pieces each of which is a whole character of
      whitespace, or, where those are skipped too, a comment with the end of its line. */
  ghost predicate BlankPieces(buf: Bytes, a: nat, b: nat, cuts: seq<nat>, comments: bool) {
    && |cuts| > 0 && cuts[0] == a && cuts[|cuts| - 1] == b
    && forall i :: 0 <= i < |cuts| - 1 ==> IsBlankPiece(buf, cuts[i], cuts[i + 1], comments)
  }

  ghost predicate IsBlankPiece(buf: Bytes, a: nat, b: nat, comments: bool) {
    && a < b <= |buf|
    && (|| (WhitespaceAt(buf, a) && b == a + CharLen(buf[a..]))
        || (comments && buf[a] == 0x3B && (forall i :: a <= i < b - 1 ==> buf[i] != 0x0A)
            && (b == |buf| || buf[b - 1] == 0x0A)))
  }

  lemma Prepended(buf: Bytes, a: nat, m: nat, b: nat, cuts: seq<nat>, comments: bool)
    requires IsBlankPiece(buf, a, m, comments) && BlankPieces(buf, m, b, cuts, comments)
    ensures BlankPieces(buf, a, b, [a] + cuts, comments)
  {
    hide IsBlankPiece;
    var all := [a] + cuts;
    forall i | 0 <= i < |all| - 1
      ensures IsBlankPiece(buf, all[i], all[i + 1], comments)
    {
      assert i > 0 ==> IsBlankPiece(buf, cuts[i - 1], cuts[i], comments);
    }
  }

  /** Only whole characters of whitespace are skipped before a token or a group, and all. */
  lemma {:induction false} SkipsWhite(buf: Bytes, pos: nat) returns (cuts: seq<nat>)
    requires pos <= |buf|
    ensures BlankPieces(buf, pos, SkipWhite(buf, pos), cuts, false) && !WhitespaceAt(buf, SkipWhite(buf, pos))
    decreases |buf| - pos
  {
    hide WhitespaceAt, CharLen;
    if WhitespaceAt(buf, pos) {
      WhiteIsInside(buf, pos);
      var next := pos + CharLen(buf[pos..]);
      cuts := SkipsWhite(buf, next);
      Prepended(buf, pos, next, SkipWhite(buf, pos), cuts, false);
      cuts := [pos] + cuts;
    } else {
      cuts := [pos];
    }
  }

  lemma WhiteIsInside(buf: Bytes, pos: nat)
    requires WhitespaceAt(buf, pos)
    ensures pos < pos + CharLen(buf[pos..]) <= |buf|
  {
  }

  /** Only these and whole comments are skipped where comments are, and all. */
  lemma {:induction false} SkipsBlanks(buf: Bytes, pos: nat) returns (cuts: seq<nat>)
    requires pos <= |buf|
    ensures var end := SkipBlank(buf, pos);
      && BlankPieces(buf, pos, end, cuts, true)
      && (end < |buf| ==> !WhitespaceAt(buf, end) && buf[end] != 0x3B)
    decreases |buf| - pos
  {
    hide WhitespaceAt, CharLen;
    if pos == |buf| {
      cuts := [pos];
    } else if WhitespaceAt(buf, pos) {
      WhiteIsInside(buf, pos);
      var next := pos + CharLen(buf[pos..]);
      cuts := SkipsBlanks(buf, next);
      Prepended(buf, pos, next, SkipBlank(buf, pos), cuts, true);
      cuts := [pos] + cuts;
    } else if buf[pos] == 0x3B {
      var e := EndOfLine(buf, pos);
      var next := if e < |buf| then e + 1 else e;
      cuts := SkipsBlanks(buf, next);
      Prepended(buf, pos, next, SkipBlank(buf, pos), cuts, true);
      cuts := [pos] + cuts;
    } else {
      cuts := [pos];
    }
  }

  // ---------------------------------------------------------------- tokens

  /** A token ends here: nothing follows, or whitespace or a stop byte does. */
  predicate EndsAt(buf: Bytes, pos: nat, stops: seq<Byte>) {
    pos == |buf| || WhitespaceAt(buf, pos) || (pos < |buf| && buf[pos] in stops)
  }

  ghost predicate DigitsIn(buf: Bytes, a: nat, b: nat, stops: seq<Byte>, digit: Codepoint -> bool) {
    forall i :: a <= i < b ==> DigitAt(buf, i, digit) && !EndsAt(buf, i, stops)
  }

  /** Characters that do not end the token, one after the other. */
  ghost predicate SymbolIn(buf: Bytes, a: nat, b: nat, stops: seq<Byte>)
    decreases b - a
  {
    a == b || (a < b && a < |buf| && !EndsAt(buf, a, stops) && SymbolIn(buf, a + CharLen(buf[a..]), b, stops))
  }

  /** Digits, a period, digits; some may be missing. */
  ghost predicate RealIn(buf: Bytes, a: nat, b: nat, stops: seq<Byte>, digit: Codepoint -> bool) {
    exists k :: a <= k < b <= |buf| && buf[k] == 0x2E && DigitsIn(buf, a, k, stops, digit)
                && DigitsIn(buf, k + 1, b, stops, digit)
  }

  /** What the state machine has read when it stops, from whatever state, and why it stops. */
  lemma {:induction false} ScanReads(buf: Bytes, pos: nat, state: State, stops: seq<Byte>, digit: Codepoint -> bool)
    requires pos <= |buf| && state != Error
    ensures var (last, end) := Scan(buf, pos, state, stops, digit);
      && (if last == Error then !EndsAt(buf, end, stops) && !DigitAt(buf, end, digit) else EndsAt(buf, end, stops))
      && match state
         case Symbol => last == Symbol && SymbolIn(buf, pos, end, stops)
         case Real => last != Symbol && last != Integer && DigitsIn(buf, pos, end, stops, digit)
         case Integer =>
           || (last == Integer && DigitsIn(buf, pos, end, stops, digit))
           || (last == Real && RealIn(buf, pos, end, stops, digit))
           || (last == Error && DigitsIn(buf, pos, end, stops, digit) && buf[end] != 0x2E)
           || (last == Error && RealIn(buf, pos, end, stops, digit))
    decreases |buf| - pos
  {
    hide WhitespaceAt, DigitAt, CharLen;
    if pos < |buf| && !WhitespaceAt(buf, pos) && buf[pos] !in stops {
      match state
      case Integer =>
        if DigitAt(buf, pos, digit) {
          ScanReads(buf, pos + 1, Integer, stops, digit);
          var end := Scan(buf, pos, Integer, stops, digit).1;
          if RealIn(buf, pos + 1, end, stops, digit) {
            RealLonger(buf, pos, end, stops, digit);
          }
        } else if buf[pos] == 0x2E {
          ScanReads(buf, pos + 1, Real, stops, digit);
          assert DigitsIn(buf, pos, pos, stops, digit);
        }
      case Real =>
        if DigitAt(buf, pos, digit) {
          ScanReads(buf, pos + 1, Real, stops, digit);
        }
      case Symbol =>
        assert CharLen(buf[pos..]) >= 1;
        ScanReads(buf, pos + CharLen(buf[pos..]), Symbol, stops, digit);
    }
  }

  lemma RealLonger(buf: Bytes, a: nat, b: nat, stops: seq<Byte>, digit: Codepoint -> bool)
    requires RealIn(buf, a + 1, b, stops, digit) && DigitAt(buf, a, digit) && !EndsAt(buf, a, stops)
    ensures RealIn(buf, a, b, stops, digit)
  {
    hide EndsAt, DigitAt;
    var k :| a + 1 <= k < b <= |buf| && buf[k] == 0x2E && DigitsIn(buf, a + 1, k, stops, digit)
             && DigitsIn(buf, k + 1, b, stops, digit);
    assert DigitsIn(buf, a, k, stops, digit);
  }

  /** In any buffer, with any stop bytes: behind the whitespace a token begins, a sign is set
      aside, and a digit or its absence decides between a number and a symbol; what is read
      is all digits, digits around a period, or whole characters, up to where the token ends.
      Nothing is read exactly where no token begins, and where what began like a number goes
      on like none. */
  lemma ReadsToken(buf: Bytes, position: nat, stops: seq<Byte>, digit: Codepoint -> bool)
    requires position <= |buf|
    ensures var (r, start) := (Read(buf, position, stops, digit), SkipWhite(buf, position));
      if EndsAt(buf, start, stops) then r == Failure(start)
      else
        var pos := if IsSign(buf[start]) then start + 1 else start;
        var end := if r.Success? then r.end else r.errorPosition;
        && start < |buf| && pos <= end <= |buf|
        && (r.Success? ==> r.start == start < end && EndsAt(buf, end, stops))
        && if !DigitAt(buf, pos, digit) then r == Success(Symbol, start, end) && SymbolIn(buf, pos, end, stops)
           else if r.Failure? then
             && !EndsAt(buf, end, stops) && !DigitAt(buf, end, digit)
             && ((DigitsIn(buf, pos, end, stops, digit) && buf[end] != 0x2E) || RealIn(buf, pos, end, stops, digit))
           else
             || (r.kind == Integer && DigitsIn(buf, pos, end, stops, digit))
             || (r.kind == Real && RealIn(buf, pos, end, stops, digit))
  {
    hide WhitespaceAt, CharLen, Scan, DigitsIn, RealIn, SymbolIn;
    var start := SkipWhite(buf, position);
    if !EndsAt(buf, start, stops) {
      var (state, pos) := Begin(buf, start, digit);
      ScanReads(buf, pos, state, stops, digit);
      var end := Scan(buf, pos, state, stops, digit).1;
      if pos == start && state == Symbol {
        SymbolGoesOn(buf, pos, end, stops);
      } else if pos == start {
        NumberGoesOn(buf, pos, end, stops, digit);
      }
    }
  }

  lemma SymbolGoesOn(buf: Bytes, pos: nat, end: nat, stops: seq<Byte>)
    requires pos <= |buf| && !EndsAt(buf, pos, stops) && EndsAt(buf, end, stops)
    ensures end != pos
  {
  }

  lemma NumberGoesOn(buf: Bytes, pos: nat, end: nat, stops: seq<Byte>, digit: Codepoint -> bool)
    requires pos <= |buf| && DigitAt(buf, pos, digit) && !EndsAt(buf, pos, stops)
    requires EndsAt(buf, end, stops) || !DigitAt(buf, end, digit)
    ensures end != pos
  {
  }
}
