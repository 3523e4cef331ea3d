/** Which tokens are read, and how groups nest. */
module ScannerProof {
  import opened Options
  import opened Utf8
  import opened Scanner

  // ---------------------------------------------------------------- ASCII

  predicate IsAscii(buf: Bytes) {
    forall i :: 0 <= i < |buf| ==> buf[i] < 0x80
  }

  /** Of the Unicode digits below 128 there are the ten. */
  ghost predicate AsciiDigits(digit: Codepoint -> bool) {
    forall c: Codepoint :: c < 0x80 ==> (digit(c) <==> 0x30 <= c <= 0x39)
  }

  lemma AsciiDecode(s: Bytes)
    requires s != [] && s[0] < 0x80
    ensures Decode(s) == Decoded(s[0] as bv32, 1, true) && CharLen(s) == 1
    ensures s[0] as bv32 < 0x80
  {
  }

  lemma AsciiAt(buf: Bytes, pos: nat, digit: Codepoint -> bool)
    requires IsAscii(buf) && AsciiDigits(digit)
    ensures WhitespaceAt(buf, pos) <==> pos < |buf| && IsAsciiSpace(buf[pos])
    ensures DigitAt(buf, pos, digit) <==> pos < |buf| && IsAsciiDigit(buf[pos])
    ensures pos < |buf| ==> CharLen(buf[pos..]) == 1
  {
    if pos < |buf| {
      AsciiDecode(buf[pos..]);
    }
  }

  // ---------------------------------------------------------------- the run

  /** Where the run of bytes from `pos` ends: at whitespace, a stop byte or the end. */
  function RunEnd(buf: Bytes, pos: nat, stops: seq<Byte>): (e: nat)
    requires pos <= |buf|
    ensures pos <= e <= |buf|
    ensures forall i :: pos <= i < e ==> !IsAsciiSpace(buf[i]) && buf[i] !in stops
    ensures e < |buf| ==> IsAsciiSpace(buf[e]) || buf[e] in stops
    decreases |buf| - pos
  {
    if pos == |buf| || IsAsciiSpace(buf[pos]) || buf[pos] in stops then pos else RunEnd(buf, pos + 1, stops)
  }

  predicate AllDigits(s: Bytes) {
    forall i :: 0 <= i < |s| ==> IsAsciiDigit(s[i])
  }

  /** Digits, a period, digits; the digits may be missing on either side. */
  ghost predicate DigitsDotDigits(s: Bytes) {
    exists k: nat :: DotAt(s, k)
  }

  predicate DotAt(s: Bytes, k: nat) {
    k < |s| && s[k] == 0x2E && forall i :: 0 <= i < |s| && i != k ==> IsAsciiDigit(s[i])
  }

  function Unsigned(s: Bytes): Bytes {
    if s != [] && IsSign(s[0]) then s[1..] else s
  }

  /** [+-]?[0-9]+ */
  predicate IsIntegerText(s: Bytes) {
    Unsigned(s) != [] && AllDigits(Unsigned(s))
  }

  /** [+-]?[0-9]+\.[0-9]* */
  ghost predicate IsRealText(s: Bytes) {
    var u := Unsigned(s);
    u != [] && IsAsciiDigit(u[0]) && DigitsDotDigits(u)
  }

  /** [+-]?[0-9] at the beginning */
  predicate BeginsLikeNumber(s: Bytes) {
    Unsigned(s) != [] && IsAsciiDigit(Unsigned(s)[0])
  }

  lemma {:induction false} ScanReal(buf: Bytes, pos: nat, stops: seq<Byte>, digit: Codepoint -> bool)
    requires IsAscii(buf) && AsciiDigits(digit) && pos <= |buf|
    ensures var e := RunEnd(buf, pos, stops);
      if AllDigits(buf[pos..e]) then Scan(buf, pos, Real, stops, digit) == (Real, e)
      else Scan(buf, pos, Real, stops, digit).0 == Error
    decreases |buf| - pos
  {
    hide WhitespaceAt, DigitAt;
    AsciiAt(buf, pos, digit);
    var e := RunEnd(buf, pos, stops);
    if pos < e {
      if IsAsciiDigit(buf[pos]) {
        ScanReal(buf, pos + 1, stops, digit);
        assert buf[pos..e] == [buf[pos]] + buf[pos + 1..e];
      } else {
        assert buf[pos..e][0] == buf[pos];
      }
    }
  }

  lemma DotFirst(s: Bytes)
    requires s != [] && !IsAsciiDigit(s[0])
    ensures DigitsDotDigits(s) <==> s[0] == 0x2E && AllDigits(s[1..])
  {
    if s[0] == 0x2E && AllDigits(s[1..]) {
      assert forall i :: 0 < i < |s| ==> s[1..][i - 1] == s[i];
      assert DotAt(s, 0);
    }
  }

  lemma DigitFirst(d: Byte, s: Bytes)
    requires IsAsciiDigit(d)
    ensures DigitsDotDigits([d] + s) <==> DigitsDotDigits(s)
    ensures AllDigits([d] + s) <==> AllDigits(s)
  {
    var t := [d] + s;
    assert forall i :: 0 <= i < |s| ==> s[i] == t[i + 1];
    if k: nat :| DotAt(t, k) {
      assert DotAt(s, k - 1);
    }
    if k: nat :| DotAt(s, k) {
      assert DotAt(t, k + 1);
    }
    if AllDigits(t) {
      forall i | 0 <= i < |s|
        ensures IsAsciiDigit(s[i])
      {
        assert IsAsciiDigit(t[i + 1]);
      }
    }
  }

  lemma {:induction false} ScanInteger(buf: Bytes, pos: nat, stops: seq<Byte>, digit: Codepoint -> bool)
    requires IsAscii(buf) && AsciiDigits(digit) && pos <= |buf|
    ensures var e := RunEnd(buf, pos, stops);
      var r := Scan(buf, pos, Integer, stops, digit);
      if AllDigits(buf[pos..e]) then r == (Integer, e)
      else if DigitsDotDigits(buf[pos..e]) then r == (Real, e)
      else r.0 == Error
    decreases |buf| - pos
  {
    hide WhitespaceAt, DigitAt;
    AsciiAt(buf, pos, digit);
    var e := RunEnd(buf, pos, stops);
    if pos < e {
      var rest := buf[pos + 1..e];
      assert buf[pos..e] == [buf[pos]] + rest && buf[pos..e][1..] == rest;
      if IsAsciiDigit(buf[pos]) {
        ScanInteger(buf, pos + 1, stops, digit);
        DigitFirst(buf[pos], rest);
      } else {
        DotFirst(buf[pos..e]);
        assert buf[pos..e][0] == buf[pos];
        ScanReal(buf, pos + 1, stops, digit);
      }
    }
  }

  lemma {:induction false} ScanSymbol(buf: Bytes, pos: nat, stops: seq<Byte>, digit: Codepoint -> bool)
    requires IsAscii(buf) && AsciiDigits(digit) && pos <= |buf|
    ensures Scan(buf, pos, Symbol, stops, digit) == (Symbol, RunEnd(buf, pos, stops))
    decreases |buf| - pos
  {
    hide WhitespaceAt, DigitAt, CharLen;
    AsciiAt(buf, pos, digit);
    if pos < RunEnd(buf, pos, stops) {
      ScanSymbol(buf, pos + 1, stops, digit);
    }
  }

  /** A sign on its own before a digit that is a stop byte. */
  predicate LoneSignBeforeDigit(buf: Bytes, start: nat, e: nat)
    requires start < e <= |buf|
  {
    e == start + 1 && IsSign(buf[start]) && e < |buf| && IsAsciiDigit(buf[e])
  }

  /** What is read from an ASCII buffer is the run up to whitespace, a stop byte or the end:
      an integer or a real if it is written like one, an error if it only begins like one,
      and a symbol otherwise; except that a sign on its own counts as an integer when a
      digit that is a stop byte follows. */
  lemma ReadClassifies(buf: Bytes, position: nat, stops: seq<Byte>, digit: Codepoint -> bool)
    requires IsAscii(buf) && AsciiDigits(digit) && position <= |buf|
    ensures var start := SkipWhite(buf, position);
      var e := RunEnd(buf, start, stops);
      var run := buf[start..e];
      var r := Read(buf, position, stops, digit);
      if run == [] then r.Failure?
      else if IsIntegerText(run) || LoneSignBeforeDigit(buf, start, e) then r == Success(Integer, start, e)
      else if IsRealText(run) then r == Success(Real, start, e)
      else if BeginsLikeNumber(run) then r.Failure?
      else r == Success(Symbol, start, e)
  {
    hide WhitespaceAt, DigitAt, CharLen, Begin, Scan, RunEnd;
    hide IsIntegerText, IsRealText, BeginsLikeNumber, DigitsDotDigits, AllDigits;
    var start := SkipWhite(buf, position);
    var e := RunEnd(buf, start, stops);
    AsciiAt(buf, start, digit);
    if start < e {
      var pos := if IsSign(buf[start]) then start + 1 else start;
      RunAfterSign(buf, start, stops);
      BeginAscii(buf, start, digit);
      TextAfterSign(buf, start, pos, e);
      ScanInteger(buf, pos, stops, digit);
      ScanSymbol(buf, pos, stops, digit);
      DigitsBegin(buf[pos..e]);
    }
  }

  lemma RunAfterSign(buf: Bytes, start: nat, stops: seq<Byte>)
    requires start < |buf| && start < RunEnd(buf, start, stops)
    ensures RunEnd(buf, start + 1, stops) == RunEnd(buf, start, stops) >= start + 1
  {
  }

  lemma BeginAscii(buf: Bytes, start: nat, digit: Codepoint -> bool)
    requires IsAscii(buf) && AsciiDigits(digit) && start < |buf|
    ensures var pos := if IsSign(buf[start]) then start + 1 else start;
      Begin(buf, start, digit) == (if pos < |buf| && IsAsciiDigit(buf[pos]) then Integer else Symbol, pos)
  {
    hide DigitAt, WhitespaceAt;
    AsciiAt(buf, start, digit);
    AsciiAt(buf, start + 1, digit);
  }

  /** What the run is written like depends on what follows its sign. */
  lemma TextAfterSign(buf: Bytes, start: nat, pos: nat, e: nat)
    requires start < e <= |buf| && pos == if IsSign(buf[start]) then start + 1 else start
    ensures var run, u := buf[start..e], buf[pos..e];
      && (IsIntegerText(run) <==> u != [] && AllDigits(u))
      && (BeginsLikeNumber(run) <==> u != [] && IsAsciiDigit(u[0]))
      && (IsRealText(run) <==> u != [] && IsAsciiDigit(u[0]) && DigitsDotDigits(u))
  {
    hide AllDigits, DigitsDotDigits;
    assert Unsigned(buf[start..e]) == buf[pos..e];
  }

  lemma DigitsBegin(s: Bytes)
    ensures if s == [] then AllDigits(s) else AllDigits(s) ==> IsAsciiDigit(s[0]) && !DigitsDotDigits(s)
  {
  }

  /** The kind read is what the run is written like, and nothing is read just where the run
      is empty or only begins like a number. */
  ghost predicate ReadsRight(buf: Bytes, position: nat, stops: seq<Byte>, digit: Codepoint -> bool)
    requires position <= |buf|
  {
    var r := Read(buf, position, stops, digit);
    var start := SkipWhite(buf, position);
    var run := buf[start..RunEnd(buf, start, stops)];
    && (r.Failure? <==> run == [] || (BeginsLikeNumber(run) && !IsIntegerText(run) && !IsRealText(run)))
    && (r.Success? ==> r.start <= r.end <= |buf| && buf[r.start..r.end] == run)
    && (r.Success? ==> (r.kind == Integer <==> IsIntegerText(run)) && (r.kind == Real <==> IsRealText(run)))
  }

  predicate NoDigit(stops: seq<Byte>) {
    forall i :: 0 <= i < |stops| ==> !IsAsciiDigit(stops[i])
  }

  predicate BothSigns(stops: seq<Byte>) {
    0x2B in stops && 0x2D in stops
  }

  /** Such stop bytes rule the exception out. */
  lemma ReadWithoutDigitStops(buf: Bytes, position: nat, stops: seq<Byte>, digit: Codepoint -> bool)
    requires IsAscii(buf) && AsciiDigits(digit) && position <= |buf|
    requires NoDigit(stops) || BothSigns(stops)
    ensures ReadsRight(buf, position, stops, digit)
  {
    hide Read;
    var start := SkipWhite(buf, position);
    var run := buf[start..RunEnd(buf, start, stops)];
    ReadClassifies(buf, position, stops, digit);
    if IsRealText(run) {
      var k: nat :| DotAt(Unsigned(run), k);
      assert !IsAsciiDigit(Unsigned(run)[k]);
    }
  }

  /** Without them it arises: of a sign and a digit that is a stop byte, the sign alone is
      read as an integer. */
  lemma DigitStopMisread(sign: Byte, d: Byte, stops: seq<Byte>, digit: Codepoint -> bool)
    requires AsciiDigits(digit) && IsSign(sign) && sign !in stops && IsAsciiDigit(d) && d in stops
    ensures Read([sign, d], 0, stops, digit) == Success(Integer, 0, 1) && !ReadsRight([sign, d], 0, stops, digit)
  {
    var buf: Bytes := [sign, d];
    hide Read, WhitespaceAt;
    ReadClassifies(buf, 0, stops, digit);
    AsciiAt(buf, 0, digit);
    assert SkipWhite(buf, 0) == 0;
    assert RunEnd(buf, 1, stops) == 1;
    assert RunEnd(buf, 0, stops) == 1;
    assert Unsigned(buf[0..1]) == [];
  }

  /** Stop bytes with which every ASCII buffer is read right: the header asks for neither
      sign among them, and then just the digits must be left out. */
  lemma ReadsRightIff(stops: seq<Byte>, digit: Codepoint -> bool)
    requires AsciiDigits(digit)
    ensures (forall buf, position: nat | IsAscii(buf) && position <= |buf| :: ReadsRight(buf, position, stops, digit))
            <==> NoDigit(stops) || BothSigns(stops)
  {
    hide ReadsRight;
    if NoDigit(stops) || BothSigns(stops) {
      forall buf, position: nat | IsAscii(buf) && position <= |buf|
        ensures ReadsRight(buf, position, stops, digit)
      {
        ReadWithoutDigitStops(buf, position, stops, digit);
      }
    } else {
      var i :| 0 <= i < |stops| && IsAsciiDigit(stops[i]);
      var sign: Byte := if 0x2B in stops then 0x2D else 0x2B;
      DigitStopMisread(sign, stops[i], stops, digit);
      assert IsAscii([sign, stops[i]]);
    }
  }

  /** A failed read leaves the position where it was; that is where the error is only at the
      end of the buffer and before a stop byte. */
  lemma FailureAtPositionIff(buf: Bytes, position: nat, stops: seq<Byte>, digit: Codepoint -> bool)
    requires position <= |buf|
    ensures var r := Read(buf, position, stops, digit);
      r.Failure? ==>
        (r.errorPosition == position <==>
         position == |buf| || (!WhitespaceAt(buf, position) && buf[position] in stops))
  {
    hide DigitAt, CharLen;
    if !WhitespaceAt(buf, position) && position < |buf| && buf[position] !in stops {
      var (state, pos) := Begin(buf, position, digit);
      if state == Integer && pos == position {
        assert DigitAt(buf, pos, digit);
      }
    }
  }

  /** One such failure: of "1a" the error is at the second byte, the position at the first. */
  lemma FailureElsewhere(digit: Codepoint -> bool)
    requires AsciiDigits(digit)
    ensures Read([0x31, 0x61], 0, [], digit) == Failure(1)
  {
    var buf: Bytes := [0x31, 0x61];
    AsciiAt(buf, 0, digit);
    AsciiAt(buf, 1, digit);
  }

  /** Every success moves the scanner on, in any buffer. */
  lemma ReadAdvances(buf: Bytes, position: nat, stops: seq<Byte>, digit: Codepoint -> bool)
    requires position <= |buf|
    ensures var r := Read(buf, position, stops, digit);
      r.Success? ==> position <= r.start < r.end <= |buf| && r.kind != Error && SkipWhite(buf, position) == r.start
  {
  }

  /** Reading until it fails ends, and the tokens are disjoint and in order. */
  method ReadAll(scanner: Scanner, stops: seq<Byte>) returns (tokens: seq<Token>)
    requires scanner.position <= |scanner.buffer|
    modifies scanner
    ensures forall i :: 0 <= i < |tokens| ==>
      tokens[i].Success? && old(scanner.position) <= tokens[i].start < tokens[i].end <= |scanner.buffer|
    ensures forall i, j :: 0 <= i < j < |tokens| ==> tokens[i].end <= tokens[j].start
  {
    hide Read;
    tokens := [];
    ReadAdvances(scanner.buffer, scanner.position, stops, scanner.digit);
    var r := scanner.ReadStaticBaseType(stops);
    while r.Success?
      invariant scanner.position <= |scanner.buffer|
      invariant r.Success? ==> r.end == scanner.position && r.start < r.end && old(scanner.position) <= r.start
      invariant forall i :: 0 <= i < |tokens| ==>
        tokens[i].Success? && old(scanner.position) <= tokens[i].start < tokens[i].end <= |scanner.buffer|
      invariant r.Success? ==> forall i :: 0 <= i < |tokens| ==> tokens[i].end <= r.start
      invariant forall i, j :: 0 <= i < j < |tokens| ==> tokens[i].end <= tokens[j].start
      decreases |scanner.buffer| - scanner.position, if r.Success? then 1 else 0
    {
      tokens := tokens + [r];
      ReadAdvances(scanner.buffer, scanner.position, stops, scanner.digit);
      r := scanner.ReadStaticBaseType(stops);
    }
  }

  // ---------------------------------------------------------------- groups

  /** A group has one end. */
  lemma ClosesOnce(buf: Bytes, start: nat, opening: Byte, closing: Byte, escape: Option<Byte>, i: nat, j: nat)
    requires ClosesAt(buf, start, opening, closing, escape, i) && ClosesAt(buf, start, opening, closing, escape, j)
    ensures i == j
  {
  }

  /** Depth counted from an inner opening is the outer depth less what was open before. */
  lemma {:induction false} DepthInside(buf: Bytes, start: nat, opening: Byte, closing: Byte, escape: Option<Byte>,
                                       j: nat, i: nat)
    requires start < j < i <= |buf| && opening != closing && escape != Some(opening)
    requires buf[j] == opening && !Escaped(buf, start, escape, j)
    ensures Depth(buf, start, opening, closing, escape, i) ==
            Depth(buf, start, opening, closing, escape, j) + Depth(buf, j, opening, closing, escape, i)
    decreases i
  {
    if i > j + 1 {
      DepthInside(buf, start, opening, closing, escape, j, i - 1);
    }
  }

  /** Depth goes down one at a time, so on its way from positive to not it is zero. */
  lemma {:induction false} FirstZero(buf: Bytes, start: nat, opening: Byte, closing: Byte, escape: Option<Byte>,
                                     i: nat) returns (k: nat)
    requires start + 1 < i <= |buf| && opening != closing
    requires Depth(buf, start, opening, closing, escape, i) <= 0
    ensures k < i && ClosesAt(buf, start, opening, closing, escape, k)
    decreases i
  {
    if j :| start + 1 < j < i && Depth(buf, start, opening, closing, escape, j) <= 0 {
      k := FirstZero(buf, start, opening, closing, escape, j);
    } else {
      k := i - 1;
      assert Depth(buf, start, opening, closing, escape, start + 1) == 1;
    }
  }

  /** Groups nest: a group opened inside another is closed inside it. */
  lemma GroupsNest(buf: Bytes, start: nat, opening: Byte, closing: Byte, escape: Option<Byte>, end: nat, j: nat)
    requires opening != closing && escape != Some(opening)
    requires ClosesAt(buf, start, opening, closing, escape, end)
    requires start < j < end && buf[j] == opening && !Escaped(buf, start, escape, j)
    ensures exists k :: j < k < end && ClosesAt(buf, j, opening, closing, escape, k)
  {
    DepthInside(buf, start, opening, closing, escape, j, end);
    DepthInside(buf, start, opening, closing, escape, j, end + 1);
    assert Depth(buf, j, opening, closing, escape, end) <= 0;
    var k := FirstZero(buf, j, opening, closing, escape, end);
  }

  // ---------------------------------------------------------------- blanks

  /** A byte on the rest of a line after a semicolon. */
  ghost predicate InComment(buf: Bytes, from: nat, i: nat) {
    exists k :: from <= k <= i < |buf| && buf[k] == 0x3B && forall j :: k <= j < i ==> buf[j] != 0x0A
  }

  /** A byte that may be skipped, having begun at `from`. */
  ghost predicate Blank(buf: Bytes, from: nat, i: nat)
    requires i < |buf|
  {
    IsAsciiSpace(buf[i]) || InComment(buf, from, i)
  }

  lemma CommentCovers(buf: Bytes, pos: nat, e: nat)
    requires pos < |buf| && buf[pos] == 0x3B && e <= |buf|
    requires forall j :: pos <= j < e - 1 ==> buf[j] != 0x0A
    ensures forall i :: pos <= i < e ==> Blank(buf, pos, i)
  {
  }

  lemma BlankEarlier(buf: Bytes, from: nat, later: nat, to: nat)
    requires from <= later && to <= |buf| && forall i :: later <= i < to ==> Blank(buf, later, i)
    ensures forall i :: later <= i < to ==> Blank(buf, from, i)
  {
    forall i | later <= i < to
      ensures Blank(buf, from, i)
    {
      assert Blank(buf, later, i);
    }
  }

  /** Nothing but whitespace and comments is skipped, and what is stopped at is neither. */
  lemma {:induction false} SkipsOnlyBlanks(buf: Bytes, pos: nat, digit: Codepoint -> bool)
    requires IsAscii(buf) && AsciiDigits(digit) && pos <= |buf|
    ensures var r := SkipBlank(buf, pos);
      && (forall i :: pos <= i < r ==> Blank(buf, pos, i))
      && (r < |buf| ==> !IsAsciiSpace(buf[r]) && buf[r] != 0x3B)
    decreases |buf| - pos
  {
    hide WhitespaceAt, CharLen, InComment;
    AsciiAt(buf, SkipBlank(buf, pos), digit);
    if pos < |buf| {
      AsciiAt(buf, pos, digit);
      if WhitespaceAt(buf, pos) {
        SkipsOnlyBlanks(buf, pos + 1, digit);
        BlankEarlier(buf, pos, pos + 1, SkipBlank(buf, pos + 1));
      } else if buf[pos] == 0x3B {
        var e := EndOfLine(buf, pos);
        var next := if e < |buf| then e + 1 else e;
        CommentCovers(buf, pos, next);
        SkipsOnlyBlanks(buf, next, digit);
        BlankEarlier(buf, pos, next, SkipBlank(buf, next));
      }
    }
  }

  /** Even if the escape is the delimiter itself, an empty group is closed: right after its
      opening no byte is escaped.  One later it is. */
  lemma EmptyGroupCloses()
    ensures ClosesAt([0x22, 0x22], 0, 0x22, 0x22, Some(0x22), 1)
    ensures !ClosesAt([0x22, 0x5C, 0x22], 0, 0x22, 0x22, Some(0x5C), 2)
  {
  }

  // ---------------------------------------------------------------- depth by counting

  /** Where a byte stands unescaped behind the opening at `start`. */
  ghost function Standing(buf: Bytes, start: nat, b: Byte, escape: Option<Byte>, i: nat): set<nat>
    requires i <= |buf|
  {
    set j: nat | start < j < i && buf[j] == b && !Escaped(buf, start, escape, j)
  }

  /** The depth is one more than the openings less the closings that stand since. */
  lemma {:induction false} DepthCounts(buf: Bytes, start: nat, opening: Byte, closing: Byte, escape: Option<Byte>,
                                       i: nat)
    requires start < i <= |buf| && opening != closing
    ensures Depth(buf, start, opening, closing, escape, i) ==
            1 + |Standing(buf, start, opening, escape, i)| - |Standing(buf, start, closing, escape, i)|
    decreases i
  {
    if i == start + 1 {
      assert Standing(buf, start, opening, escape, i) == {};
      assert Standing(buf, start, closing, escape, i) == {};
    } else {
      DepthCounts(buf, start, opening, closing, escape, i - 1);
      StandingGrows(buf, start, opening, escape, i);
      StandingGrows(buf, start, closing, escape, i);
    }
  }

  lemma StandingGrows(buf: Bytes, start: nat, b: Byte, escape: Option<Byte>, i: nat)
    requires start + 1 < i <= |buf|
    ensures |Standing(buf, start, b, escape, i)| ==
            |Standing(buf, start, b, escape, i - 1)|
            + if buf[i - 1] == b && !Escaped(buf, start, escape, i - 1) then 1 else 0
  {
    var before, now := Standing(buf, start, b, escape, i - 1), Standing(buf, start, b, escape, i);
    if buf[i - 1] == b && !Escaped(buf, start, escape, i - 1) {
      assert now == before + {i - 1};
    } else {
      assert now == before;
    }
  }
}
