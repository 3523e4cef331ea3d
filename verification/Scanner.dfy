/** The scanner of kernel/scanner/src/scanner.c: a position in a buffer of bytes. */
module Scanner {
  import opened Options
  import opened Utf8

  // ---------------------------------------------------------------- characters

  /** `ak_utf8_is_whitespace` */
  predicate IsWhitespace(c: Codepoint) {
    || c == 0x20 || c == 0x09 || c == 0x0A || c == 0x0D
    || c == 0x00A0 || c == 0x1680 || 0x2000 <= c <= 0x200A || c == 0x202F || c == 0x205F || c == 0x3000
  }

  predicate IsAsciiSpace(b: Byte) {
    b == 0x20 || b == 0x09 || b == 0x0A || b == 0x0D
  }

  predicate IsAsciiDigit(b: Byte) {
    0x30 <= b <= 0x39
  }

  /** `is_whitespace_at` */
  predicate WhitespaceAt(buf: Bytes, pos: nat) {
    pos < |buf| &&
    var result := Decode(buf[pos..]);
    if result.valid then IsWhitespace(result.codepoint) else IsAsciiSpace(buf[pos])
  }

  /** `is_digit_at`; `digit` tells the Unicode digits. */
  predicate DigitAt(buf: Bytes, pos: nat, digit: Codepoint -> bool) {
    pos < |buf| &&
    var result := Decode(buf[pos..]);
    if result.valid then digit(result.codepoint) else IsAsciiDigit(buf[pos])
  }

  function SkipWhite(buf: Bytes, pos: nat): (r: nat)
    requires pos <= |buf|
    ensures pos <= r <= |buf| && !WhitespaceAt(buf, r)
    decreases |buf| - pos
  {
    if WhitespaceAt(buf, pos) then SkipWhite(buf, pos + CharLen(buf[pos..])) else pos
  }

  predicate IsStop(c: Byte, stops: seq<Byte>) {
    c in stops
  }

  // ---------------------------------------------------------------- tokens

  datatype State = Integer | Real | Symbol | Error

  datatype Token = Failure(errorPosition: nat) | Success(kind: State, start: nat, end: nat)

  predicate IsSign(b: Byte) {
    b == 0x2B || b == 0x2D
  }

  /** The state a token begins in and where its loop begins. */
  function Begin(buf: Bytes, pos: nat, digit: Codepoint -> bool): (State, nat)
    requires pos < |buf|
  {
    if IsSign(buf[pos]) then (if DigitAt(buf, pos + 1, digit) then Integer else Symbol, pos + 1)
    else (if DigitAt(buf, pos, digit) then Integer else Symbol, pos)
  }

  /** The loop of the state machine, to the end of the token. */
  function Scan(buf: Bytes, pos: nat, state: State, stops: seq<Byte>, digit: Codepoint -> bool): (r: (State, nat))
    requires pos <= |buf|
    ensures pos <= r.1 <= |buf|
    decreases |buf| - pos, if state == Error then 0 else 1
  {
    if pos == |buf| || state == Error || WhitespaceAt(buf, pos) || IsStop(buf[pos], stops) then (state, pos)
    else
      match state
      case Integer =>
        if DigitAt(buf, pos, digit) then Scan(buf, pos + 1, Integer, stops, digit)
        else if buf[pos] == 0x2E then Scan(buf, pos + 1, Real, stops, digit)
        else (Error, pos)
      case Real =>
        if DigitAt(buf, pos, digit) then Scan(buf, pos + 1, Real, stops, digit) else (Error, pos)
      case Symbol => Scan(buf, pos + CharLen(buf[pos..]), Symbol, stops, digit)
  }

  /** `ak_scanner_read_static_base_type` */
  function Read(buf: Bytes, position: nat, stops: seq<Byte>, digit: Codepoint -> bool): Token
    requires position <= |buf|
  {
    var start := SkipWhite(buf, position);
    if start == |buf| || IsStop(buf[start], stops) then Failure(start)
    else
      var (state, pos) := Begin(buf, start, digit);
      var (last, end) := Scan(buf, pos, state, stops, digit);
      if last == Error || end == start then Failure(end) else Success(last, start, end)
  }

  // ---------------------------------------------------------------- groups

  /** A delimiter right after the escape byte, but not right after the opening one. */
  predicate Escaped(buf: Bytes, start: nat, escape: Option<Byte>, i: nat)
    requires i < |buf|
  {
    escape.Some? && i > start + 1 && buf[i - 1] == escape.value
  }

  /** How many groups are open after the bytes up to `i`. */
  function Depth(buf: Bytes, start: nat, opening: Byte, closing: Byte, escape: Option<Byte>, i: nat): int
    requires start < i <= |buf|
  {
    if i == start + 1 then 1
    else
      var b := buf[i - 1];
      var before := Depth(buf, start, opening, closing, escape, i - 1);
      if Escaped(buf, start, escape, i - 1) then before
      else if b == opening then before + 1
      else if b == closing then before - 1
      else before
  }

  /** The group opened at `start` is closed at `i`: the first byte after which as many
      groups are closed as opened; where both delimiters are the same, the first of them. */
  ghost predicate ClosesAt(buf: Bytes, start: nat, opening: Byte, closing: Byte, escape: Option<Byte>, i: nat) {
    && start < i < |buf|
    && buf[i] == closing && !Escaped(buf, start, escape, i)
    && if opening == closing
       then forall j :: start < j < i && buf[j] == closing ==> Escaped(buf, start, escape, j)
       else && Depth(buf, start, opening, closing, escape, i + 1) == 0
            && forall j :: start < j <= i ==> Depth(buf, start, opening, closing, escape, j) > 0
  }

  datatype Group = NoGroup | Group(start: nat, end: nat)

  // ---------------------------------------------------------------- blanks and comments

  function EndOfLine(buf: Bytes, pos: nat): (r: nat)
    requires pos <= |buf|
    ensures pos <= r <= |buf| && (r < |buf| ==> buf[r] == 0x0A)
    ensures forall i :: pos <= i < r ==> buf[i] != 0x0A
    decreases |buf| - pos
  {
    if pos < |buf| && buf[pos] != 0x0A then EndOfLine(buf, pos + 1) else pos
  }

  /** Past whitespace and comments, each from a semicolon to the end of its line. */
  function SkipBlank(buf: Bytes, pos: nat): (r: nat)
    requires pos <= |buf|
    ensures pos <= r <= |buf|
    ensures r < |buf| ==> !WhitespaceAt(buf, r) && buf[r] != 0x3B
    decreases |buf| - pos
  {
    if pos == |buf| then pos
    else if WhitespaceAt(buf, pos) then SkipBlank(buf, pos + CharLen(buf[pos..]))
    else if buf[pos] == 0x3B then
      var e := EndOfLine(buf, pos);
      SkipBlank(buf, if e < |buf| then e + 1 else e)
    else pos
  }

  // ---------------------------------------------------------------- the scanner

  class Scanner {
    const buffer: Bytes
    const digit: Codepoint -> bool
    var position: nat

    constructor (buffer: Bytes, position: nat, digit: Codepoint -> bool)
      requires position <= |buffer|
      ensures this.buffer == buffer && this.position == position && this.digit == digit
    {
      this.buffer, this.position, this.digit := buffer, position, digit;
    }

    /** The loop that passes over whitespace, before a token or a group and on its own. */
    method PastWhitespace(start: nat) returns (pos: nat)
      requires start <= |buffer|
      ensures pos == SkipWhite(buffer, start)
    {
      hide WhitespaceAt, CharLen;
      pos := start;
      while pos < |buffer| && WhitespaceAt(buffer, pos)
        invariant pos <= |buffer| && SkipWhite(buffer, pos) == SkipWhite(buffer, start)
        decreases |buffer| - pos
      {
        var charLen := CharLen(buffer[pos..]);
        if charLen == 0 {
          break;
        }
        pos := pos + charLen;
      }
    }

    /** `ak_scanner_read_static_base_type` */
    method ReadStaticBaseType(stops: seq<Byte>) returns (r: Token)
      requires position <= |buffer|
      modifies this
      ensures r == Read(buffer, old(position), stops, digit)
      ensures position == if r.Success? then r.end else old(position)
      ensures old(position) <= position <= |buffer|
    {
      hide WhitespaceAt, DigitAt, CharLen;
      var tokenStart := PastWhitespace(position);
      if tokenStart >= |buffer| {
        return Failure(tokenStart);
      }
      if IsStop(buffer[tokenStart], stops) {
        return Failure(tokenStart);
      }
      var pos := tokenStart;
      var state := Symbol;
      if IsSign(buffer[pos]) {
        pos := pos + 1;
        if pos >= |buffer| {
          pos := tokenStart + 1;
        } else if DigitAt(buffer, pos, digit) {
          state := Integer;
        } else if WhitespaceAt(buffer, pos) {
          pos := tokenStart + 1;
        }
      } else if DigitAt(buffer, pos, digit) {
        state := Integer;
      }
      DigitInside(buffer, tokenStart + 1, digit);
      state, pos := RunStates(pos, state, stops);
      if state == Error {
        return Failure(pos);
      }
      if pos == tokenStart {
        return Failure(pos);
      }
      position := pos;
      return Success(state, tokenStart, pos);
    }

    method RunStates(start: nat, first: State, stops: seq<Byte>) returns (state: State, pos: nat)
      requires start <= |buffer|
      ensures (state, pos) == Scan(buffer, start, first, stops, digit)
    {
      hide WhitespaceAt, DigitAt, CharLen;
      state, pos := first, start;
      while pos < |buffer| && state != Error
        invariant pos <= |buffer|
        invariant Scan(buffer, pos, state, stops, digit) == Scan(buffer, start, first, stops, digit)
        decreases |buffer| - pos, if state == Error then 0 else 1
      {
        var c := buffer[pos];
        if WhitespaceAt(buffer, pos) {
          break;
        }
        if IsStop(c, stops) {
          break;
        }
        match state {
          case Integer =>
            if DigitAt(buffer, pos, digit) {
              pos := pos + 1;
            } else if c == 0x2E {
              state := Real;
              pos := pos + 1;
            } else {
              state := Error;
            }
          case Real =>
            if DigitAt(buffer, pos, digit) {
              pos := pos + 1;
            } else {
              state := Error;
            }
          case Symbol =>
            pos := pos + CharLen(buffer[pos..]);
        }
      }
    }

    /** `ak_scanner_find_group` */
    method FindGroup(opening: Byte, closing: Byte, escape: Option<Byte>, consumeLeadingWs: bool) returns (r: Group)
      requires position <= |buffer|
      modifies this
      ensures var s := if consumeLeadingWs then SkipWhite(buffer, old(position)) else old(position);
        match r
        case Group(start, end) =>
          && start == s < |buffer| && buffer[s] == opening && position == end
          && ClosesAt(buffer, s, opening, closing, escape, end)
        case NoGroup =>
          position == old(position) &&
          (s == |buffer| || buffer[s] != opening || forall i :: !ClosesAt(buffer, s, opening, closing, escape, i))
    {
      hide WhitespaceAt;
      var pos := position;
      if pos >= |buffer| {
        return NoGroup;
      }
      if consumeLeadingWs {
        pos := PastWhitespace(pos);
        if pos >= |buffer| {
          return NoGroup;
        }
      }
      if buffer[pos] != opening {
        return NoGroup;
      }
      var end := FindClosing(pos, opening, closing, escape);
      if end < 0 {
        return NoGroup;
      }
      position := end;
      return Group(pos, end);
    }

    /** Looks for the byte that closes the group opened at `start`; -1 if there is none. */
    method FindClosing(start: nat, opening: Byte, closing: Byte, escape: Option<Byte>) returns (end: int)
      requires start < |buffer|
      ensures end >= 0 ==> ClosesAt(buffer, start, opening, closing, escape, end)
      ensures end < 0 ==> forall i :: !ClosesAt(buffer, start, opening, closing, escape, i)
    {
      var pos := start + 1;
      var sameDelimiters := opening == closing;
      var depth := 1;
      while pos < |buffer|
        invariant start < pos <= |buffer|
        invariant sameDelimiters ==>
          forall j :: start < j < pos && buffer[j] == closing ==> Escaped(buffer, start, escape, j)
        invariant !sameDelimiters ==> depth == Depth(buffer, start, opening, closing, escape, pos)
        invariant !sameDelimiters ==>
          forall j :: start < j <= pos ==> Depth(buffer, start, opening, closing, escape, j) > 0
      {
        var current := buffer[pos];
        var isEscaped := false;
        if escape.Some? && pos > start + 1 {
          if buffer[pos - 1] == escape.value {
            isEscaped := true;
          }
        }
        if !isEscaped {
          if sameDelimiters {
            if current == closing {
              return pos;
            }
          } else {
            if current == opening {
              depth := depth + 1;
            } else if current == closing {
              depth := depth - 1;
              if depth == 0 {
                return pos;
              }
            }
          }
        }
        pos := pos + 1;
      }
      return -1;
    }

    /** `ak_scanner_skip_whitespace_and_comments` */
    method SkipWhitespaceAndComments() returns (found: bool)
      requires position <= |buffer|
      modifies this
      ensures found <==> SkipBlank(buffer, old(position)) < |buffer|
      ensures position == if found then SkipBlank(buffer, old(position)) else old(position)
    {
      hide WhitespaceAt, CharLen;
      var pos := position;
      while pos < |buffer|
        invariant position == old(position) && pos <= |buffer|
        invariant SkipBlank(buffer, pos) == SkipBlank(buffer, old(position))
        decreases |buffer| - pos
      {
        if WhitespaceAt(buffer, pos) {
          pos := pos + CharLen(buffer[pos..]);
          continue;
        }
        if buffer[pos] == 0x3B {
          pos := PastComment(pos);
          continue;
        }
        break;
      }
      if pos >= |buffer| {
        return false;
      }
      position := pos;
      return true;
    }

    /** Past a comment and the end of its line. */
    method PastComment(start: nat) returns (pos: nat)
      requires start <= |buffer|
      ensures pos == var e := EndOfLine(buffer, start); if e < |buffer| then e + 1 else e
    {
      pos := start;
      while pos < |buffer| && buffer[pos] != 0x0A
        invariant pos <= |buffer| && EndOfLine(buffer, pos) == EndOfLine(buffer, start)
      {
        pos := pos + 1;
      }
      if pos < |buffer| && buffer[pos] == 0x0A {
        pos := pos + 1;
      }
    }
  }

  lemma DigitInside(buf: Bytes, pos: nat, digit: Codepoint -> bool)
    ensures DigitAt(buf, pos, digit) ==> pos < |buf|
  {
  }
}
