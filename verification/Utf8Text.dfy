/** The loops of kernel/utf8/src/utf8.c over whole texts. */
module Utf8Text {
  import opened Utf8

  // ---------------------------------------------------------------- texts

  function Concat(cs: seq<Bytes>): Bytes {
    if cs == [] then [] else cs[0] + Concat(cs[1..])
  }

  ghost predicate AllChars(cs: seq<Bytes>) {
    forall i :: 0 <= i < |cs| ==> IsChar(cs[i])
  }

  /** UTF8-octets of section 4 of RFC 3629: any number of characters one after the other. */
  ghost predicate IsText(s: Bytes) {
    exists cs: seq<Bytes> :: AllChars(cs) && Concat(cs) == s
  }

  /** What `ak_utf8_validate` returns. */
  predicate Valid(s: Bytes)
    decreases |s|
  {
    s == [] || (Decode(s).valid && Decode(s).bytes != 0 && Decode(s).bytes <= |s| && Valid(s[Decode(s).bytes..]))
  }

  function CharCount(s: Bytes): nat
    decreases |s|
  {
    if s == [] then 0 else 1 + CharCount(s[CharLen(s)..])
  }

  /** Where `ak_utf8_prev_char` stops, having gone back `steps` continuation bytes. */
  function Back(data: Bytes, pos: nat, steps: nat): (r: nat)
    requires pos < |data|
    ensures r <= pos
  {
    if pos > 0 && IsContinuation(data[pos]) && steps < 3 then Back(data, pos - 1, steps + 1) else pos
  }

  function PrevChar(data: Bytes, pos: nat): (r: nat)
    requires pos <= |data|
    ensures r <= pos
  {
    if pos == 0 then 0 else Back(data, pos - 1, 0)
  }

  // ---------------------------------------------------------------- validation

  lemma ValidChar(c: Bytes, rest: Bytes)
    requires IsChar(c)
    ensures Decode(c + rest).valid && Decode(c + rest).bytes == CharLen(c + rest) == |c|
    ensures c != [] && (c + rest)[|c|..] == rest
  {
    hide Decode, CharLen, IsChar, Encode, IsScalar;
    CharShape(c);
    CharIsCharLen(c, rest);
    ValidIffChar(c + rest);
    DecodeLength(c + rest);
  }

  lemma {:induction false} ConcatIsValid(cs: seq<Bytes>)
    requires AllChars(cs)
    ensures Valid(Concat(cs)) && CharCount(Concat(cs)) == |cs|
  {
    hide Decode, CharLen, IsChar, Encode, IsScalar;
    if cs != [] {
      ConcatIsValid(cs[1..]);
      ValidChar(cs[0], Concat(cs[1..]));
    }
  }

  /** What is known of the first character of a valid text. */
  lemma FirstChar(s: Bytes)
    requires s != [] && Valid(s)
    ensures var d := Decode(s);
      && 1 <= d.bytes <= |s| && d.bytes == CharLen(s) && Valid(s[d.bytes..])
      && IsChar(s[..d.bytes]) && IsScalar(d.codepoint) && Encode(d.codepoint) == s[..d.bytes]
      && s == s[..d.bytes] + s[d.bytes..]
  {
    hide Decode, CharLen, IsChar, Encode, IsScalar, Valid;
    ValidHead(s);
    ValidIffChar(s);
    DecodeLength(s);
    EncodeDecode(s);
  }

  lemma ValidHead(s: Bytes)
    requires s != [] && Valid(s)
    ensures var d := Decode(s);
      d.valid && 1 <= d.bytes <= |s| && Valid(s[d.bytes..]) && s == s[..d.bytes] + s[d.bytes..]
  {
    hide Decode;
  }

  /** The characters of a valid text. */
  ghost function Chars(s: Bytes): (cs: seq<Bytes>)
    requires Valid(s)
    decreases |s|
  {
    if s == [] then [] else [s[..Decode(s).bytes]] + Chars(s[Decode(s).bytes..])
  }

  lemma {:induction false} CharsConcat(s: Bytes)
    requires Valid(s)
    ensures AllChars(Chars(s)) && Concat(Chars(s)) == s
    decreases |s|
  {
    hide Decode, CharLen, IsChar, Encode, IsScalar;
    if s != [] {
      var n := Decode(s).bytes;
      FirstChar(s);
      CharsConcat(s[n..]);
      Prepend(s[..n], Chars(s[n..]));
    }
  }

  lemma Prepend(c: Bytes, cs: seq<Bytes>)
    requires IsChar(c) && AllChars(cs)
    ensures AllChars([c] + cs) && Concat([c] + cs) == c + Concat(cs)
  {
    hide Decode, CharLen, IsChar, Encode, IsScalar;
    assert ([c] + cs)[1..] == cs;
  }

  /** Validation accepts exactly the texts of the grammar. */
  lemma ValidIffText(s: Bytes)
    ensures Valid(s) <==> IsText(s)
  {
    hide Decode, CharLen, IsChar, Encode, IsScalar;
    if Valid(s) {
      CharsConcat(s);
    }
    if IsText(s) {
      var cs: seq<Bytes> :| AllChars(cs) && Concat(cs) == s;
      ConcatIsValid(cs);
    }
  }

  // ---------------------------------------------------------------- scalars

  predicate AllScalars(cs: seq<Codepoint>) {
    forall i :: 0 <= i < |cs| ==> IsScalar(cs[i])
  }

  function EncodeAll(cs: seq<Codepoint>): Bytes
    requires AllScalars(cs)
  {
    if cs == [] then [] else Encode(cs[0]) + EncodeAll(cs[1..])
  }

  function DecodeAll(s: Bytes): seq<Codepoint>
    decreases |s|
  {
    if s == [] || Decode(s).bytes == 0 || Decode(s).bytes > |s| then []
    else [Decode(s).codepoint] + DecodeAll(s[Decode(s).bytes..])
  }

  lemma Unappend(x: Bytes, y: Bytes)
    ensures (x + y)[..|x|] == x && (x + y)[|x|..] == y
  {
  }

  /** Encoded scalars are a valid text of as many characters, and decode to themselves. */
  lemma {:induction false} EncodedText(cs: seq<Codepoint>)
    requires AllScalars(cs)
    ensures Valid(EncodeAll(cs)) && CharCount(EncodeAll(cs)) == |cs| && DecodeAll(EncodeAll(cs)) == cs
  {
    hide Decode, CharLen, IsChar, Encode, IsScalar;
    if cs != [] {
      var rest := EncodeAll(cs[1..]);
      EncodedText(cs[1..]);
      DecodeEncode(cs[0], rest);
      Unappend(Encode(cs[0]), rest);
      DecodeLength(Encode(cs[0]) + rest);
    }
  }

  /** Every valid text is the encoding of the scalars it decodes to. */
  lemma {:induction false} DecodedText(s: Bytes)
    requires Valid(s)
    ensures AllScalars(DecodeAll(s)) && EncodeAll(DecodeAll(s)) == s
    ensures CharCount(s) == |DecodeAll(s)|
    decreases |s|
  {
    hide Decode, CharLen, IsChar, Encode, IsScalar;
    if s != [] {
      var d := Decode(s);
      FirstChar(s);
      DecodedText(s[d.bytes..]);
      PrependScalar(d.codepoint, DecodeAll(s[d.bytes..]));
    }
  }

  lemma PrependScalar(c: Codepoint, cs: seq<Codepoint>)
    requires IsScalar(c) && AllScalars(cs)
    ensures AllScalars([c] + cs) && EncodeAll([c] + cs) == Encode(c) + EncodeAll(cs)
  {
    hide Decode, CharLen, IsChar, Encode, IsScalar;
    assert ([c] + cs)[1..] == cs;
  }

  // ---------------------------------------------------------------- stepping

  /** Between two characters of a valid text, or at one of its ends. */
  predicate Boundary(s: Bytes, p: nat) {
    p <= |s| && Valid(s[..p]) && Valid(s[p..])
  }

  lemma {:induction false} ValidAppend(x: Bytes, y: Bytes)
    requires Valid(x) && Valid(y)
    ensures Valid(x + y) && CharCount(x + y) == CharCount(x) + CharCount(y)
    decreases |x|
  {
    hide Decode, CharLen, IsChar, Encode, IsScalar;
    if x == [] {
      assert x + y == y;
    } else {
      var n := Decode(x).bytes;
      FirstChar(x);
      ValidAppend(x[n..], y);
      ValidChar(x[..n], x[n..] + y);
      assert x + y == x[..n] + (x[n..] + y);
    }
  }

  lemma CharIsValid(c: Bytes)
    requires IsChar(c)
    ensures Valid(c) && CharCount(c) == 1
  {
    hide Decode, CharLen, IsChar, Encode, IsScalar;
    ValidChar(c, []);
    assert c + [] == c;
  }

  lemma BackOver(data: Bytes, p: nat, n: nat)
    requires 1 <= n <= 4 && p + n <= |data| && IsChar(data[p..p + n])
    ensures PrevChar(data, p + n) == p
  {
    hide Decode, CharLen, IsChar, Encode, IsScalar;
    var c := data[p..p + n];
    CharShape(c);
    assert data[p] == c[0];
    assert n >= 2 ==> data[p + 1] == c[1];
    assert n >= 3 ==> data[p + 2] == c[2];
    assert n == 4 ==> data[p + 3] == c[3];
    assert Back(data, p, n - 1) == p;
    assert n >= 2 ==> Back(data, p + 1, n - 2) == p;
    assert n >= 3 ==> Back(data, p + 2, n - 3) == p;
  }

  lemma Middle(s: Bytes, p: nat, n: nat)
    requires p + n <= |s|
    ensures s[p..][..n] == s[p..p + n] && s[p..][n..] == s[p + n..] && s[..p + n] == s[..p] + s[p..p + n]
  {
  }

  /** Going forward over a character leads to a boundary, from which going back returns. */
  lemma StepForward(s: Bytes, p: nat)
    requires Boundary(s, p) && p < |s|
    ensures var q := p + CharLen(s[p..]); Boundary(s, q) && q > p && PrevChar(s, q) == p
  {
    hide Decode, CharLen, IsChar, Encode, IsScalar;
    var n := CharLen(s[p..]);
    FirstChar(s[p..]);
    Middle(s, p, n);
    CharIsValid(s[p..p + n]);
    ValidAppend(s[..p], s[p..p + n]);
    BackOver(s, p, n);
  }

  lemma {:induction false} LastChar(x: Bytes) returns (n: nat)
    requires x != [] && Valid(x)
    ensures 1 <= n <= 4 && n <= |x| && Valid(x[..|x| - n]) && IsChar(x[|x| - n..])
    decreases |x|
  {
    hide Decode, CharLen, IsChar, Encode, IsScalar;
    var k := Decode(x).bytes;
    FirstChar(x);
    if k == |x| {
      CharShape(x[..k]);
      n := k;
      assert x[|x| - n..] == x[..k] && x[..0] == [];
    } else {
      n := LastChar(x[k..]);
      var init := x[k..][..|x| - k - n];
      ValidChar(x[..k], init);
      assert x[..|x| - n] == x[..k] + init;
      assert x[|x| - n..] == x[k..][|x| - k - n..];
    }
  }

  lemma Around(s: Bytes, p: nat, q: nat)
    requires p <= q <= |s|
    ensures s[..q][..p] == s[..p] && s[..q][p..] == s[p..q] && s[p..] == s[p..q] + s[q..]
  {
  }

  /** Going back from a boundary leads to the one from which going forward returns. */
  lemma StepBack(s: Bytes, q: nat)
    requires Boundary(s, q) && q > 0
    ensures var p := PrevChar(s, q); Boundary(s, p) && p < q && p + CharLen(s[p..]) == q
  {
    hide Decode, CharLen, IsChar, Encode, IsScalar;
    var n := LastChar(s[..q]);
    var p := q - n;
    var c := s[p..q];
    Around(s, p, q);
    CharIsValid(c);
    ValidAppend(c, s[q..]);
    CharIsCharLen(c, s[q..]);
    BackOver(s, p, n);
  }

  // ---------------------------------------------------------------- graphemes

  /** The combining marks a text begins with, in bytes. */
  function MarksLen(s: Bytes, mark: Codepoint -> bool): (r: nat)
    ensures r <= |s|
    decreases |s|
  {
    var next := Decode(s);
    if s == [] || !next.valid || !mark(next.codepoint) then 0
    else
      DecodeLength(s);
      next.bytes + MarksLen(s[next.bytes..], mark)
  }

  /** `ak_utf8_grapheme_len` */
  function GraphemeLen(s: Bytes, mark: Codepoint -> bool): (r: nat)
    ensures r <= |s| && (s != [] ==> CharLen(s) <= r && r >= 1)
  {
    var n := CharLen(s);
    if s == [] || !Decode(s).valid then n else n + MarksLen(s[n..], mark)
  }

  /** The lengths of the graphemes one after the other. */
  function Graphemes(s: Bytes, mark: Codepoint -> bool): seq<nat>
    decreases |s|
  {
    if s == [] then [] else [GraphemeLen(s, mark)] + Graphemes(s[GraphemeLen(s, mark)..], mark)
  }

  function Sum(ns: seq<nat>): nat {
    if ns == [] then 0 else ns[0] + Sum(ns[1..])
  }

  lemma {:induction false} CountPastMarks(s: Bytes, mark: Codepoint -> bool)
    ensures CharCount(s[MarksLen(s, mark)..]) <= CharCount(s)
    ensures MarksLen(s, mark) > 0 ==> CharCount(s[MarksLen(s, mark)..]) < CharCount(s)
    decreases |s|
  {
    hide Decode, CharLen, IsChar, Encode, IsScalar;
    var next := Decode(s);
    if s != [] && next.valid && mark(next.codepoint) {
      DecodeLength(s);
      var rest := s[next.bytes..];
      CountPastMarks(rest, mark);
      assert rest[MarksLen(rest, mark)..] == s[MarksLen(s, mark)..];
    } else {
      assert s[0..] == s;
    }
  }

  /** The graphemes tile the text, valid or not, and are no more than its characters. */
  lemma {:induction false} GraphemesTile(s: Bytes, mark: Codepoint -> bool)
    ensures Sum(Graphemes(s, mark)) == |s|
    ensures |Graphemes(s, mark)| <= CharCount(s)
    decreases |s|
  {
    hide Decode, CharLen, IsChar, Encode, IsScalar;
    if s != [] {
      var n, g := CharLen(s), GraphemeLen(s, mark);
      GraphemesTile(s[g..], mark);
      if Decode(s).valid {
        CountPastMarks(s[n..], mark);
        assert s[n..][g - n..] == s[g..];
      }
    }
  }

  /** The scalars that are not combining marks. */
  function NonMarks(cs: seq<Codepoint>, mark: Codepoint -> bool): nat {
    if cs == [] then 0 else (if mark(cs[0]) then 0 else 1) + NonMarks(cs[1..], mark)
  }

  function LeadingMarks(cs: seq<Codepoint>, mark: Codepoint -> bool): (k: nat)
    ensures k <= |cs| && (k < |cs| ==> !mark(cs[k]))
  {
    if cs == [] || !mark(cs[0]) then 0 else 1 + LeadingMarks(cs[1..], mark)
  }

  lemma {:induction false} MarksOfEncoded(cs: seq<Codepoint>, mark: Codepoint -> bool)
    requires AllScalars(cs)
    ensures var k := LeadingMarks(cs, mark);
      && EncodeAll(cs)[MarksLen(EncodeAll(cs), mark)..] == EncodeAll(cs[k..])
      && NonMarks(cs[k..], mark) == NonMarks(cs, mark)
  {
    hide Decode, CharLen, IsChar, Encode, IsScalar;
    if cs != [] {
      var rest := EncodeAll(cs[1..]);
      DecodeEncode(cs[0], rest);
      Unappend(Encode(cs[0]), rest);
      if mark(cs[0]) {
        MarksOfEncoded(cs[1..], mark);
        assert cs[1..][LeadingMarks(cs[1..], mark)..] == cs[LeadingMarks(cs, mark)..];
        Further(EncodeAll(cs), |Encode(cs[0])|, MarksLen(rest, mark));
      } else {
        assert cs[0..] == cs && EncodeAll(cs)[0..] == EncodeAll(cs);
      }
    }
  }

  lemma Further(s: Bytes, m: nat, n: nat)
    requires m + n <= |s|
    ensures s[m..][n..] == s[m + n..]
  {
  }

  /** In encoded scalars a grapheme begins with the first and with every one after it that
      is not a combining mark. */
  lemma {:induction false} GraphemesAreStarters(cs: seq<Codepoint>, mark: Codepoint -> bool)
    requires AllScalars(cs)
    ensures |Graphemes(EncodeAll(cs), mark)| == if cs == [] then 0 else 1 + NonMarks(cs[1..], mark)
    decreases |cs|
  {
    hide Decode, CharLen, IsChar, Encode, IsScalar;
    if cs != [] {
      var s, rest, ds := EncodeAll(cs), EncodeAll(cs[1..]), cs[1..];
      DecodeEncode(cs[0], rest);
      DecodeLength(s);
      Unappend(Encode(cs[0]), rest);
      MarksOfEncoded(ds, mark);
      Further(s, |Encode(cs[0])|, MarksLen(rest, mark));
      var k := LeadingMarks(ds, mark);
      GraphemesAreStarters(ds[k..], mark);
      assert k < |ds| ==> ds[k..][0] == ds[k];
    }
  }

  // ---------------------------------------------------------------- the loops

  /** `ak_utf8_char_count` */
  method CountChars(data: Bytes) returns (count: nat)
    ensures count == CharCount(data)
  {
    hide CharLen;
    count := 0;
    var pos := 0;
    assert data[0..] == data;
    while pos < |data|
      invariant 0 <= pos <= |data| && count + CharCount(data[pos..]) == CharCount(data)
    {
      var charLen := CharLen(data[pos..]);
      if charLen == 0 {
        break;
      }
      Further(data, pos, charLen);
      count := count + 1;
      pos := pos + charLen;
    }
  }

  /** `ak_utf8_prev_char` */
  method StepBackFrom(data: Bytes, currentPos: nat) returns (pos: nat)
    requires currentPos <= |data|
    ensures pos == PrevChar(data, currentPos)
  {
    if currentPos == 0 {
      return 0;
    }
    pos := currentPos - 1;
    var steps := 0;
    while pos > 0 && IsContinuation(data[pos]) && steps < 3
      invariant 0 <= steps && pos < |data| && Back(data, pos, steps) == PrevChar(data, currentPos)
    {
      pos := pos - 1;
      steps := steps + 1;
    }
  }

  /** `ak_utf8_validate` */
  method Validate(data: Bytes) returns (ok: bool)
    ensures ok <==> IsText(data)
  {
    hide Decode, IsChar;
    ValidIffText(data);
    var pos := 0;
    assert data[0..] == data;
    while pos < |data|
      invariant 0 <= pos <= |data| && Valid(data[pos..]) == Valid(data)
    {
      var result := Decode(data[pos..]);
      if !result.valid || result.bytes == 0 {
        return false;
      }
      DecodeLength(data[pos..]);
      Further(data, pos, result.bytes);
      pos := pos + result.bytes;
    }
    return true;
  }

  /** `ak_utf8_grapheme_len` */
  method MeasureGrapheme(data: Bytes, mark: Codepoint -> bool) returns (totalLen: nat)
    ensures totalLen == GraphemeLen(data, mark)
  {
    hide Decode, CharLen;
    if |data| == 0 {
      return 0;
    }
    totalLen := CharLen(data);
    var base := Decode(data);
    if !base.valid {
      return;
    }
    var pos := totalLen;
    while pos < |data|
      invariant pos == totalLen <= |data|
      invariant totalLen + MarksLen(data[pos..], mark) == GraphemeLen(data, mark)
    {
      var next := Decode(data[pos..]);
      if !next.valid {
        break;
      }
      if !mark(next.codepoint) {
        break;
      }
      DecodeLength(data[pos..]);
      Further(data, pos, next.bytes);
      totalLen := totalLen + next.bytes;
      pos := pos + next.bytes;
    }
  }

  /** `ak_utf8_grapheme_count` */
  method CountGraphemes(data: Bytes, mark: Codepoint -> bool) returns (count: nat)
    ensures count == |Graphemes(data, mark)|
  {
    hide Decode, CharLen;
    count := 0;
    var pos := 0;
    assert data[0..] == data;
    while pos < |data|
      invariant 0 <= pos <= |data| && count + |Graphemes(data[pos..], mark)| == |Graphemes(data, mark)|
    {
      var graphemeLen := MeasureGrapheme(data[pos..], mark);
      if graphemeLen == 0 {
        break;
      }
      Further(data, pos, graphemeLen);
      count := count + 1;
      pos := pos + graphemeLen;
    }
  }

  // ---------------------------------------------------------------- any bytes

  /** In any bytes a step back goes past at most three continuations, and no further than to
      the next byte that is none. */
  lemma PrevIs(data: Bytes, pos: nat)
    requires 0 < pos <= |data|
    ensures var r := PrevChar(data, pos);
      && r < pos <= r + 4
      && (forall i :: r < i < pos ==> IsContinuation(data[i]))
      && (!IsContinuation(data[r]) || r == 0 || pos == r + 4)
  {
    hide IsContinuation;
    BackIs(data, pos - 1, 0);
  }

  lemma {:induction false} BackIs(data: Bytes, pos: nat, steps: nat)
    requires pos < |data| && steps <= 3
    ensures var r := Back(data, pos, steps);
      && r <= pos <= r + 3 - steps
      && (forall i :: r < i <= pos ==> IsContinuation(data[i]))
      && (!IsContinuation(data[r]) || r == 0 || pos == r + 3 - steps)
  {
    hide IsContinuation;
    if pos > 0 && IsContinuation(data[pos]) && steps < 3 {
      BackIs(data, pos - 1, steps + 1);
    }
  }

  /** The pieces any bytes fall into, as `ak_utf8_char_len` tells. */
  function Pieces(s: Bytes): (ps: seq<Bytes>)
    ensures Concat(ps) == s && (forall i :: 0 <= i < |ps| ==> ps[i] != [])
    decreases |s|
  {
    if s == [] then []
    else
      var rest := Pieces(s[CharLen(s)..]);
      assert s == s[..CharLen(s)] + s[CharLen(s)..];
      [s[..CharLen(s)]] + rest
  }

  /** The count is the number of these pieces, valid or not. */
  lemma {:induction false} CountsPieces(s: Bytes)
    ensures CharCount(s) == |Pieces(s)|
    decreases |s|
  {
    if s != [] {
      CountsPieces(s[CharLen(s)..]);
    }
  }

  /** Marks up to `end` and no further: each piece is a valid mark, and what follows is none. */
  ghost predicate MarksUpTo(s: Bytes, end: nat, mark: Codepoint -> bool)
    decreases |s|
  {
    var d := Decode(s);
    if end == 0 then s == [] || !d.valid || !mark(d.codepoint)
    else
      && d.valid && mark(d.codepoint) && 0 < d.bytes <= end && d.bytes <= |s|
      && MarksUpTo(s[d.bytes..], end - d.bytes, mark)
  }

  lemma {:induction false} MarksAre(s: Bytes, mark: Codepoint -> bool)
    ensures MarksUpTo(s, MarksLen(s, mark), mark)
    decreases |s|
  {
    hide Decode;
    var d := Decode(s);
    if s != [] && d.valid && mark(d.codepoint) {
      DecodeLength(s);
      MarksAre(s[d.bytes..], mark);
    }
  }

  /** In any bytes a grapheme is a character and, if that is valid, all the marks behind it. */
  lemma GraphemeIs(s: Bytes, mark: Codepoint -> bool)
    ensures s == [] || !Decode(s).valid ==> GraphemeLen(s, mark) == CharLen(s)
    ensures s != [] && Decode(s).valid ==>
              CharLen(s) <= GraphemeLen(s, mark) && MarksUpTo(s[CharLen(s)..], GraphemeLen(s, mark) - CharLen(s), mark)
  {
    hide Decode, CharLen;
    MarksAre(s[CharLen(s)..], mark);
  }
}
