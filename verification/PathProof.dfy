/** What normalising paths promises: a normal form, reached in one step, that joining,
splitting and putting together again respect. */
module PathProof {
  import opened Paths

  // ---------------------------------------------------------------- parsing

  /** A separator ends a component, whatever surrounds it. */
  lemma {:induction false} SplitCut(buf: string, x: string, y: string)
    ensures SplitFrom(buf, x + "/" + y) == SplitFrom(buf, x) + SplitFrom("", y)
    decreases |x|
  {
    if x == "" {
      assert x + "/" + y == "/" + y && ("/" + y)[1..] == y;
    } else {
      assert (x + "/" + y)[1..] == x[1..] + "/" + y;
      if IsSeparator(x[0]) {
        SplitCut("", x[1..], y);
      } else {
        SplitCut(if |buf| < PATH_MAX - 1 then buf + [x[0]] else buf, x[1..], y);
      }
    }
  }

  predicate Plain(c: string) {
    0 < |c| <= PATH_MAX - 1 && '/' !in c
  }

  lemma {:induction false} SplitPlain(buf: string, c: string)
    requires '/' !in c && |buf| + |c| <= PATH_MAX - 1
    ensures SplitFrom(buf, c) == if buf + c == "" then [] else [buf + c]
    decreases |c|
  {
    if c == "" {
      assert buf + c == buf;
    } else {
      SplitPlain(buf + [c[0]], c[1..]);
      assert buf + [c[0]] + c[1..] == buf + c;
    }
  }

  lemma {:induction false} SplitIsPlain(buf: string, p: string)
    requires '/' !in buf && |buf| <= PATH_MAX - 1
    ensures forall i :: 0 <= i < |SplitFrom(buf, p)| ==> Plain(SplitFrom(buf, p)[i])
    decreases |p|
  {
    if p != "" {
      if IsSeparator(p[0]) {
        SplitIsPlain("", p[1..]);
      } else {
        SplitIsPlain(if |buf| < PATH_MAX - 1 then buf + [p[0]] else buf, p[1..]);
      }
    }
  }

  /** Parsing what was printed gives the components back. */
  lemma {:induction false} SplitListed(cs: Components)
    requires forall i :: 0 <= i < |cs| ==> Plain(cs[i])
    ensures Split(Listed(cs)) == cs
  {
    if cs != [] {
      SplitPlain("", cs[0]);
      assert "" + cs[0] == cs[0] && [cs[0]] + cs[1..] == cs;
      if |cs| > 1 {
        SplitCut("", cs[0], Listed(cs[1..]));
        SplitListed(cs[1..]);
      }
    }
  }

  lemma SplitPrint(absolute: bool, cs: Components)
    requires forall i :: 0 <= i < |cs| ==> Plain(cs[i])
    ensures Split(Print(absolute, cs)) == if !absolute && cs == [] then ["."] else cs
  {
    SplitListed(cs);
    if absolute {
      SplitCut("", "", Listed(cs));
      assert "" + "/" + Listed(cs) == "/" + Listed(cs);
    } else {
      SplitPlain("", ".");
      assert "" + "." == ".";
    }
  }

  lemma PrintIsAbsolute(absolute: bool, cs: Components)
    requires forall i :: 0 <= i < |cs| ==> Plain(cs[i])
    ensures IsAbsolute(Print(absolute, cs)) == absolute && Print(absolute, cs) != ""
  {
    if !absolute && cs != [] {
      assert Listed(cs)[0] == cs[0][0];
    }
  }

  // ---------------------------------------------------------------- resolving

  /** A component a normal path may have. */
  predicate IsNormal(c: string) {
    Plain(c) && c != "." && c != ".."
  }

  predicate AllNormal(cs: Components) {
    forall i :: 0 <= i < |cs| ==> IsNormal(cs[i])
  }

  lemma {:induction false} ResolveIsNormal(stack: Components, cs: Components)
    requires AllNormal(stack) && forall i :: 0 <= i < |cs| ==> Plain(cs[i])
    ensures AllNormal(Resolve(stack, cs))
    decreases |cs|
  {
    if cs != [] {
      ResolveIsNormal(Walk(stack, cs[0]), cs[1..]);
    }
  }

  lemma {:induction false} ResolveNormal(stack: Components, cs: Components)
    requires AllNormal(cs)
    ensures Resolve(stack, cs) == stack + cs
    decreases |cs|
  {
    if cs != [] {
      ResolveNormal(stack + [cs[0]], cs[1..]);
      assert stack + [cs[0]] + cs[1..] == stack + cs;
    } else {
      assert stack + cs == stack;
    }
  }

  lemma {:induction false} ResolveAppend(stack: Components, xs: Components, ys: Components)
    ensures Resolve(stack, xs + ys) == Resolve(Resolve(stack, xs), ys)
    decreases |xs|
  {
    if xs == [] {
      assert xs + ys == ys;
    } else {
      assert (xs + ys)[0] == xs[0] && (xs + ys)[1..] == xs[1..] + ys;
      ResolveAppend(Walk(stack, xs[0]), xs[1..], ys);
    }
  }

  /** The components a path resolves to. */
  function Parts(p: string): Components {
    Resolve([], Split(p))
  }

  lemma PartsAreNormal(p: string)
    ensures AllNormal(Parts(p))
  {
    SplitIsPlain("", p);
    ResolveIsNormal([], Split(p));
  }

  /** A normal path resolves to the components it was printed from. */
  lemma PartsOfPrint(absolute: bool, cs: Components)
    requires AllNormal(cs)
    ensures Parts(Print(absolute, cs)) == cs
  {
    SplitPrint(absolute, cs);
    if !absolute && cs == [] {
      assert ["."][1..] == [];
      assert Resolve([], ["."]) == Resolve(Walk([], "."), []);
    } else {
      ResolveNormal([], cs);
      assert [] + cs == cs;
    }
  }

  // ---------------------------------------------------------------- the normal form

  /** Printed, absolute or not, from components none of which is empty, "." or ".."; the
      relative path of no components is ".". */
  ghost predicate InNormalForm(q: string) {
    exists absolute: bool, cs: Components :: AllNormal(cs) && q == Print(absolute, cs)
  }

  lemma NormalIsInForm(p: string)
    ensures InNormalForm(Normal(p)) && Normal(p) == Print(IsAbsolute(p), Parts(p)) && AllNormal(Parts(p))
    ensures IsAbsolute(Normal(p)) == IsAbsolute(p) && Parts(Normal(p)) == Parts(p) && Normal(p) != ""
  {
    PartsAreNormal(p);
    PartsOfPrint(IsAbsolute(p), Parts(p));
    PrintIsAbsolute(IsAbsolute(p), Parts(p));
  }

  /** Normalising changes nothing exactly on the paths in normal form. */
  lemma FixedIffNormal(q: string)
    ensures Normal(q) == q <==> InNormalForm(q)
  {
    NormalIsInForm(q);
    if InNormalForm(q) {
      var absolute: bool, cs: Components :| AllNormal(cs) && q == Print(absolute, cs);
      PartsOfPrint(absolute, cs);
      PrintIsAbsolute(absolute, cs);
    }
  }

  /** Normalising twice is normalising once. */
  lemma Idempotent(p: string)
    ensures Normal(Normal(p)) == Normal(p)
  {
    NormalIsInForm(p);
  }

  /** The normal form in characters: split at its separators, after the one an absolute
      path begins with, it has no part that is empty, "." or "..", unless it is "/" or ".". */
  lemma NormalComponents(p: string)
    ensures var q := Normal(p);
      && (q == "." || AllNormal(Split(q)))
      && (q != "." ==> q == (if IsAbsolute(p) then "/" else "") + Listed(Split(q)))
  {
    NormalIsInForm(p);
    SplitPrint(IsAbsolute(p), Parts(p));
  }

  // ---------------------------------------------------------------- joining

  lemma SplitSlash(x: string, y: string)
    ensures Split(x + "/" + y) == Split(x) + Split(y)
  {
    SplitCut("", x, y);
  }

  /** A leading or trailing separator makes no difference to the components. */
  lemma SplitEdges(x: string)
    ensures Split(x + "/") == Split(x) && Split("/" + x) == Split(x)
  {
    SplitSlash(x, "");
    SplitSlash("", x);
    assert x + "/" + "" == x + "/" && "" + "/" + x == "/" + x;
    assert Split("") == [];
    assert Split(x) + [] == Split(x) && [] + Split(x) == Split(x);
  }

  /** A join has the components of its parts in order, and is absolute if its first
      non-empty part is. */
  lemma JoinedSplits(a: string, b: string)
    ensures Split(Joined(a, b)) == Split(a) + Split(b)
    ensures IsAbsolute(Joined(a, b)) == IsAbsolute(if a == "" then b else a)
  {
    if a == "" || b == "" {
      assert Split("") == [];
      assert [] + Split(b) == Split(b) && Split(a) + [] == Split(a);
    } else {
      var a0, b0 := a[..|a| - 1], b[1..];
      if IsSeparator(a[|a| - 1]) {
        assert a == a0 + "/";
        SplitEdges(a0);
        if IsSeparator(b[0]) {
          assert b == "/" + b0 && a + b0 == a0 + "/" + b0;
          SplitEdges(b0);
          SplitSlash(a0, b0);
        } else {
          assert a + b == a0 + "/" + b;
          SplitSlash(a0, b);
        }
      } else if IsSeparator(b[0]) {
        assert b == "/" + b0 && a + b == a + "/" + b0;
        SplitEdges(b0);
        SplitSlash(a, b0);
      } else {
        SplitSlash(a, b);
      }
    }
  }

  function SplitAll(bs: seq<string>): Components {
    if bs == [] then [] else Split(bs[0]) + SplitAll(bs[1..])
  }

  lemma Associate(x: Components, y: Components, z: Components)
    ensures x + y + z == x + (y + z)
  {
  }

  /** However many are joined, nothing is lost, added or run together. */
  lemma {:induction false} JoinKeepsComponents(a: string, bs: seq<string>)
    ensures Split(JoinedAll(a, bs)) == Split(a) + SplitAll(bs)
    decreases |bs|
  {
    if bs != [] {
      JoinedSplits(a, bs[0]);
      JoinKeepsComponents(Joined(a, bs[0]), bs[1..]);
      Associate(Split(a), Split(bs[0]), SplitAll(bs[1..]));
    } else {
      assert Split(a) + [] == Split(a);
    }
  }

  lemma NormalJoined(a: string, b: string)
    ensures Normal(Joined(a, b)) == Print(IsAbsolute(if a == "" then b else a), Resolve(Parts(a), Split(b)))
  {
    JoinedSplits(a, b);
    ResolveAppend([], Split(a), Split(b));
  }

  /** Normalising the first part before joining makes no difference, exactly when that part
      is not empty or the second is not absolute. */
  lemma JoinConfluent(a: string, b: string)
    ensures Normal(Joined(a, b)) == Normal(Joined(Normal(a), b)) <==> a != "" || !IsAbsolute(b)
  {
    NormalIsInForm(a);
    NormalJoined(a, b);
    NormalJoined(Normal(a), b);
    if a == "" {
      var cs := Resolve([], Split(b));
      SplitIsPlain("", b);
      ResolveIsNormal([], Split(b));
      PrintIsAbsolute(IsAbsolute(b), cs);
      PrintIsAbsolute(false, cs);
    }
  }

  // ---------------------------------------------------------------- taking apart

  /** Directory and base name together normalise to what the path does. */
  lemma DirnameBasename(p: string)
    requires p != ""
    ensures Normal(Joined(Dirname(p), Basename(p))) == Normal(p)
  {
    var i := LastSep(p);
    var d, b := Dirname(p), Basename(p);
    NormalJoined(d, b);
    if i == -1 {
      assert b == p;
      PlainDot();
    } else {
      assert p == p[..i] + "/" + b;
      SplitSlash(p[..i], b);
      ResolveAppend([], Split(p[..i]), Split(b));
      if i == 0 {
        SplitEdges("");
        assert "" + "/" == "/";
      }
    }
  }

  lemma PlainDot()
    ensures Parts(".") == []
  {
    SplitPlain("", ".");
    assert ["."][1..] == [];
    assert Resolve([], ["."]) == Resolve(Walk([], "."), []);
  }

  /** The base name is the last stretch of the path without a separator. */
  lemma BasenameIsLast(p: string)
    ensures '/' !in Basename(p) && |Basename(p)| <= |p| && p[|p| - |Basename(p)|..] == Basename(p)
    ensures Basename(p) == p || p[|p| - |Basename(p)| - 1] == '/'
  {
    var i := LastSep(p);
    assert forall j :: 0 <= j < |Basename(p)| ==> Basename(p)[j] == p[i + 1 + j];
  }

  lemma PartsOfJoined(p: string, c: string)
    requires Plain(c)
    ensures Parts(Joined(p, c)) == Walk(Parts(p), c)
  {
    JoinedSplits(p, c);
    ResolveAppend([], Split(p), Split(c));
    SplitPlain("", c);
    assert "" + c == c && [c][1..] == [];
    assert Resolve(Parts(p), [c]) == Resolve(Walk(Parts(p), c), []);
  }

  /** Joining a name goes one level down, "." nowhere, ".." one level up, back where a name
      had led. */
  lemma DownAndUp(p: string, c: string)
    requires IsNormal(c)
    ensures Parts(Joined(p, c)) == Parts(p) + [c]
    ensures Parts(Joined(p, ".")) == Parts(p)
    ensures Parts(Joined(p, "..")) == if Parts(p) == [] then [] else Parts(p)[..|Parts(p)| - 1]
    ensures p != "" ==> Normal(Joined(Joined(p, c), "..")) == Normal(p)
  {
    PartsOfJoined(p, c);
    PartsOfJoined(p, ".");
    PartsOfJoined(p, "..");
    PartsOfJoined(Joined(p, c), "..");
    JoinedSplits(p, c);
    JoinedSplits(Joined(p, c), "..");
  }

  /** Going up from nothing is dropped, even in a relative path. */
  lemma DotDotIsDropped(p: string)
    requires Parts(p) == []
    ensures Normal(Joined(p, "..")) == if IsAbsolute(p) then "/" else "."
  {
    NormalJoined(p, "..");
    SplitPlain("", "..");
    assert [".."][1..] == [];
    assert Resolve([], [".."]) == Resolve(Walk([], ".."), []);
  }

  // ---------------------------------------------------------------- where a path leads

  /** The components of `p` at their full length. */
  function TrueSplitFrom(buf: string, p: string): Components
    decreases |p|
  {
    if p == "" then (if buf == "" then [] else [buf])
    else if IsSeparator(p[0]) then (if buf == "" then [] else [buf]) + TrueSplitFrom("", p[1..])
    else TrueSplitFrom(buf + [p[0]], p[1..])
  }

  function TrueSplit(p: string): Components {
    TrueSplitFrom("", p)
  }

  /** What the buffer keeps of a component. */
  function Cut(c: string): string {
    if |c| <= PATH_MAX - 1 then c else c[..PATH_MAX - 1]
  }

  function CutAll(cs: Components): (r: Components)
    ensures |r| == |cs| && forall i :: 0 <= i < |cs| ==> r[i] == Cut(cs[i])
  {
    seq(|cs|, i requires 0 <= i < |cs| => Cut(cs[i]))
  }

  predicate AllFit(cs: Components) {
    forall i :: 0 <= i < |cs| ==> |cs[i]| <= PATH_MAX - 1
  }

  lemma CutAllIff(cs: Components)
    ensures CutAll(cs) == cs <==> AllFit(cs)
  {
    if CutAll(cs) == cs {
      forall i | 0 <= i < |cs|
        ensures |cs[i]| <= PATH_MAX - 1
      {
        assert CutAll(cs)[i] == cs[i];
      }
    }
  }

  lemma CutGrows(buf: string, c: char)
    ensures Cut(buf + [c]) == if |Cut(buf)| < PATH_MAX - 1 then Cut(buf) + [c] else Cut(buf)
  {
  }

  /** The parser finds the components of the path, each cut to the size of its buffer. */
  lemma {:induction false} SplitCuts(buf: string, p: string)
    ensures SplitFrom(Cut(buf), p) == CutAll(TrueSplitFrom(buf, p))
    decreases |p|
  {
    if p != "" {
      if IsSeparator(p[0]) {
        SplitCuts("", p[1..]);
        assert Cut("") == "" && (Cut(buf) == "" <==> buf == "");
        hide Cut;
        var rest := TrueSplitFrom("", p[1..]);
        assert CutAll([buf] + rest) == [Cut(buf)] + CutAll(rest) && CutAll([] + rest) == [] + CutAll(rest);
      } else {
        CutGrows(buf, p[0]);
        SplitCuts(buf + [p[0]], p[1..]);
      }
    }
  }

  lemma {:induction false} ResolveCuts(stack: Components, cs: Components)
    ensures Resolve(CutAll(stack), CutAll(cs)) == CutAll(Resolve(stack, cs))
    decreases |cs|
  {
    if cs != [] {
      assert CutAll(cs)[1..] == CutAll(cs[1..]);
      assert Walk(CutAll(stack), Cut(cs[0])) == CutAll(Walk(stack, cs[0]));
      ResolveCuts(Walk(stack, cs[0]), cs[1..]);
    }
  }

  /** A path resolves to what its components do, each cut. */
  lemma PartsAreCut(p: string)
    ensures Parts(p) == CutAll(Resolve([], TrueSplit(p)))
  {
    SplitCuts("", p);
    ResolveCuts([], TrueSplit(p));
    assert CutAll([]) == [];
  }

  lemma {:induction false} TrueSplitSlash(buf: string, x: string, y: string)
    ensures TrueSplitFrom(buf, x + "/" + y) == TrueSplitFrom(buf, x) + TrueSplit(y)
    decreases |x|
  {
    if x == "" {
      assert x + "/" + y == "/" + y && ("/" + y)[1..] == y;
    } else {
      assert (x + "/" + y)[1..] == x[1..] + "/" + y;
      TrueSplitSlash(if IsSeparator(x[0]) then "" else buf + [x[0]], x[1..], y);
    }
  }

  lemma {:induction false} TrueSplitPlain(buf: string, c: string)
    requires '/' !in c
    ensures TrueSplitFrom(buf, c) == if buf + c == "" then [] else [buf + c]
    decreases |c|
  {
    if c == "" {
      assert buf + c == buf;
    } else {
      TrueSplitPlain(buf + [c[0]], c[1..]);
      assert buf + [c[0]] + c[1..] == buf + c;
    }
  }

  lemma {:induction false} TrueSplitListed(cs: Components)
    requires AllNormal(cs)
    ensures TrueSplit(Listed(cs)) == cs
  {
    if cs != [] {
      TrueSplitPlain("", cs[0]);
      assert "" + cs[0] == cs[0] && [cs[0]] + cs[1..] == cs;
      if |cs| > 1 {
        TrueSplitSlash("", cs[0], Listed(cs[1..]));
        TrueSplitListed(cs[1..]);
      }
    }
  }

  /** Where a path leads from a directory, named by the components from the root to it. */
  function Reached(start: Components, p: string): Components {
    Resolve(if IsAbsolute(p) then [] else start, TrueSplit(p))
  }

  /** From `depth` levels down the components never climb above where they set out. */
  predicate StaysBelow(depth: nat, cs: Components)
    decreases |cs|
  {
    if cs == [] then true
    else if cs[0] == "." then StaysBelow(depth, cs[1..])
    else if cs[0] == ".." then depth > 0 && StaysBelow(depth - 1, cs[1..])
    else StaysBelow(depth + 1, cs[1..])
  }

  lemma {:induction false} DeepEnough(depth: nat, cs: Components)
    requires depth >= |cs|
    ensures StaysBelow(depth, cs)
    decreases |cs|
  {
    if cs != [] {
      DeepEnough(if cs[0] == "." then depth else if cs[0] == ".." then depth - 1 else depth + 1, cs[1..]);
    }
  }

  /** How many levels down the components lead where none is clipped. */
  function Descent(cs: Components): int
    decreases |cs|
  {
    if cs == [] then 0
    else Descent(cs[1..]) + if cs[0] == "." then 0 else if cs[0] == ".." then -1 else 1
  }

  /** Clipping is seen in the length. */
  lemma {:induction false} ClippedIff(stack: Components, cs: Components)
    ensures |Resolve(stack, cs)| >= |stack| + Descent(cs)
    ensures |Resolve(stack, cs)| == |stack| + Descent(cs) <==> StaysBelow(|stack|, cs)
    decreases |cs|
  {
    if cs != [] {
      ClippedIff(Walk(stack, cs[0]), cs[1..]);
    }
  }

  lemma {:induction false} BelowStart(start: Components, stack: Components, cs: Components)
    requires StaysBelow(|stack|, cs)
    ensures Resolve(start + stack, cs) == start + Resolve(stack, cs)
    decreases |cs|
  {
    if cs != [] {
      assert Walk(start + stack, cs[0]) == start + Walk(stack, cs[0]);
      BelowStart(start, Walk(stack, cs[0]), cs[1..]);
    }
  }

  /** A normalised path leads down its components. */
  lemma NormalReaches(start: Components, p: string)
    ensures Reached(start, Normal(p)) == (if IsAbsolute(p) then [] else start) + Parts(p)
  {
    hide Split, TrueSplit;
    var root := if IsAbsolute(p) then [] else start;
    PartsAreNormal(p);
    PrintIsAbsolute(IsAbsolute(p), Parts(p));
    ResolveNormal(root, Parts(p));
    PrintTrueSplits(IsAbsolute(p), Parts(p));
    if !IsAbsolute(p) && Parts(p) == [] {
      assert ["."][1..] == [];
      assert Resolve(root, ["."]) == Resolve(Walk(root, "."), []);
    }
  }

  lemma PrintTrueSplits(absolute: bool, cs: Components)
    requires AllNormal(cs)
    ensures TrueSplit(Print(absolute, cs)) == if !absolute && cs == [] then ["."] else cs
  {
    TrueSplitListed(cs);
    if absolute {
      TrueSplitSlash("", "", Listed(cs));
      assert "" + "/" + Listed(cs) == "/" + Listed(cs);
    } else {
      TrueSplitPlain("", ".");
      assert "" + "." == ".";
    }
  }

  /** The normalised path leads where the path does, from every directory, exactly if the
      path is absolute or never climbs above the directory it sets out from, and every
      component that is left is short enough for the buffer. */
  lemma SamePlaceIff(p: string)
    ensures (forall start :: Reached(start, Normal(p)) == Reached(start, p))
            <==> (IsAbsolute(p) || StaysBelow(0, TrueSplit(p))) && AllFit(Resolve([], TrueSplit(p)))
  {
    hide Split, SplitFrom, TrueSplit, TrueSplitFrom, Normal, StaysBelow, AllFit, Resolve;
    var cs := TrueSplit(p);
    var left := Resolve([], cs);
    PartsAreCut(p);
    CutAllIff(left);
    forall start
      ensures (IsAbsolute(p) || StaysBelow(0, cs)) && AllFit(left) ==> Reached(start, Normal(p)) == Reached(start, p)
    {
      NormalReaches(start, p);
      if !IsAbsolute(p) && StaysBelow(0, cs) {
        BelowStart(start, [], cs);
        assert start + [] == start;
      }
    }
    if forall start :: Reached(start, Normal(p)) == Reached(start, p) {
      var start := if IsAbsolute(p) then [] else seq(|cs|, _ => "d");
      NormalReaches(start, p);
      assert start + CutAll(left) == Resolve(start, cs);
      if !IsAbsolute(p) {
        DeepEnough(|start|, cs);
        ClippedIff(start, cs);
        ClippedIff([], cs);
        BelowStart(start, [], cs);
        assert start + [] == start;
      }
      assert CutAll(left) == (start + CutAll(left))[|start|..] == (start + left)[|start|..] == left;
    }
  }

  /** One that is not: below the root a longer name leads to another place. */
  lemma LongNameLeadsElsewhere(c: string)
    requires '/' !in c && |c| >= PATH_MAX
    ensures IsAbsolute("/" + c) && Reached([], "/" + c) == [c]
    ensures Reached([], Normal("/" + c)) == [c[..PATH_MAX - 1]]
  {
    var p := "/" + c;
    assert p[1..] == c && [c][1..] == [];
    TrueSplitPlain("", c);
    assert "" + c == c;
    assert TrueSplit(p) == [] + TrueSplit(c) == [c];
    assert Resolve([], [c]) == Resolve(Walk([], c), []) == [c];
    PartsAreCut(p);
    NormalReaches([], p);
    assert CutAll([c]) == [c[..PATH_MAX - 1]];
  }

  // ---------------------------------------------------------------- seams

  predicate EndsWithSep(p: string) {
    p != "" && IsSeparator(p[|p| - 1])
  }

  /** Between two paths that are not empty a join leaves just one separator more than they
      have at the seam themselves, or one less if both have one there. */
  lemma JoinSeam(a: string, b: string)
    ensures a == "" ==> Joined(a, b) == b
    ensures b == "" ==> Joined(a, b) == a
    ensures a != "" && b != "" ==>
              var left := if EndsWithSep(a) then a[..|a| - 1] else a;
              var right := if IsAbsolute(b) then b[1..] else b;
              Joined(a, b) == left + "/" + right
  {
    if EndsWithSep(a) {
      assert a == a[..|a| - 1] + "/";
    }
    if IsAbsolute(b) {
      assert b == "/" + b[1..];
    }
  }

  /** A path with a separator is what lies before the last one, that separator and its base
      name; what lies before is its directory, unless that is nothing. */
  lemma DirnameIs(p: string)
    ensures '/' !in p ==> Dirname(p) == "." && Basename(p) == p
    ensures '/' in p ==>
              exists front: string ::
                p == front + "/" + Basename(p) && Dirname(p) == if front == "" then "/" else front
  {
    var i := LastSep(p);
    if i >= 0 {
      assert p == p[..i] + "/" + Basename(p);
    }
  }
}
