/** The path operations of kernel/filepath/src/filepath.c on POSIX.

A path is the characters before its terminator.  Normalising parses the path into
components, resolves "." and ".." on a stack, and prints what is left.
*/
module Paths {
  import opened Options

  type Components = seq<string>

  const PATH_MAX: nat := 4096

  predicate IsSeparator(c: char) {
    c == '/'
  }

  predicate IsAbsolute(p: string) {
    p != "" && IsSeparator(p[0])
  }

  // ---------------------------------------------------------------- the functions

  /** The components of `p`, given the characters already collected; one too long for the
      buffer loses its end. */
  function SplitFrom(buf: string, p: string): Components
    decreases |p|
  {
    if p == "" then (if buf == "" then [] else [buf])
    else if IsSeparator(p[0]) then (if buf == "" then [] else [buf]) + SplitFrom("", p[1..])
    else SplitFrom(if |buf| < PATH_MAX - 1 then buf + [p[0]] else buf, p[1..])
  }

  function Split(p: string): Components {
    SplitFrom("", p)
  }

  function Walk(stack: Components, c: string): Components {
    if c == "." then stack
    else if c == ".." then (if stack == [] then [] else stack[..|stack| - 1])
    else stack + [c]
  }

  function Resolve(stack: Components, cs: Components): Components
    decreases |cs|
  {
    if cs == [] then stack else Resolve(Walk(stack, cs[0]), cs[1..])
  }

  /** The components with a separator between each two. */
  function Listed(cs: Components): string {
    if cs == [] then "" else if |cs| == 1 then cs[0] else cs[0] + "/" + Listed(cs[1..])
  }

  function Print(absolute: bool, cs: Components): string {
    if absolute then "/" + Listed(cs) else if Listed(cs) == "" then "." else Listed(cs)
  }

  function Normal(p: string): string {
    Print(IsAbsolute(p), Resolve([], Split(p)))
  }

  /** One round of the loop of `ak_filepath_join`. */
  function Joined(a: string, b: string): string {
    if b == "" then a
    else if a == "" then b
    else
      var needsSep := !IsSeparator(a[|a| - 1]);
      if needsSep && !IsSeparator(b[0]) then a + "/" + b
      else if !needsSep && IsSeparator(b[0]) then a + b[1..]
      else a + b
  }

  function JoinedAll(a: string, bs: seq<string>): string
    decreases |bs|
  {
    if bs == [] then a else JoinedAll(Joined(a, bs[0]), bs[1..])
  }

  /** The index of the last separator, -1 if there is none. */
  function LastSep(p: string): (i: int)
    ensures -1 <= i < |p|
    ensures i >= 0 ==> IsSeparator(p[i])
    ensures forall j :: i < j < |p| ==> !IsSeparator(p[j])
  {
    if p == "" then -1
    else if IsSeparator(p[|p| - 1]) then |p| - 1
    else
      var i := LastSep(p[..|p| - 1]);
      assert forall j :: i < j < |p| - 1 ==> p[..|p| - 1][j] == p[j];
      i
  }

  function Basename(p: string): string {
    p[LastSep(p) + 1..]
  }

  function Dirname(p: string): string {
    var i := LastSep(p);
    if i == -1 then "." else if i == 0 then "/" else p[..i]
  }

  // ---------------------------------------------------------------- the methods

  method Normalize(path: string) returns (result: string)
    ensures result == Normal(path)
  {
    var components: Components := [];
    var buf: string := "";
    var p := 0;
    while p < |path|
      invariant 0 <= p <= |path|
      invariant Resolve(components, SplitFrom(buf, path[p..])) == Resolve([], Split(path))
    {
      ghost var rest := path[p + 1..];
      assert path[p..][0] == path[p] && path[p..][1..] == rest;
      if IsSeparator(path[p]) {
        if |buf| > 0 {
          assert ([buf] + SplitFrom("", rest))[1..] == SplitFrom("", rest);
          components := Step(components, buf);
          buf := "";
        } else {
          assert [] + SplitFrom("", rest) == SplitFrom("", rest);
        }
      } else if |buf| < PATH_MAX - 1 {
        buf := buf + [path[p]];
      }
      p := p + 1;
    }
    assert path[p..] == "";
    if |buf| > 0 {
      assert [buf][1..] == [];
      components := Step(components, buf);
    }
    result := Printed(IsAbsolute(path), components);
  }

  /** What is done with a component: "." is skipped and ".." goes up one level. */
  method Step(components: Components, buf: string) returns (r: Components)
    ensures r == Walk(components, buf)
  {
    r := components;
    if buf == "." {
    } else if buf == ".." {
      if |components| > 0 {
        r := components[..|components| - 1];
      }
    } else {
      r := components + [buf];
    }
  }

  /** The components put together again, with a separator between any two. */
  method Printed(absolute: bool, components: Components) returns (result: string)
    ensures result == Print(absolute, components)
  {
    result := if absolute then "/" else "";
    ghost var root := result;
    var first := true;
    for i := 0 to |components|
      invariant first <==> i == 0
      invariant result == root + Listed(components[..i])
    {
      if !first {
        result := result + "/";
      }
      result := result + components[i];
      first := false;
      ListedAppend(components[..i], components[i]);
      assert components[..i] + [components[i]] == components[..i + 1];
    }
    assert components[..|components|] == components;
    if result == "" && !absolute {
      result := ".";
    }
  }

  lemma {:induction false} ListedAppend(cs: Components, c: string)
    ensures Listed(cs + [c]) == if cs == [] then c else Listed(cs) + "/" + c
  {
    if cs != [] {
      assert (cs + [c])[0] == cs[0] && (cs + [c])[1..] == cs[1..] + [c];
      ListedAppend(cs[1..], c);
      if |cs| > 1 {
        assert cs[0] + "/" + (Listed(cs[1..]) + "/" + c) == cs[0] + "/" + Listed(cs[1..]) + "/" + c;
      }
    }
  }

  /** `ak_filepath_join`, a component that is NULL passed as the empty string. */
  method Join(components: seq<string>) returns (result: string)
    ensures result == JoinedAll("", components)
  {
    result := "";
    for i := 0 to |components|
      invariant JoinedAll(result, components[i..]) == JoinedAll("", components)
    {
      assert components[i..][0] == components[i] && components[i..][1..] == components[i + 1..];
      var component := components[i];
      if component == "" {
        continue;
      }
      if result == "" {
        result := component;
        continue;
      }
      var needsSep := !IsSeparator(result[|result| - 1]);
      var startsWithSep := IsSeparator(component[0]);
      if needsSep && !startsWithSep {
        result := result + "/";
      } else if !needsSep && startsWithSep {
        component := component[1..];
      }
      result := result + component;
    }
    assert components[|components|..] == [];
  }

  method FindLastSep(path: string) returns (lastSep: int)
    ensures lastSep == LastSep(path)
  {
    lastSep := -1;
    var p := 0;
    while p < |path|
      invariant 0 <= p <= |path| && -1 <= lastSep < p
      invariant lastSep >= 0 ==> IsSeparator(path[lastSep])
      invariant forall j :: lastSep < j < p ==> !IsSeparator(path[j])
    {
      if IsSeparator(path[p]) {
        lastSep := p;
      }
      p := p + 1;
    }
  }

  method BasenameOf(path: string) returns (r: Option<string>)
    ensures r == if path == "" then None else Some(Basename(path))
  {
    if path == "" {
      return None;
    }
    var lastSep := FindLastSep(path);
    if lastSep == -1 {
      return Some(path);
    }
    return Some(path[lastSep + 1..]);
  }

  method DirnameOf(path: string) returns (r: Option<string>)
    ensures r == if path == "" then None else Some(Dirname(path))
  {
    if path == "" {
      return None;
    }
    var lastSep := FindLastSep(path);
    if lastSep == -1 {
      return Some(".");
    }
    if lastSep == 0 {
      return Some("/");
    }
    return Some(path[..lastSep]);
  }
}
