/** A slash-separated path and its components. */
module Paths {

  const Delimiter: char := '/'

  /** An absolute path starts with the delimiter. The source reads the first
      character without checking, so an empty path is outside its domain. An
      absolute path has the components of the same path without its root. */
  predicate IsAbsolute(path: string)
    requires |path| > 0
    ensures IsAbsolute(path) ==> Components(path) == Components(path[1..])
  {
    if path[0] == Delimiter then
      ExtraDelimitersIgnored(path[1..], []);
      assert [Delimiter] + path[1..] == path;
      true
    else
      false
  }

  /** Reference definition of the components: scanning left to right, `cur` is
      the component read so far; a delimiter ends it, and empty ones are dropped. */
  function ComponentsFrom(path: string, cur: string): seq<string>
    decreases |path|
  {
    if path == [] then
      (if cur == [] then [] else [cur])
    else if path[0] == Delimiter then
      (if cur == [] then [] else [cur]) + ComponentsFrom(path[1..], [])
    else
      ComponentsFrom(path[1..], cur + [path[0]])
  }

  function Components(path: string): seq<string> {
    ComponentsFrom(path, [])
  }

  predicate SlashFree(s: string) {
    forall i :: 0 <= i < |s| ==> s[i] != Delimiter
  }

  /** The components are non-empty and contain no delimiter. */
  predicate WellFormed(cs: seq<string>) {
    forall k :: 0 <= k < |cs| ==> cs[k] != [] && SlashFree(cs[k])
  }

  /** Joins components with single delimiters. */
  function Join(cs: seq<string>): string {
    if cs == [] then [] else if |cs| == 1 then cs[0] else cs[0] + [Delimiter] + Join(cs[1..])
  }

  lemma {:induction false} ComponentsFromWellFormed(path: string, cur: string)
    requires SlashFree(cur)
    ensures WellFormed(ComponentsFrom(path, cur))
    decreases |path|
  {
    if path == [] {
    } else if path[0] == Delimiter {
      ComponentsFromWellFormed(path[1..], []);
    } else {
      ComponentsFromWellFormed(path[1..], cur + [path[0]]);
    }
  }

  /** No component is empty or contains the delimiter. */
  lemma ComponentsWellFormed(path: string)
    ensures WellFormed(Components(path))
  {
    ComponentsFromWellFormed(path, []);
  }

  /** Reading a delimiter-free stretch only extends the current component. */
  lemma {:induction false} ComponentsFromSlashFree(s: string, rest: string, cur: string)
    requires SlashFree(s)
    ensures ComponentsFrom(s + rest, cur) == ComponentsFrom(rest, cur + s)
    decreases |s|
  {
    if s == [] {
      assert s + rest == rest;
      assert cur + s == cur;
    } else {
      assert (s + rest)[1..] == s[1..] + rest;
      assert cur + [s[0]] + s[1..] == cur + s;
      ComponentsFromSlashFree(s[1..], rest, cur + [s[0]]);
    }
  }

  /** A delimiter splits the components: what comes before it and what comes
      after it are parsed independently. */
  lemma {:induction false} ComponentsFromSplit(a: string, b: string, cur: string)
    ensures ComponentsFrom(a + [Delimiter] + b, cur) == ComponentsFrom(a, cur) + Components(b)
    decreases |a|
  {
    if a == [] {
      assert a + [Delimiter] + b == [Delimiter] + b;
      assert ([Delimiter] + b)[1..] == b;
    } else {
      assert (a + [Delimiter] + b)[1..] == a[1..] + [Delimiter] + b;
      if a[0] == Delimiter {
        ComponentsFromSplit(a[1..], b, []);
        assert ComponentsFrom(a, cur) == (if cur == [] then [] else [cur]) + ComponentsFrom(a[1..], []);
      } else {
        ComponentsFromSplit(a[1..], b, cur + [a[0]]);
      }
    }
  }

  lemma ComponentsSplit(a: string, b: string)
    ensures Components(a + [Delimiter] + b) == Components(a) + Components(b)
  {
    ComponentsFromSplit(a, b, []);
  }

  /** A delimiter-free string is one component, or none when it is empty. */
  lemma ComponentsOfSlashFree(s: string)
    requires SlashFree(s)
    ensures Components(s) == if s == [] then [] else [s]
  {
    ComponentsFromSlashFree(s, [], []);
    assert s + [] == s;
    assert [] + s == s;
  }

  /** The empty path and the root path have no components. */
  lemma RootHasNoComponents()
    ensures Components([]) == []
    ensures Components([Delimiter]) == []
  {
    ComponentsSplit([], []);
    assert [] + [Delimiter] + [] == [Delimiter];
  }

  /** Leading, trailing and repeated delimiters do not change the components. */
  lemma ExtraDelimitersIgnored(a: string, b: string)
    ensures Components([Delimiter] + a) == Components(a)
    ensures Components(a + [Delimiter]) == Components(a)
    ensures Components(a + [Delimiter, Delimiter] + b) == Components(a + [Delimiter] + b)
  {
    ComponentsSplit([], a);
    assert [] + [Delimiter] + a == [Delimiter] + a;
    ComponentsSplit(a, []);
    RootHasNoComponents();
    assert a + [Delimiter] + [] == a + [Delimiter];
    ComponentsSplit(a, [Delimiter] + b);
    assert a + [Delimiter, Delimiter] + b == a + [Delimiter] + ([Delimiter] + b);
    ComponentsSplit(a, b);
  }

  /** Round trip: joining well-formed components and parsing the result gives
      them back. */
  lemma {:induction false} JoinComponents(cs: seq<string>)
    requires WellFormed(cs)
    ensures Components(Join(cs)) == cs
  {
    if cs == [] {
      RootHasNoComponents();
    } else if |cs| == 1 {
      ComponentsOfSlashFree(cs[0]);
    } else {
      assert WellFormed(cs[1..]) by {
        forall k | 0 <= k < |cs[1..]| ensures cs[1..][k] != [] && SlashFree(cs[1..][k]) {
          assert cs[1..][k] == cs[k + 1];
        }
      }
      JoinComponents(cs[1..]);
      ComponentsSplit(cs[0], Join(cs[1..]));
      ComponentsOfSlashFree(cs[0]);
      assert cs == [cs[0]] + cs[1..];
    }
  }

  /** `delims` lists -1, then every delimiter position in increasing order, then
      the length when the path does not end with a delimiter. */
  ghost predicate DelimiterPositions(path: string, delims: seq<int>) {
    && |delims| >= 1 && delims[0] == -1
    && (forall j :: 0 < j < |delims| ==> 0 <= delims[j] <= |path|)
    && (forall j :: 0 < j < |delims| && delims[j] < |path| ==> path[delims[j]] == Delimiter)
    && (forall j, k :: 0 <= j < k < |delims| ==> delims[j] < delims[k])
    && (forall x :: 0 <= x < |path| && path[x] == Delimiter ==> x in delims)
    && var last := delims[|delims| - 1];
       last == |path| || (0 <= last == |path| - 1 && path[last] == Delimiter) || (path == [] && last == -1)
  }

  /** First pass: the delimiter positions, framed by -1 and, when the path does
      not end with a delimiter, by its length. */
  method CollectDelimiters(path: string) returns (delims: seq<int>)
    ensures DelimiterPositions(path, delims)
  {
    delims := [-1];
    var i := 0;
    while i < |path|
      invariant 0 <= i <= |path|
      invariant |delims| >= 1 && delims[0] == -1
      invariant forall j :: 0 <= j < |delims| ==> -1 <= delims[j] < i
      invariant forall j :: 0 < j < |delims| ==> 0 <= delims[j] && path[delims[j]] == Delimiter
      invariant forall j, k :: 0 <= j < k < |delims| ==> delims[j] < delims[k]
      invariant forall x :: 0 <= x < i && path[x] == Delimiter ==> x in delims
    {
      if path[i] == Delimiter {
        delims := delims + [i];
      }
      i := i + 1;
    }
    if |path| > 0 && path[|path| - 1] != Delimiter {
      delims := delims + [|path|];
    }
  }

  /** Second pass: every non-empty stretch between two consecutive positions is
      a component. */
  method CutBetween(path: string, delims: seq<int>) returns (res: seq<string>)
    requires DelimiterPositions(path, delims)
    ensures res == Components(path)
  {
    res := [];
    var k := 0;
    while k + 1 < |delims|
      invariant 0 <= k < |delims|
      invariant res == Components(if delims[k] < 0 then [] else path[..delims[k]])
    {
      var beginPos := delims[k] + 1;
      var endPos := delims[k + 1];
      var seg := path[beginPos..endPos];
      assert SlashFree(seg) by {
        forall x | 0 <= x < |seg| ensures seg[x] != Delimiter {
          var y := beginPos + x;
          forall m | 0 <= m < |delims| ensures delims[m] != y {
            if m <= k {
              assert m == k || delims[m] < delims[k];
            } else {
              assert m == k + 1 || delims[k + 1] < delims[m];
            }
          }
          assert y !in delims;
        }
      }
      ComponentsOfSlashFree(seg);
      if delims[k] < 0 {
        assert path[..endPos] == seg;
      } else {
        assert path[..endPos] == path[..delims[k]] + [Delimiter] + seg;
        ComponentsSplit(path[..delims[k]], seg);
      }
      if beginPos != endPos {
        res := res + [seg];
      }
      k := k + 1;
    }
    var last := delims[|delims| - 1];
    if last == |path| {
      assert path[..last] == path;
    } else if last == -1 {
      RootHasNoComponents();
    } else {
      assert path == path[..last] + [Delimiter] + [];
      ComponentsSplit(path[..last], []);
      RootHasNoComponents();
    }
  }

  /** A path with its lazily computed components (the cache is only filled on
      the first call; an empty result is recomputed on every call). */
  class Path {
    const path: string
    var parsedPath: seq<string>

    ghost predicate Valid()
      reads this
    {
      parsedPath == [] || parsedPath == Components(path)
    }

    constructor (p: string)
      ensures path == p && parsedPath == [] && Valid()
    {
      path := p;
      parsedPath := [];
    }

    /** The components, computed on the first call and returned from the cache
        afterwards. */
    method GetParsedPath() returns (r: seq<string>)
      requires Valid()
      modifies this`parsedPath
      ensures Valid()
      ensures r == Components(path) && parsedPath == r
    {
      if parsedPath == [] {
        var delims := CollectDelimiters(path);
        parsedPath := CutBetween(path, delims);
      }
      r := parsedPath;
    }
  }
}
