/** The path predicates of the VFS layer: loops that walk a string by position,
    against what they say about the list of path components. */
module Paths {

  // ----- the component list -----

  /** Length of the component a string starts with: up to the first '/' or the end. */
  function HeadLen(s: string): (n: nat)
    ensures n <= |s|
    ensures forall i :: 0 <= i < n ==> s[i] != '/'
    ensures n < |s| ==> s[n] == '/'
  {
    if s == "" || s[0] == '/' then 0 else 1 + HeadLen(s[1..])
  }

  /** The non-empty components of a path, in order. */
  function Components(s: string): (cs: seq<string>)
    ensures forall i :: 0 <= i < |cs| ==> cs[i] != "" && '/' !in cs[i]
    decreases |s|
  {
    if s == "" then []
    else if s[0] == '/' then Components(s[1..])
    else [s[..HeadLen(s)]] + Components(s[HeadLen(s)..])
  }

  /** What has no separator is one component, or none. */
  lemma ComponentsWhole(s: string)
    requires '/' !in s
    ensures Components(s) == if s == "" then [] else [s]
  {
    HeadIs(s, |s|);
    assert s[..|s|] == s;
  }

  /** A separator between two paths puts their components side by side. */
  lemma {:induction false} ComponentsJoin(a: string, b: string)
    ensures Components(a + "/" + b) == Components(a) + Components(b)
    decreases |a|
  {
    var s := a + "/" + b;
    if a == "" {
      assert s[1..] == b;
    } else if a[0] == '/' {
      ComponentsJoin(a[1..], b);
      assert s[1..] == a[1..] + "/" + b;
    } else {
      var n := HeadLen(a);
      JoinHead(a, b);
      hide HeadLen;
      ComponentsJoin(a[n..], b);
    }
  }

  /** The first component of a joined path is that of its first part. */
  lemma JoinHead(a: string, b: string)
    requires a != "" && a[0] != '/'
    ensures var s, n := a + "/" + b, HeadLen(a);
            0 < n == HeadLen(s) && s[..n] == a[..n] && s[n..] == a[n..] + "/" + b
  {
    var n := HeadLen(a);
    assert n > 0;
    hide HeadLen;
    JoinSlices(a, b, n);
    HeadIs(a + "/" + b, n);
  }

  lemma JoinSlices(a: string, b: string, n: nat)
    requires n <= |a|
    ensures var s := a + "/" + b;
            && |s| == |a| + 1 + |b| && s[..n] == a[..n] && s[n..] == a[n..] + "/" + b
            && (forall j :: 0 <= j < n ==> s[j] == a[j]) && s[n] == if n < |a| then a[n] else '/'
  {
  }

  const DOT := "."
  const DOT_DOT := ".."

  /** Walking the components from the root: "." stays, ".." goes up but not above
      the root, anything else goes down. */
  function Resolve(cs: seq<string>): (stack: seq<string>) {
    if cs == [] then []
    else
      var above, c := Resolve(cs[..|cs| - 1]), cs[|cs| - 1];
      if c == DOT then above
      else if c == DOT_DOT then (if above == [] then [] else above[..|above| - 1])
      else above + [c]
  }

  lemma ResolveSnoc(cs: seq<string>, c: string)
    ensures Resolve(cs + [c]) ==
              var above := Resolve(cs);
              if c == DOT then above
              else if c == DOT_DOT then (if above == [] then [] else above[..|above| - 1])
              else above + [c]
  {
    assert (cs + [c])[..|cs|] == cs;
  }

  /** "." goes nowhere, going down and up again comes back, and above the root is the
      root. */
  lemma ResolveDots(cs: seq<string>, c: string)
    requires c != "." && c != ".."
    ensures Resolve(cs + ["."]) == Resolve(cs)
    ensures Resolve(cs + [c] + [".."]) == Resolve(cs)
    ensures Resolve([".."] + cs) == Resolve(cs)
  {
    ResolveSnoc(cs, ".");
    ResolveSnoc(cs, c);
    ResolveSnoc(cs + [c], "..");
    ResolveAbove(cs);
  }

  lemma {:induction false} ResolveAbove(cs: seq<string>)
    ensures Resolve([".."] + cs) == Resolve(cs)
  {
    if cs == [] {
      assert [".."] + cs == [".."];
      assert [".."][..0] == [];
    } else {
      var front, c := cs[..|cs| - 1], cs[|cs| - 1];
      ResolveAbove(front);
      assert ([".."] + cs)[..|cs|] == [".."] + front;
    }
  }

  lemma ResolveNone()
    ensures Resolve([]) == []
  {
  }

  /** Without dot components a path resolves to itself, so only the root's own
      spellings resolve to the root. */
  lemma {:induction false} ResolvePlain(cs: seq<string>)
    requires DOT !in cs && DOT_DOT !in cs
    ensures Resolve(cs) == cs
  {
    if cs != [] {
      var front, c := cs[..|cs| - 1], cs[|cs| - 1];
      assert c in cs;
      assert forall x :: x in front ==> x in cs;
      ResolvePlain(front);
      assert cs == front + [c];
    }
  }

  // ----- positions inside a path -----

  /** Skipping separators does not change the components that follow. */
  lemma SkipSlash(s: string, i: nat)
    requires i < |s| && s[i] == '/'
    ensures Components(s[i..]) == Components(s[i + 1..])
  {
    assert s[i..][1..] == s[i + 1..];
  }

  /** At a component's first character the rest splits into it and what follows. */
  lemma TakeComponent(s: string, i: nat, end: nat)
    requires i < end <= |s|
    requires forall j :: i <= j < end ==> s[j] != '/'
    requires end < |s| ==> s[end] == '/'
    ensures Components(s[i..]) == [s[i..end]] + Components(s[end..])
  {
    var r := s[i..];
    HeadIs(r, end - i);
    assert r[..end - i] == s[i..end] && r[end - i..] == s[end..];
  }

  lemma {:induction false} HeadIs(r: string, n: nat)
    requires n <= |r|
    requires forall j :: 0 <= j < n ==> r[j] != '/'
    requires n < |r| ==> r[n] == '/'
    ensures HeadLen(r) == n
  {
    if n != 0 {
      assert r[0] != '/';
      HeadIs(r[1..], n - 1);
    }
  }

  method SkipSlashes(s: string, start: nat) returns (i: nat)
    requires start <= |s|
    ensures start <= i <= |s|
    ensures i < |s| ==> s[i] != '/'
    ensures Components(s[i..]) == Components(s[start..])
  {
    i := start;
    while i < |s| && s[i] == '/'
      invariant start <= i <= |s|
      invariant Components(s[i..]) == Components(s[start..])
    {
      SkipSlash(s, i);
      i := i + 1;
    }
  }

  method FindEnd(s: string, start: nat) returns (end: nat)
    requires start <= |s|
    ensures start <= end <= |s|
    ensures forall j :: start <= j < end ==> s[j] != '/'
    ensures end < |s| ==> s[end] == '/'
  {
    end := start;
    while end < |s| && s[end] != '/'
      invariant start <= end <= |s|
      invariant forall j :: start <= j < end ==> s[j] != '/'
    {
      end := end + 1;
    }
  }

  // ----- the predicates -----

  ghost predicate ProperPrefix(a: seq<string>, b: seq<string>) {
    |a| < |b| && b[..|a|] == a
  }

  /** Lists that agree on `done` and then differ, or where the second ends. */
  lemma NotPrefix(done: seq<string>, a: string, resta: seq<string>, b: seq<string>)
    requires b == [] || b[0] != a
    ensures !ProperPrefix(done + ([a] + resta), done + b)
  {
    var x, y := done + ([a] + resta), done + b;
    assert x[|done|] == a;
    assert b != [] ==> y[|done|] == b[0];
    assert |x| < |y| ==> y[..|x|][|done|] == y[|done|];
  }

  /** Consuming one component moves it from the rest to the list already read. */
  lemma ReadComponent(s: string, done: seq<string>, i: nat, end: nat)
    requires i < end <= |s|
    requires forall j :: i <= j < end ==> s[j] != '/'
    requires end < |s| ==> s[end] == '/'
    requires Components(s) == done + Components(s[i..])
    ensures Components(s) == (done + [s[i..end]]) + Components(s[end..])
    ensures Components(s) == done + ([s[i..end]] + Components(s[end..]))
  {
    TakeComponent(s, i, end);
    assert (done + [s[i..end]]) + Components(s[end..]) == done + ([s[i..end]] + Components(s[end..]));
  }

  /** With nothing left to read, the list already read is all of it. */
  lemma ReadAll(s: string, done: seq<string>, i: nat)
    requires i == |s| && Components(s) == done + Components(s[i..])
    ensures Components(s) == done
  {
    assert s[i..] == "";
  }

  lemma ReadNone(s: string)
    ensures Components(s) == [] + Components(s[0..])
  {
    assert s[0..] == s;
  }

  /** Something other than a separator is left exactly when a component is. */
  lemma MoreToRead(s: string, i: nat)
    requires i <= |s| && (i < |s| ==> s[i] != '/')
    ensures i < |s| <==> Components(s[i..]) != []
  {
  }

  /** True exactly when the parent's components are a proper prefix of the child's,
      however either path is spelled. */
  method PathIsStrictDescendant(parent: string, child: string) returns (descendant: bool)
    ensures descendant <==> ProperPrefix(Components(parent), Components(child))
  {
    hide Components, HeadLen;
    var p, c := 0, 0;
    ghost var done: seq<string> := [];
    ReadNone(parent);
    ReadNone(child);
    while p < |parent|
      invariant p <= |parent| && c <= |child|
      invariant Components(parent) == done + Components(parent[p..])
      invariant Components(child) == done + Components(child[c..])
      decreases |parent| - p
    {
      p := SkipSlashes(parent, p);
      c := SkipSlashes(child, c);
      if p == |parent| {
        break;
      }
      var parentEnd := FindEnd(parent, p);
      var childEnd := FindEnd(child, c);
      ReadComponent(parent, done, p, parentEnd);
      MoreToRead(child, c);
      if c < |child| { TakeComponent(child, c, childEnd); }
      if parentEnd - p != childEnd - c || parent[p..parentEnd] != child[c..childEnd] {
        NotPrefix(done, parent[p..parentEnd], Components(parent[parentEnd..]), Components(child[c..]));
        return false;
      }
      ReadComponent(child, done, c, childEnd);
      done := done + [parent[p..parentEnd]];
      p := parentEnd;
      c := childEnd;
    }
    ReadAll(parent, done, p);
    c := SkipSlashes(child, c);
    descendant := c < |child|;
    MoreToRead(child, c);
  }

  /** True exactly when "." or ".." is a component. */
  method PathHasDotComponent(path: string) returns (dots: bool)
    ensures dots <==> DOT in Components(path) || DOT_DOT in Components(path)
  {
    hide Components, HeadLen;
    var component := 0;
    ghost var done: seq<string> := [];
    ReadNone(path);
    while component < |path|
      invariant component <= |path|
      invariant Components(path) == done + Components(path[component..])
      invariant DOT !in done && DOT_DOT !in done
      decreases |path| - component
    {
      component := SkipSlashes(path, component);
      var end := FindEnd(path, component);
      var length := end - component;
      ghost var c := path[component..end];
      if component < end {
        ReadComponent(path, done, component, end);
        done := done + [c];
        assert c in done;
      }
      if (length == 1 && path[component] == '.')
         || (length == 2 && path[component] == '.' && path[component + 1] == '.') {
        assert c == DOT || c == DOT_DOT;
        return true;
      }
      component := end;
    }
    ReadAll(path, done, component);
    return false;
  }

  /** True exactly when the path resolves to the mount root. */
  method PathIsMountRoot(relativePath: string) returns (atRoot: bool)
    ensures atRoot <==> Resolve(Components(relativePath)) == []
  {
    hide Components, HeadLen, Resolve;
    var component, depth := 0, 0;
    ghost var done: seq<string> := [];
    ReadNone(relativePath);
    ResolveNone();
    while component < |relativePath|
      invariant component <= |relativePath|
      invariant Components(relativePath) == done + Components(relativePath[component..])
      invariant depth == |Resolve(done)|
      decreases |relativePath| - component
    {
      component := SkipSlashes(relativePath, component);
      var end := FindEnd(relativePath, component);
      var length := end - component;
      ghost var c := relativePath[component..end];
      if component < end {
        ReadComponent(relativePath, done, component, end);
        ResolveSnoc(done, c);
        done := done + [c];
      }
      if length == 0 || (length == 1 && relativePath[component] == '.') {
        // no change in depth
        assert length == 1 ==> c == DOT;
      } else if length == 2 && relativePath[component] == '.' && relativePath[component + 1] == '.' {
        assert c == DOT_DOT;
        if depth != 0 {
          depth := depth - 1;
        }
      } else {
        assert c != DOT && c != DOT_DOT;
        depth := depth + 1;
      }
      component := end;
    }
    ReadAll(relativePath, done, component);
    atRoot := depth == 0;
  }
}
