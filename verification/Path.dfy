/** Path names in sysfile.c: canonicalize_absolute_path and resolve_cwd_path. A C string is
    the sequence of its characters without the closing zero. */
module Path {
  import opened Basics

  const EXT2_NAME_LEN := 255
  const MAX_FILE_PATH := 255

  type Name = seq<char>

  // ---- what a path means ----

  function SegmentLength(p: seq<char>): (n: nat)
    ensures n <= |p| && (forall i :: 0 <= i < n ==> p[i] != '/') && (n < |p| ==> p[n] == '/')
  {
    if p == [] || p[0] == '/' then 0 else 1 + SegmentLength(p[1..])
  }

  /** The nonempty stretches between slashes. */
  function Components(p: seq<char>): seq<Name>
    decreases |p|
  {
    if p == [] then []
    else if p[0] == '/' then Components(p[1..])
    else
      var n := SegmentLength(p);
      [p[..n]] + Components(p[n..])
  }

  /** One component: "." stays, ".." goes up and stays at the root, a name goes down. */
  function Walk(dir: seq<Name>, name: Name): seq<Name> {
    if name == "." then dir
    else if name == ".." then if dir == [] then [] else dir[..|dir| - 1]
    else dir + [name]
  }

  function WalkAll(dir: seq<Name>, names: seq<Name>): seq<Name> {
    if names == [] then dir else Walk(WalkAll(dir, names[..|names| - 1]), names[|names| - 1])
  }

  /** "/" and the names joined by "/". */
  function Render(dir: seq<Name>): (s: seq<char>)
    ensures |s| >= 1 && s[0] == '/'
  {
    if dir == [] then "/"
    else if |dir| == 1 then "/" + dir[0]
    else Render(dir[..|dir| - 1]) + "/" + dir[|dir| - 1]
  }

  /** A directory the code can hold. */
  predicate Fits(dir: seq<Name>, outsz: int) {
    && |Render(dir)| < outsz && |dir| <= MAX_FILE_PATH
    && forall i :: 0 <= i < |dir| ==> |dir[i]| <= EXT2_NAME_LEN
  }

  /** Every directory on the way fits. */
  predicate WayFits(names: seq<Name>, outsz: int) {
    forall k :: 0 <= k <= |names| ==> Fits(WalkAll([], names[..k]), outsz)
  }

  /** A name that Walk goes down. */
  predicate Proper(name: Name) { name != [] && '/' !in name && name != "." && name != ".." }

  predicate AllProper(dir: seq<Name>) { forall i :: 0 <= i < |dir| ==> Proper(dir[i]) }

  lemma RenderPush(dir: seq<Name>, name: Name)
    ensures Render(dir + [name]) == (if dir == [] then "/" else Render(dir) + "/") + name
  {
    assert (dir + [name])[..|dir|] == dir;
  }

  lemma RenderStep(dir: seq<Name>, k: nat)
    requires k < |dir| && AllProper(dir)
    ensures Render(dir[..k]) <= Render(dir[..k + 1]) && |Render(dir[..k])| < |Render(dir[..k + 1])|
  {
    assert dir[..k + 1] == dir[..k] + [dir[k]];
    RenderPush(dir[..k], dir[k]);
  }

  /** A directory is written in front of everything below it, so going up is cutting off. */
  lemma {:induction false} RenderPrefix(dir: seq<Name>, k: nat)
    requires k <= |dir| && AllProper(dir)
    ensures Render(dir[..k]) <= Render(dir)
    decreases |dir| - k
  {
    hide Render;
    if k == |dir| {
      assert dir[..k] == dir;
    } else {
      RenderPrefix(dir, k + 1);
      RenderStep(dir, k);
    }
  }

  lemma RenderLonger(dir: seq<Name>)
    requires AllProper(dir)
    ensures |Render(dir)| > 1 <==> dir != []
  {
    if dir != [] { RenderStep(dir, |dir| - 1); assert dir[..|dir|] == dir; }
  }

  lemma WalkOne(names: seq<Name>, name: Name)
    ensures WalkAll([], names + [name]) == Walk(WalkAll([], names), name)
  {
    assert (names + [name])[..|names|] == names;
  }

  lemma {:induction false} WalkProper(dir: seq<Name>, names: seq<Name>)
    requires AllProper(dir) && forall i :: 0 <= i < |names| ==> names[i] != [] && '/' !in names[i]
    ensures AllProper(WalkAll(dir, names))
  {
    if names != [] {
      WalkProper(dir, names[..|names| - 1]);
    }
  }

  // ---- reading components ----

  /** The inner loop that steps over slashes. */
  method SkipSlashes(path: seq<char>, start: nat) returns (p: nat)
    requires start <= |path|
    ensures start <= p <= |path| && (p < |path| ==> path[p] != '/')
    ensures start < |path| && path[start] == '/' ==> p > start
    ensures Components(path[p..]) == Components(path[start..])
  {
    p := start;
    while p < |path| && path[p] == '/'
      invariant start <= p <= |path|
      invariant start < |path| && path[start] == '/' && p == start ==> path[p] == '/'
      invariant Components(path[p..]) == Components(path[start..])
    {
      assert path[p..][1..] == path[p + 1..];
      p := p + 1;
    }
  }

  /** The inner loop that finds the end of a segment. */
  method SegmentEnd(path: seq<char>, start: nat) returns (p: nat)
    requires start <= |path|
    ensures start <= p <= |path| && '/' !in path[start..p] && (p == start && p < |path| ==> path[p] == '/')
    ensures p > start ==> Components(path[start..]) == [path[start..p]] + Components(path[p..])
  {
    p := start;
    while p < |path| && path[p] != '/'
      invariant start <= p <= |path| && '/' !in path[start..p]
    {
      OneCharMore(path, start, p);
      p := p + 1;
    }
    if p > start { SegmentAt(path, start, p); }
  }

  lemma OneCharMore(path: seq<char>, start: nat, p: nat)
    requires start <= p < |path| && '/' !in path[start..p] && path[p] != '/'
    ensures '/' !in path[start..p + 1]
  {
    assert path[start..p + 1] == path[start..p] + [path[p]];
  }

  lemma SegmentAt(path: seq<char>, start: nat, p: nat)
    requires start < p <= |path| && '/' !in path[start..p] && (p < |path| ==> path[p] == '/')
    ensures Components(path[start..]) == [path[start..p]] + Components(path[p..])
  {
    hide Components;
    var rest := path[start..];
    assert forall i :: 0 <= i < p - start ==> rest[i] == path[start..p][i];
    FirstSegment(rest, p - start);
    assert rest[..p - start] == path[start..p];
    assert rest[p - start..] == path[p..];
  }

  lemma FirstSegment(s: seq<char>, n: nat)
    requires 0 < n <= |s| && (forall i :: 0 <= i < n ==> s[i] != '/') && (n < |s| ==> s[n] == '/')
    ensures Components(s) == [s[..n]] + Components(s[n..])
  {
    assert SegmentLength(s) == n;
  }

  // ---- canonicalize_absolute_path ----

  /** The buffer holds dir as a C string, and the stack the lengths to go back to. */
  ghost predicate Holds(output: seq<char>, stack: seq<int>, depth: int, len: int, dir: seq<Name>) {
    && depth == |dir| <= |stack| && len == |Render(dir)| < |output|
    && output[..len] == Render(dir) && output[len] == NUL
    && forall k :: 0 <= k < depth ==> stack[k] == |Render(dir[..k])|
  }

  lemma HoldsParent(output: seq<char>, stack: seq<int>, len: int, dir: seq<Name>)
    requires dir != [] && AllProper(dir) && Holds(output, stack, |dir|, len, dir)
    ensures var up := stack[|dir| - 1];
            0 <= up < |output| && Holds(output[up := NUL], stack, |dir| - 1, up, dir[..|dir| - 1])
  {
    var parent := dir[..|dir| - 1];
    RenderPrefix(dir, |dir| - 1);
    forall k | 0 <= k < |dir| - 1 ensures stack[k] == |Render(parent[..k])| {
      assert parent[..k] == dir[..k];
    }
  }

  /** Appending a name, with the checks in the order of the code. */
  method Push(output: array<char>, stack: array<int>, outsz: int, len: nat, depth: nat, name: Name,
              ghost dir: seq<Name>)
    returns (ok: bool, len': nat)
    requires 1 < outsz <= output.Length && stack.Length == MAX_FILE_PATH && Proper(name) && AllProper(dir)
    requires Holds(output[..], stack[..], depth, len, dir) && Fits(dir, outsz)
    modifies output, stack
    ensures ok <==> Fits(dir + [name], outsz)
    ensures ok ==> Holds(output[..], stack[..], depth + 1, len', dir + [name])
  {
    hide Holds, Render, Fits, AllProper;
    HoldsLength(output[..], stack[..], depth, len, dir, outsz);
    FitsPush(dir, name, outsz);
    len' := len;
    if |name| > EXT2_NAME_LEN {
      return false, len';
    }
    if depth >= MAX_FILE_PATH {
      return false, len';
    }
    ghost var before, was := output[..], stack[..];
    if len > 1 {
      if len + 1 >= outsz {
        return false, len';
      }
      output[len] := '/';
      len' := len + 1;
    }
    if len' + |name| >= outsz {
      return false, len';
    }
    ghost var base := output[..len'];
    assert base == if dir == [] then before[..len] else before[..len] + "/";
    Copy(output, len', name);
    len' := len' + |name|;
    output[len'] := NUL;
    assert output[..len'] == base + name;
    stack[depth] := len;
    HoldsPush(before, was, output[..], stack[..], depth, len, len', dir, name);
    ok := true;
  }

  /** memmove(buf + at, s, |s|) */
  method Copy(buf: array<char>, at: nat, s: seq<char>)
    requires at + |s| <= buf.Length
    modifies buf
    ensures buf[..at + |s|] == old(buf[..at]) + s
    ensures buf[at + |s|..] == old(buf[at + |s|..])
  {
    ghost var was := buf[..];
    var i := 0;
    while i < |s|
      invariant 0 <= i <= |s|
      invariant buf[..at + i] == was[..at] + s[..i]
      invariant buf[at + i..] == was[at + i..]
    {
      ghost var now := buf[..];
      buf[at + i] := s[i];
      assert buf[..at + i + 1] == now[..at + i] + [s[i]];
      assert s[..i + 1] == s[..i] + [s[i]];
      assert buf[at + i + 1..] == now[at + i..][1..];
      i := i + 1;
    }
    assert s[..i] == s;
  }

  lemma HoldsLength(output: seq<char>, stack: seq<int>, depth: int, len: int, dir: seq<Name>, outsz: int)
    requires Holds(output, stack, depth, len, dir) && AllProper(dir) && Fits(dir, outsz)
    ensures depth == |dir| <= |stack| && 0 < len == |Render(dir)| < outsz && len < |output|
    ensures output[..len] == Render(dir) && (len > 1 <==> dir != []) && (dir == [] ==> Render(dir) == "/")
  {
    RenderLonger(dir);
  }

  /** What one more name adds to what has to fit. */
  lemma FitsPush(dir: seq<Name>, name: Name, outsz: int)
    requires Fits(dir, outsz)
    ensures Render(dir + [name]) == (if dir == [] then "/" else Render(dir) + "/") + name
    ensures Fits(dir + [name], outsz) <==>
            |name| <= EXT2_NAME_LEN && |dir| < MAX_FILE_PATH && |Render(dir + [name])| < outsz
  {
    hide Render;
    var more := dir + [name];
    RenderPush(dir, name);
    assert more[|dir|] == name;
    forall i | 0 <= i < |dir| ensures more[i] == dir[i] {}
  }

  lemma HoldsPush(before: seq<char>, was: seq<int>, output: seq<char>, stack: seq<int>, depth: nat, len: nat, len': nat,
                  dir: seq<Name>, name: Name)
    requires Holds(before, was, depth, len, dir) && depth < |was|
    requires stack == was[depth := len] && len' < |output| && output[len'] == NUL
    requires output[..len'] == Render(dir + [name])
    ensures Holds(output, stack, depth + 1, len', dir + [name])
  {
    hide Render;
    var more := dir + [name];
    forall k | 0 <= k < depth + 1 ensures stack[k] == |Render(more[..k])| {
      if k < depth {
        assert more[..k] == dir[..k];
      } else {
        assert more[..k] == dir;
      }
    }
  }

  /** What holds before each segment: done are the components walked so far. */
  ghost predicate Underway(path: seq<char>, p: nat, outsz: int, done: seq<Name>, dir: seq<Name>) {
    && p <= |path|
    && Components(path) == done + Components(path[p..])
    && dir == WalkAll([], done) && AllProper(dir)
    && WayFits(done, outsz)
  }

  lemma Started(path: seq<char>, p: nat, outsz: int)
    requires p <= |path| && Components(path[p..]) == Components(path) && outsz > 1
    ensures Underway(path, p, outsz, [], [])
  {
    assert Render([]) == "/";
  }

  /** Walking one more segment. */
  lemma OneMore(path: seq<char>, p: nat, end: nat, outsz: int, done: seq<Name>, dir: seq<Name>)
    requires Underway(path, p, outsz, done, dir) && p < end <= |path| && '/' !in path[p..end]
    requires Components(path[p..]) == [path[p..end]] + Components(path[end..])
    ensures var name := path[p..end];
            var now := Walk(dir, name);
            && (Fits(now, outsz) ==> Underway(path, end, outsz, done + [name], now))
            && (!Fits(now, outsz) ==> !WayFits(Components(path), outsz))
            && (name == "." || name == ".." ==> Fits(now, outsz))
            && (name != "." && name != ".." ==> Proper(name) && now == dir + [name])
  {
    hide Fits, Components, Render, WalkAll, WayFits, AllProper, Walk;
    var name := path[p..end];
    var more := done + [name];
    WalkOne(done, name);
    WalkIsProper(dir, name, outsz);
    assert Components(path) == more + Components(path[end..]);
    assert Components(path)[..|more|] == more;
    WayFitsMore(done, name, outsz);
    WayFitsLast(done, outsz);
    NotOnTheWay(Components(path), |more|, outsz);
  }

  lemma WalkIsProper(dir: seq<Name>, name: Name, outsz: int)
    requires AllProper(dir) && name != [] && '/' !in name
    ensures AllProper(Walk(dir, name))
    ensures name != "." && name != ".." ==> Proper(name) && Walk(dir, name) == dir + [name]
    ensures Fits(dir, outsz) && (name == "." || name == "..") ==> Fits(Walk(dir, name), outsz)
  {
    if name == ".." && Fits(dir, outsz) { FitsUp(dir, outsz); }
  }

  lemma WayFitsMore(done: seq<Name>, name: Name, outsz: int)
    requires WayFits(done, outsz)
    ensures Fits(WalkAll([], done + [name]), outsz) ==> WayFits(done + [name], outsz)
  {
    hide Fits, WalkAll;
    var more := done + [name];
    assert forall k :: 0 <= k <= |done| ==> more[..k] == done[..k];
    assert more[..|more|] == more;
  }

  lemma NotOnTheWay(names: seq<Name>, k: nat, outsz: int)
    requires k <= |names|
    ensures !Fits(WalkAll([], names[..k]), outsz) ==> !WayFits(names, outsz)
  {
    hide Fits, WalkAll;
  }

  lemma WayFitsLast(done: seq<Name>, outsz: int)
    requires WayFits(done, outsz)
    ensures Fits(WalkAll([], done), outsz)
  {
    assert done[..|done|] == done;
  }

  lemma FitsUp(dir: seq<Name>, outsz: int)
    requires Fits(dir, outsz) && AllProper(dir)
    ensures dir != [] ==> Fits(dir[..|dir| - 1], outsz)
  {
    if dir != [] { RenderPrefix(dir, |dir| - 1); }
  }

  lemma SkipUnderway(path: seq<char>, p: nat, next: nat, outsz: int, done: seq<Name>, dir: seq<Name>)
    requires p <= next <= |path| && Components(path[next..]) == Components(path[p..])
    ensures Underway(path, p, outsz, done, dir) ==> Underway(path, next, outsz, done, dir)
  {}

  lemma UnderwayFacts(path: seq<char>, p: nat, outsz: int, done: seq<Name>, dir: seq<Name>)
    requires Underway(path, p, outsz, done, dir)
    ensures AllProper(dir) && Fits(dir, outsz)
  {
    WayFitsLast(done, outsz);
  }

  lemma Arrived(path: seq<char>, p: nat, outsz: int, done: seq<Name>, dir: seq<Name>)
    requires Underway(path, p, outsz, done, dir) && p == |path|
    ensures dir == WalkAll([], Components(path)) && WayFits(Components(path), outsz)
  {
    assert path[p..] == [];
    assert Components(path) == done;
  }

  lemma WalkCases(dir: seq<Name>, name: Name)
    ensures name == "." ==> Walk(dir, name) == dir
    ensures name == ".." ==> Walk(dir, name) == if dir == [] then [] else dir[..|dir| - 1]
    ensures name == "." <==> |name| == 1 && name[0] == '.'
    ensures name == ".." <==> |name| == 2 && name[0] == '.' && name[1] == '.'
  {}

  lemma HoldsRoot(output: seq<char>, stack: seq<int>)
    requires |output| > 1 && output[0] == '/' && output[1] == NUL
    ensures Holds(output, stack, 0, 1, [])
  {}

  lemma HoldsFacts(output: seq<char>, stack: seq<int>, depth: int, len: int, dir: seq<Name>)
    requires Holds(output, stack, depth, len, dir) && AllProper(dir)
    ensures depth == |dir| <= |stack| && 0 < len < |output|
    ensures depth > 0 ==> (var up := stack[depth - 1];
                           0 <= up < |output| && Holds(output[up := NUL], stack, depth - 1, up, dir[..|dir| - 1]))
  {
    if depth > 0 { HoldsParent(output, stack, len, dir); }
  }

  /** What a reader of the buffer finds. */
  predicate ReadsAs(output: seq<char>, s: seq<char>) {
    |s| < |output| && output[..|s|] == s && NUL !in s && output[|s|] == NUL
  }

  lemma HoldsReads(output: seq<char>, stack: seq<int>, depth: int, len: int, dir: seq<Name>)
    requires Holds(output, stack, depth, len, dir) && NUL !in Render(dir)
    ensures ReadsAs(output, Render(dir))
  {}

  predicate NoZeros(names: seq<Name>) { forall i :: 0 <= i < |names| ==> NUL !in names[i] }

  lemma {:induction false} ComponentsNoZeros(p: seq<char>)
    requires NUL !in p
    ensures NoZeros(Components(p))
    decreases |p|
  {
    if p != [] {
      if p[0] == '/' {
        ComponentsNoZeros(p[1..]);
      } else {
        ComponentsNoZeros(p[SegmentLength(p)..]);
      }
    }
  }

  lemma {:induction false} WalkNoZeros(dir: seq<Name>, names: seq<Name>)
    requires NoZeros(dir) && NoZeros(names)
    ensures NoZeros(WalkAll(dir, names))
  {
    if names != [] {
      WalkNoZeros(dir, names[..|names| - 1]);
    }
  }

  lemma {:induction false} RenderNoZeros(dir: seq<Name>)
    requires NoZeros(dir)
    ensures NUL !in Render(dir)
  {
    if |dir| > 1 { RenderNoZeros(dir[..|dir| - 1]); }
  }

  /** The canonical path of a string is a string. */
  lemma CanonicalNoZeros(path: seq<char>)
    requires NUL !in path
    ensures NUL !in Render(WalkAll([], Components(path)))
  {
    hide Components, WalkAll, Render;
    ComponentsNoZeros(path);
    WalkNoZeros([], Components(path));
    RenderNoZeros(WalkAll([], Components(path)));
  }

  /** canonicalize_absolute_path succeeds exactly when every directory the path goes through
      fits, and then the buffer holds the directory it leads to. (Its last test, for a length
      of 0, never applies.) */
  method Canonicalize(path: seq<char>, output: array<char>, outsz: int) returns (ok: bool)
    requires outsz <= output.Length && NUL !in path
    modifies output
    ensures ok <==> outsz > 1 && path != [] && path[0] == '/' && WayFits(Components(path), outsz)
    ensures ok ==> ReadsAs(output[..], Render(WalkAll([], Components(path))))
  {
    hide WalkAll, Components, WayFits, Fits, Render, Walk, AllProper, Proper, Holds, Underway;
    if outsz <= 1 {
      return false;
    }
    if path == [] || path[0] != '/' {
      return false;
    }
    var stack_depth := 0;
    var stack := new int[MAX_FILE_PATH];
    var len := 1;
    output[0] := '/';
    output[1] := NUL;
    HoldsRoot(output[..], stack[..]);
    assert path[0..] == path;
    var p := SkipSlashes(path, 0);
    Started(path, p, outsz);
    ghost var done: seq<Name>, dir: seq<Name> := [], [];
    while p < |path|
      invariant 0 <= p <= |path| && Underway(path, p, outsz, done, dir)
      invariant Holds(output[..], stack[..], stack_depth, len, dir)
      decreases |path| - p
    {
      var start := p;
      p := SegmentEnd(path, start);
      var segment_len := p - start;
      if segment_len == 0 {
        p := SkipSlashes(path, p);
        SkipUnderway(path, start, p, outsz, done, dir);
        continue;
      }
      OneMore(path, start, p, outsz, done, dir);
      UnderwayFacts(path, start, outsz, done, dir);
      ghost var was := dir;
      var name := path[start..p];
      done, dir := done + [name], Walk(dir, name);
      WalkCases(was, name);
      if segment_len == 1 && path[start] == '.' {
        ghost var end := p;
        p := SkipSlashes(path, p);
        SkipUnderway(path, end, p, outsz, done, dir);
        continue;
      }
      if segment_len == 2 && path[start] == '.' && path[start + 1] == '.' {
        HoldsFacts(output[..], stack[..], stack_depth, len, was);
        if stack_depth > 0 {
          stack_depth := stack_depth - 1;
          len := stack[stack_depth];
          output[len] := NUL;
        }
        ghost var end := p;
        p := SkipSlashes(path, p);
        SkipUnderway(path, end, p, outsz, done, dir);
        continue;
      }
      HoldsFacts(output[..], stack[..], stack_depth, len, was);
      ok, len := Push(output, stack, outsz, len, stack_depth, name, was);
      if !ok {
        return false;
      }
      stack_depth := stack_depth + 1;
      ghost var end := p;
      p := SkipSlashes(path, p);
      SkipUnderway(path, end, p, outsz, done, dir);
    }
    Arrived(path, p, outsz, done, dir);
    CanonicalNoZeros(path);
    HoldsReads(output[..], stack[..], stack_depth, len, dir);
    ok := true;
  }

  // ---- canonical paths are fixed points ----

  lemma {:induction false} ComponentsPlain(p: seq<char>)
    ensures forall i :: 0 <= i < |Components(p)| ==> Components(p)[i] != [] && '/' !in Components(p)[i]
    decreases |p|
  {
    if p != [] {
      if p[0] == '/' {
        ComponentsPlain(p[1..]);
      } else {
        ComponentsPlain(p[SegmentLength(p)..]);
      }
    }
  }

  /** A slash separates components. */
  lemma {:induction false} ComponentsJoin(a: seq<char>, b: seq<char>)
    ensures Components(a + "/" + b) == Components(a) + Components(b)
    decreases |a|
  {
    hide Components, SegmentLength;
    ComponentsCases(a + "/" + b);
    ComponentsCases(a);
    if a == [] {
      assert (a + "/" + b)[1..] == b;
    } else if a[0] == '/' {
      assert (a + "/" + b)[1..] == a[1..] + "/" + b;
      ComponentsJoin(a[1..], b);
    } else {
      JoinSegment(a, b);
      ComponentsJoin(a[SegmentLength(a)..], b);
    }
  }

  lemma ComponentsCases(p: seq<char>)
    ensures p == [] ==> Components(p) == []
    ensures p != [] && p[0] == '/' ==> Components(p) == Components(p[1..])
    ensures p != [] && p[0] != '/' ==>
              && SegmentLength(p) > 0
              && Components(p) == [p[..SegmentLength(p)]] + Components(p[SegmentLength(p)..])
  {}

  /** The first segment of a is the first one of the joined path too. */
  lemma JoinSegment(a: seq<char>, b: seq<char>)
    requires a != [] && a[0] != '/'
    ensures var n := SegmentLength(a);
            0 < n && Components(a + "/" + b) == [a[..n]] + Components(a[n..] + "/" + b)
  {
    ComponentsCases(a);
    hide Components, SegmentLength;
    var s, n := a + "/" + b, SegmentLength(a);
    assert forall i :: 0 <= i < n ==> s[i] == a[i];
    assert s[n..] == a[n..] + "/" + b;
    assert s[..n] == a[..n];
    FirstSegment(s, n);
  }

  lemma ComponentsName(name: Name)
    requires name != [] && '/' !in name
    ensures Components(name) == [name]
  {
    FirstSegment(name, |name|);
    assert name[..|name|] == name && name[|name|..] == [];
  }

  lemma {:induction false} ComponentsRender(dir: seq<Name>)
    requires AllProper(dir)
    ensures Components(Render(dir)) == dir
  {
    if dir == [] {
      assert "/"[1..] == [];
    } else {
      var up, name := dir[..|dir| - 1], dir[|dir| - 1];
      assert dir == up + [name];
      RenderPush(up, name);
      ComponentsRender(up);
      ComponentsName(name);
      if up == [] {
        assert "" + "/" + name == "/" + name;
        ComponentsJoin("", name);
      } else {
        ComponentsJoin(Render(up), name);
      }
    }
  }

  lemma {:induction false} WalkDown(dir: seq<Name>, names: seq<Name>)
    requires AllProper(names)
    ensures WalkAll(dir, names) == dir + names
  {
    if names == [] {
      assert dir + names == dir;
    } else {
      WalkDown(dir, names[..|names| - 1]);
      assert Proper(names[|names| - 1]);
      assert dir + names == dir + names[..|names| - 1] + [names[|names| - 1]];
    }
  }

  lemma {:induction false} WalkFrom(dir: seq<Name>, more: seq<Name>, names: seq<Name>)
    ensures WalkAll(dir, more + names) == WalkAll(WalkAll(dir, more), names)
  {
    if names == [] {
      assert more + names == more;
    } else {
      var all := more + names;
      assert all[..|all| - 1] == more + names[..|names| - 1];
      WalkFrom(dir, more, names[..|names| - 1]);
    }
  }

  lemma Destination(path: seq<char>)
    ensures AllProper(WalkAll([], Components(path)))
  {
    ComponentsPlain(path);
    WalkProper([], Components(path));
  }

  /** A canonical path that fits is found to fit, and is left as it is. */
  lemma CanonicalStays(dir: seq<Name>, outsz: int)
    requires AllProper(dir) && Fits(dir, outsz)
    ensures WayFits(Components(Render(dir)), outsz) && WalkAll([], Components(Render(dir))) == dir
  {
    hide Render;
    ComponentsRender(dir);
    WalkDown([], dir);
    forall k | 0 <= k <= |dir| ensures Fits(WalkAll([], dir[..k]), outsz) {
      WalkDown([], dir[..k]);
      assert [] + dir[..k] == dir[..k];
      RenderPrefix(dir, k);
    }
    assert [] + dir == dir;
  }

  /** Canonicalizing what Canonicalize wrote succeeds and changes nothing. */
  lemma Idempotent(path: seq<char>, outsz: int)
    requires WayFits(Components(path), outsz)
    ensures var once := Render(WalkAll([], Components(path)));
            once[0] == '/' && WayFits(Components(once), outsz) && Render(WalkAll([], Components(once))) == once
  {
    hide Components, WalkAll, Render, Fits, AllProper;
    Destination(path);
    WayFitsLast(Components(path), outsz);
    CanonicalStays(WalkAll([], Components(path)), outsz);
  }

  /** Where an absolute path leads, as a canonical path. */
  function Canonical(path: seq<char>): seq<char> { Render(WalkAll([], Components(path))) }

  lemma OneComponentMore(path: seq<char>, name: Name)
    requires name != [] && '/' !in name
    ensures WalkAll([], Components(path + "/" + name)) == Walk(WalkAll([], Components(path)), name)
  {
    hide Components, WalkAll, Walk;
    ComponentsJoin(path, name);
    ComponentsName(name);
    WalkOne(Components(path), name);
  }

  /** A name goes down, "." stays, ".." takes back the last name, and the root is its own
      parent; more slashes change nothing. */
  lemma Dots(path: seq<char>, name: Name)
    requires name != [] && '/' !in name && name != "." && name != ".."
    ensures Canonical("/") == Canonical("/..") == "/"
    ensures Canonical(path + "/" + name) == (if Canonical(path) == "/" then "/" else Canonical(path) + "/") + name
    ensures Canonical(path + "/.") == Canonical(path + "/") == Canonical(path)
    ensures Canonical(path + "/" + name + "/..") == Canonical(path)
  {
    hide Components, WalkAll, Render;
    var dir := WalkAll([], Components(path));
    RootOnly();
    Destination(path);
    RenderLonger(dir);
    RootRender();
    OneComponentMore(path, name);
    RenderPush(dir, name);
    OneComponentMore(path, ".");
    assert path + "/" + "." == path + "/." && path + "/" + "" == path + "/";
    ComponentsJoin(path, "");
    NoComponents();
    assert Components(path) + [] == Components(path);
    OneComponentMore(path + "/" + name, "..");
    assert path + "/" + name + "/" + ".." == path + "/" + name + "/..";
    assert (dir + [name])[..|dir|] == dir;
  }

  lemma NoComponents()
    ensures Components("") == []
  {}

  lemma RootRender()
    ensures Render([]) == "/"
  {}

  lemma RootOnly()
    ensures Canonical("/") == "/" && Canonical("/..") == "/"
  {
    hide Render;
    RootRender();
    NoComponents();
    assert "/"[1..] == "";
    assert Components("/") == Components("/"[1..]);
    OneComponentMore("", "..");
    assert "" + "/" + ".." == "/..";
  }

  // ---- resolve_cwd_path ----

  /** The directory a relative path starts from. */
  function Base(cwd: seq<char>): seq<char> { if cwd != [] && cwd[0] == '/' then cwd else "/" }

  /** A directory with the slash that goes before a name in it. */
  function Front(base: seq<char>): seq<char> {
    if |base| > 1 && base[|base| - 1] != '/' then base + "/" else base
  }

  function Joined(base: seq<char>, request: seq<char>): seq<char> { Front(base) + request }

  /** Whether the two are joined with or without a slash, their components follow one another. */
  lemma JoinedComponents(base: seq<char>, request: seq<char>)
    requires base != [] && base[0] == '/'
    ensures Components(Joined(base, request)) == Components(base) + Components(request)
  {
    if |base| > 1 && base[|base| - 1] != '/' {
      ComponentsJoin(base, request);
    } else {
      var front := base[..|base| - 1];
      assert base == front + "/" + "" && base + request == front + "/" + request;
      ComponentsJoin(front, request);
      ComponentsJoin(front, "");
      assert Components(front) + Components("") == Components(front);
    }
  }

  lemma JoinedNoZeros(base: seq<char>, request: seq<char>)
    requires NUL !in base && NUL !in request
    ensures NUL !in Joined(base, request)
  {}

  /** The components resolve_cwd_path walks. */
  function Route(cwd: seq<char>, request: seq<char>): seq<Name> {
    if request != [] && request[0] == '/' then Components(request) else Components(Base(cwd)) + Components(request)
  }

  /** A relative path walks from the current directory. */
  lemma FromCwd(dir: seq<Name>, request: seq<char>)
    requires AllProper(dir) && (request == [] || request[0] != '/')
    ensures WalkAll([], Route(Render(dir), request)) == WalkAll(dir, Components(request))
  {
    hide WalkAll, Components, Render, AllProper;
    ComponentsRender(dir);
    WalkFrom([], dir, Components(request));
    WalkDown([], dir);
    assert [] + dir == dir;
  }

  predicate TooLong(cwd: seq<char>, request: seq<char>) {
    |Base(cwd)| >= MAX_FILE_PATH || |request| >= MAX_FILE_PATH
  }

  predicate Resolvable(cwd: seq<char>, request: seq<char>) {
    && request != []
    && (request[0] != '/' ==> cwd != [] && |Joined(Base(cwd), request)| < MAX_FILE_PATH)
    && WayFits(Route(cwd, request), MAX_FILE_PATH)
  }

  /** The part of resolve_cwd_path that puts base and request into one buffer. */
  method Join(combined: array<char>, base: seq<char>, request: seq<char>) returns (fits: bool, len: nat)
    requires combined.Length == MAX_FILE_PATH && 0 < |base| < MAX_FILE_PATH
    modifies combined
    ensures fits <==> |Joined(base, request)| < MAX_FILE_PATH
    ensures fits ==> len == |Joined(base, request)| && combined[..len] == Joined(base, request)
  {
    Copy(combined, 0, base);
    assert combined[..0] == [] && combined[..|base|] == base;
    fits, len := AddSlash(combined, base);
    if !fits || len + |request| >= MAX_FILE_PATH {
      return false, len;
    }
    Copy(combined, len, request);
    len := len + |request|;
  }

  /** Its step before the request: a slash, unless base ends in one. */
  method AddSlash(combined: array<char>, base: seq<char>) returns (fits: bool, len: nat)
    requires combined.Length == MAX_FILE_PATH && 0 < |base| < MAX_FILE_PATH && combined[..|base|] == base
    modifies combined
    ensures fits <==> |Front(base)| < MAX_FILE_PATH
    ensures fits ==> len == |Front(base)| && combined[..len] == Front(base)
  {
    len := |base|;
    assert combined[len - 1] == base[len - 1];
    fits := true;
    if len > 1 && combined[len - 1] != '/' {
      if len + 1 >= MAX_FILE_PATH {
        return false, len;
      }
      combined[len] := '/';
      len := len + 1;
    }
  }

  /** resolve_cwd_path: 0 and the resolved path, 1 and an empty string, or -1. cwd is the
      process's cwd_path up to its first zero, or all of it if it has none. */
  method ResolveCwd(cwd: seq<char>, request: seq<char>, resolved: array<char>) returns (r: int)
    requires |cwd| <= MAX_FILE_PATH <= resolved.Length && NUL !in cwd && NUL !in request
    modifies resolved
    ensures r == 0 <==> Resolvable(cwd, request)
    ensures r == 0 ==> ReadsAs(resolved[..], Render(WalkAll([], Route(cwd, request))))
    ensures r == -1 <==> request == [] || (request[0] != '/' && cwd != [] && TooLong(cwd, request))
    ensures r == 1 || r == 0 || r == -1
    ensures r == 1 ==> resolved[0] == NUL
  {
    hide Components, WalkAll, WayFits, Render;
    if request == [] {
      return -1;
    }
    if request[0] == '/' {
      var ok := Canonicalize(request, resolved, MAX_FILE_PATH);
      if !ok {
        resolved[0] := NUL;
        return 1;
      }
      return 0;
    }
    if cwd == [] {
      resolved[0] := NUL;
      return 1;
    }
    var combined := new char[MAX_FILE_PATH];
    var base := if cwd[0] != '/' then "/" else cwd;
    JoinedComponents(base, request);
    if |base| >= MAX_FILE_PATH || |request| >= MAX_FILE_PATH {
      return -1;
    }
    var fits, len := Join(combined, base, request);
    if !fits {
      resolved[0] := NUL;
      return 1;
    }
    JoinedNoZeros(base, request);
    var ok := Canonicalize(combined[..len], resolved, MAX_FILE_PATH);
    if !ok {
      resolved[0] := NUL;
      return 1;
    }
    r := 0;
  }
}
