/** The `posixpath` operations the book scripts compute links with: `normpath`, `join`, `dirname` and `relpath`.
    A path is its text; its components are what stands between slashes. Normalising walks the components with
    a stack, so most facts here are about that walk: ordinary components are pushed, `..` pops one, and a `..`
    with nothing left to pop stays in front for good unless the path is rooted. `relpath` makes both of its
    paths absolute in a working directory first; for paths that stay inside the site that directory drops out
    of the result, which is why the links the scripts write do not depend on where they are run. */
module PosixPaths {
  import opened Text

  const UP := ".."

  // ------------------------------------------------------------- the operations

  /** One component of a path being normalised. */
  function Push(acc: seq<string>, c: string, rooted: bool): seq<string> {
    if c == "" || c == "." then acc
    else if c != UP || (!rooted && acc == []) || (acc != [] && acc[|acc| - 1] == UP) then acc + [c]
    else if acc != [] then acc[..|acc| - 1]
    else acc
  }

  function PushAll(acc: seq<string>, comps: seq<string>, rooted: bool): seq<string>
    decreases comps
  {
    if comps == [] then acc else PushAll(Push(acc, comps[0], rooted), comps[1..], rooted)
  }

  /** The slashes a path keeps in front: none, one, or exactly two. */
  function RootOf(p: string): string {
    if "//" <= p && !("///" <= p) then "//" else if "/" <= p then "/" else ""
  }

  function Normpath(p: string): string {
    var text := RootOf(p) + Join(PushAll([], SplitOn(p, "/"), "/" <= p), "/");
    if text == "" then "." else text
  }

  method NormalizePath(p: string) returns (r: string)
    ensures r == Normpath(p)
  {
    var rooted := "/" <= p;
    var comps := SplitOn(p, "/");
    var kept: seq<string> := [];
    for i := 0 to |comps|
      invariant PushAll(kept, comps[i..], rooted) == PushAll([], comps, rooted)
    {
      var c := comps[i];
      assert comps[i..][1..] == comps[i + 1..];
      if c == "" || c == "." {
        continue;
      }
      if c != UP || (!rooted && kept == []) || (kept != [] && kept[|kept| - 1] == UP) {
        kept := kept + [c];
      } else if kept != [] {
        kept := kept[..|kept| - 1];
      }
    }
    r := RootOf(p) + Join(kept, "/");
    if r == "" {
      r := ".";
    }
  }

  function JoinPath(a: string, b: string): string {
    if "/" <= b then b else if a == "" || EndsWith(a, "/") then a + b else a + "/" + b
  }

  /** Everything up to and including the last slash. */
  function HeadOf(p: string): (h: string)
    ensures h <= p && (h == "" || h[|h| - 1] == '/') && '/' !in p[|h|..]
  {
    if p == "" || p[|p| - 1] == '/' then p else
      var h := HeadOf(p[..|p| - 1]);
      assert p[|h|..] == p[..|p| - 1][|h|..] + [p[|p| - 1]];
      h
  }

  function Dirname(p: string): string {
    var head := HeadOf(p);
    if forall c <- head :: c == '/' then head else StripRight(head, {'/'})
  }

  /** The components of the absolute form of `p`, in the working directory `cwd`. */
  function AbsComps(p: string, cwd: seq<string>): seq<string> {
    PushAll(if "/" <= p then [] else cwd, SplitOn(p, "/"), true)
  }

  function Common(a: seq<string>, b: seq<string>): (n: nat)
    ensures n <= |a| && n <= |b| && a[..n] == b[..n]
  {
    if a != [] && b != [] && a[0] == b[0] then 1 + Common(a[1..], b[1..]) else 0
  }

  function RelComps(path: seq<string>, start: seq<string>): seq<string> {
    var n := Common(start, path);
    seq(|start| - n, _ => UP) + path[n..]
  }

  function Relpath(path: string, start: string, cwd: seq<string>): string {
    var rel := RelComps(AbsComps(path, cwd), AbsComps(start, cwd));
    if rel == [] then "." else Join(rel, "/")
  }

  // ------------------------------------------------------------- normal paths

  predicate Ordinary(c: string) { c != "" && c != "." && c != UP && '/' !in c }

  predicate AllOrdinary(cs: seq<string>) { forall i :: 0 <= i < |cs| ==> Ordinary(cs[i]) }

  lemma {:induction false} PushAllAppend(acc: seq<string>, a: seq<string>, b: seq<string>, rooted: bool)
    ensures PushAll(acc, a + b, rooted) == PushAll(PushAll(acc, a, rooted), b, rooted)
    decreases a
  {
    if a == [] {
      assert a + b == b;
    } else {
      assert (a + b)[1..] == a[1..] + b;
      PushAllAppend(Push(acc, a[0], rooted), a[1..], b, rooted);
    }
  }

  lemma {:induction false} PushOrdinary(acc: seq<string>, cs: seq<string>, rooted: bool)
    requires AllOrdinary(cs)
    ensures PushAll(acc, cs, rooted) == acc + cs
    decreases cs
  {
    if cs != [] {
      assert Ordinary(cs[0]);
      PushOrdinary(acc + [cs[0]], cs[1..], rooted);
      assert acc + [cs[0]] + cs[1..] == acc + cs;
    }
  }

  function Ups(n: nat): seq<string> { seq(n, _ => UP) }

  lemma {:induction false} PushUps(acc: seq<string>, n: nat, rooted: bool)
    requires n <= |acc| && AllOrdinary(acc)
    ensures PushAll(acc, Ups(n), rooted) == acc[..|acc| - n]
    decreases n
  {
    if n == 0 {
      assert acc[..|acc|] == acc;
    } else {
      assert Ups(n)[1..] == Ups(n - 1);
      assert Ordinary(acc[|acc| - 1]);
      PushUps(acc[..|acc| - 1], n - 1, rooted);
    }
  }

  /** A `..` that climbed above the start stays at the front for good. */
  lemma {:induction false} UpStays(acc: seq<string>, cs: seq<string>)
    requires acc != [] && acc[0] == UP
    ensures PushAll(acc, cs, false) != [] && PushAll(acc, cs, false)[0] == UP
    decreases cs
  {
    if cs != [] {
      var next := Push(acc, cs[0], false);
      assert next != [] && next[0] == UP;
      UpStays(next, cs[1..]);
    }
  }

  predicate NoSlash(cs: seq<string>) { forall i :: 0 <= i < |cs| ==> '/' !in cs[i] }

  lemma ClimbShows(cs: seq<string>)
    requires cs != [] && cs[0] == UP
    ensures !AllOrdinary(PushAll([], cs, false))
  {
    assert Push([], cs[0], false) == [UP];
    UpStays([UP], cs[1..]);
    assert PushAll([], cs, false)[0] == UP && !Ordinary(UP);
  }

  /** A relative walk that never climbs above its start goes the same way from any directory. */
  lemma {:induction false} WalkFromAnywhere(base: seq<string>, acc: seq<string>, cs: seq<string>)
    requires AllOrdinary(acc) && AllOrdinary(PushAll(acc, cs, false)) && NoSlash(cs)
    ensures PushAll(base + acc, cs, true) == base + PushAll(acc, cs, false)
    decreases cs
  {
    if cs != [] {
      var c := cs[0];
      var next := Push(acc, c, false);
      assert !(c == UP && acc == []) by {
        if c == UP && acc == [] {
          ClimbShows(cs);
        }
      }
      if c == UP && acc != [] {
        assert Ordinary(acc[|acc| - 1]);
        assert (base + acc)[..|base + acc| - 1] == base + next;
      } else if c != "" && c != "." {
        assert base + acc + [c] == base + next;
      }
      assert AllOrdinary(next);
      assert Push(base + acc, c, true) == base + next;
      WalkFromAnywhere(base, next, cs[1..]);
    }
  }

  lemma {:induction false} CommonShift(base: seq<string>, a: seq<string>, b: seq<string>)
    ensures Common(base + a, base + b) == |base| + Common(a, b)
  {
    if base == [] {
      assert base + a == a && base + b == b;
    } else {
      assert (base + a)[1..] == base[1..] + a && (base + b)[1..] == base[1..] + b;
      CommonShift(base[1..], a, b);
    }
  }

  lemma RelCompsParts(target: seq<string>, start: seq<string>)
    ensures RelComps(target, start) == Ups(|start| - Common(start, target)) + target[Common(start, target)..]
  {
  }

  lemma TakeThenDrop(a: seq<string>, b: seq<string>, n: nat)
    requires n <= |a| && n <= |b| && a[..n] == b[..n]
    ensures a[..n] + b[n..] == b
  {
  }

  /** Walking the relative components from the start arrives at the target. */
  lemma RelArrives(target: seq<string>, start: seq<string>)
    requires AllOrdinary(target) && AllOrdinary(start)
    ensures PushAll(start, RelComps(target, start), false) == target
  {
    var n := Common(start, target);
    RelCompsParts(target, start);
    PushAllAppend(start, Ups(|start| - n), target[n..], false);
    PushUps(start, |start| - n, false);
    PushOrdinary(start[..n], target[n..], false);
    TakeThenDrop(start, target, n);
  }

  /** The directory a relative link is written from, when it does not climb out of the site. */
  predicate InSite(dir: string) {
    !("/" <= dir) && AllOrdinary(PushAll([], SplitOn(dir, "/"), false))
  }

  function SiteComps(dir: string): seq<string> { PushAll([], SplitOn(dir, "/"), false) }

  lemma {:induction false} SplitHasNoSlash(s: string)
    ensures NoSlash(SplitOn(s, "/"))
  {
    if s != "" {
      SplitHasNoSlash(s[1..]);
    }
  }

  lemma AbsOfTarget(target: seq<string>, cwd: seq<string>)
    requires target != [] && AllOrdinary(target)
    ensures AbsComps(Join(target, "/"), cwd) == cwd + target
  {
    assert Ordinary(target[0]);
    SplitJoin(target, '/');
    JoinOrdinaryIsRelative(target);
    PushOrdinary(cwd, target, true);
  }

  lemma AbsOfDir(dir: string, cwd: seq<string>)
    requires InSite(dir)
    ensures AbsComps(dir, cwd) == cwd + SiteComps(dir)
  {
    SplitHasNoSlash(dir);
    WalkFromAnywhere(cwd, [], SplitOn(dir, "/"));
    assert cwd + [] == cwd;
  }

  lemma RelShift(cwd: seq<string>, target: seq<string>, start: seq<string>)
    ensures RelComps(cwd + target, cwd + start) == RelComps(target, start)
  {
    CommonShift(cwd, start, target);
    var n := Common(start, target);
    assert (cwd + target)[|cwd| + n..] == target[n..];
  }

  /** What `relpath` writes for a target of ordinary components, from any directory in the
      site: the working directory it is computed in drops out. */
  lemma RelpathInSite(target: seq<string>, dir: string, cwd: seq<string>)
    requires target != [] && AllOrdinary(target) && InSite(dir)
    ensures Relpath(Join(target, "/"), dir, cwd) ==
            var rel := RelComps(target, SiteComps(dir));
            if rel == [] then "." else Join(rel, "/")
  {
    AbsOfTarget(target, cwd);
    AbsOfDir(dir, cwd);
    RelShift(cwd, target, SiteComps(dir));
  }

  lemma JoinOrdinaryIsRelative(cs: seq<string>)
    requires cs != [] && Ordinary(cs[0])
    ensures Join(cs, "/") != "" && !("/" <= Join(cs, "/"))
  {
    assert Join(cs, "/")[0] == cs[0][0];
  }

  lemma RelCompsShape(target: seq<string>, start: seq<string>)
    requires AllOrdinary(target) && AllOrdinary(start)
    ensures forall c <- RelComps(target, start) :: '/' !in c && c != "" && c != "."
  {
    var n := Common(start, target);
    var rel := RelComps(target, start);
    forall i | 0 <= i < |rel| ensures '/' !in rel[i] && rel[i] != "" && rel[i] != "." {
      if i >= |start| - n {
        assert Ordinary(target[n + i - (|start| - n)]);
      }
    }
  }

  lemma EmptyDir(dir: string)
    requires dir == ""
    ensures SiteComps(dir) == []
  {
    assert SplitOn("", "/") == [""];
  }

  /** The components of a link read from a directory. */
  lemma JoinedComps(dir: string, rel: seq<string>, link: string)
    requires dir != "" && !("/" <= dir) && !EndsWith(dir, "/")
    requires SplitOn(link, "/") == (if rel == [] then ["."] else rel) && !("/" <= link)
    ensures JoinPath(dir, link) == dir + "/" + link && !("/" <= JoinPath(dir, link))
    ensures PushAll([], SplitOn(dir + "/" + link, "/"), false) == PushAll(SiteComps(dir), rel, false)
  {
    assert (dir + "/" + link)[0] == dir[0];
    SplitAppend(dir, link, '/');
    PushAllAppend([], SplitOn(dir, "/"), SplitOn(link, "/"), false);
    PushLink(SiteComps(dir), rel, link);
  }

  /** Normalising the join undoes `relpath`: a link computed from a directory and read back
      from it names its target again. */
  lemma NormalisedJoinUndoesRelpath(target: seq<string>, dir: string, cwd: seq<string>)
    requires target != [] && AllOrdinary(target) && InSite(dir)
    requires dir != "" ==> !EndsWith(dir, "/")
    ensures Normpath(JoinPath(dir, Relpath(Join(target, "/"), dir, cwd))) == Join(target, "/")
  {
    var start := SiteComps(dir);
    var rel := RelComps(target, start);
    var link := if rel == [] then "." else Join(rel, "/");
    RelpathInSite(target, dir, cwd);
    RelArrives(target, start);
    RelCompsShape(target, start);
    LinkSplits(rel, link);
    JoinOrdinaryIsRelative(target);
    if dir == "" {
      EmptyDir(dir);
      assert JoinPath(dir, link) == link;
      PushLink([], rel, link);
    } else {
      JoinedComps(dir, rel, link);
    }
  }

  lemma LinkSplits(rel: seq<string>, link: string)
    requires link == if rel == [] then "." else Join(rel, "/")
    requires forall c <- rel :: '/' !in c && c != "" && c != "."
    ensures SplitOn(link, "/") == if rel == [] then ["."] else rel
    ensures !("/" <= link)
  {
    if rel == [] {
      SplitWhole(".", '/');
    } else {
      SplitJoin(rel, '/');
      assert rel[0] in rel;
      assert link[0] == rel[0][0];
    }
  }

  lemma PushLink(acc: seq<string>, rel: seq<string>, link: string)
    requires SplitOn(link, "/") == if rel == [] then ["."] else rel
    ensures PushAll(acc, SplitOn(link, "/"), false) == PushAll(acc, rel, false)
  {
    if rel == [] {
      assert PushAll(acc, ["."], false) == PushAll(Push(acc, ".", false), [], false);
    }
  }
}
