/** The pruned walk for generated configs (`find_image_roots`). */
module ImageWalk {
  // scripts/check-action-client-arena-budget.py edits the list of directory names while it walks, so that some
  // directories are never entered. Here that is a worklist; it is compared with a recursion on the tree, and that
  // with a plain enumeration of everything below the root.

  /** A path as its components, outermost first. */
  type Path = seq<string>

  datatype Dir = Dir(name: string, files: set<string>, kids: seq<Dir>)

  /** A directory to search: where it is, and what is below it if it exists. */
  datatype Root = Root(path: Path, dir: Dir) | Absent(path: Path)

  /** A directory reached from some root, with the files in it. */
  datatype Site = Site(path: Path, files: set<string>)

  const PRUNE: set<string> :=
    {".git", ".jj", ".fingerprint", "incremental", "deps", "node_modules", ".venv", "__pycache__", "third-party"}

  const CONFIG_NAME := "nros_node_config.rs"

  /** `<profile>/build/<package>/out`. */
  predicate IsOut(p: Path) {
    |p| >= 3 && p[|p| - 1] == "out" && p[|p| - 3] == "build"
  }

  function ProfileOf(p: Path): Path
    requires IsOut(p)
  {
    p[..|p| - 3]
  }

  // ---- The walk, as a recursion on the tree

  function Own(p: Path, d: Dir): seq<Path> {
    if IsOut(p) && CONFIG_NAME in d.files then [p] else []
  }

  /** The `out` directories holding a config that the pruned walk from `d` meets, in its order. */
  function Met(p: Path, d: Dir): seq<Path>
    decreases d, 1, 0
  {
    if p != [] && p[|p| - 1] in PRUNE then []
    else if IsOut(p) then Own(p, d)
    else MetAll(p, d, |d.kids|)
  }

  function MetAll(p: Path, d: Dir, n: nat): seq<Path>
    requires n <= |d.kids|
    decreases d, 0, n
  {
    if n == 0 then []
    else MetAll(p, d, n - 1) + Met(p + [d.kids[n - 1].name], d.kids[n - 1])
  }

  // ---- The full enumeration

  function Sites(p: Path, d: Dir): seq<Site>
    decreases d, 1, 0
  {
    [Site(p, d.files)] + SitesBelow(p, d, |d.kids|)
  }

  function SitesBelow(p: Path, d: Dir, n: nat): seq<Site>
    requires n <= |d.kids|
    decreases d, 0, n
  {
    if n == 0 then []
    else SitesBelow(p, d, n - 1) + Sites(p + [d.kids[n - 1].name], d.kids[n - 1])
  }

  /** No pruned name and no earlier `out` directory on the way from the root, whose path has `n` components. */
  predicate Reachable(n: nat, p: Path) {
    (forall i | 0 <= i < |p| && n <= i + 1 :: p[i] !in PRUNE) &&
    (forall k | n <= k < |p| :: !IsOut(p[..k]))
  }

  /** Not hidden, and none of the names of cargo's intermediates and vendored code. */
  predicate OrdinaryName(name: string) {
    !("." <= name) && name !in {"incremental", "deps", "node_modules", "__pycache__", "third-party"}
  }

  /** In a tree of ordinary names every `<profile>/build/<package>/out` with no other one above it is reachable. */
  lemma OrdinaryImageIsReachable(n: nat, profile: Path, package: string)
    requires OrdinaryName(package) && forall name <- profile :: OrdinaryName(name)
    requires forall k | n <= k < |profile| + 3 :: !IsOut((profile + ["build", package, "out"])[..k])
    ensures Reachable(n, profile + ["build", package, "out"])
  {
    var q := profile + ["build", package, "out"];
    BuildAndOut();
    forall i | 0 <= i < |q| && n <= i + 1 ensures q[i] !in PRUNE {
      assert OrdinaryName(q[i]) by {
        if i < |profile| {
          assert q[i] == profile[i] && profile[i] in profile;
        }
      }
      OrdinaryIsEntered(q[i]);
    }
  }

  lemma BuildAndOut()
    ensures OrdinaryName("build") && OrdinaryName("out")
  {
    var names := ["incremental", "deps", "node_modules", "__pycache__", "third-party"];
    assert |"build"| == 5 && |"out"| == 3 && "build"[0] == 'b' && "out"[0] == 'o';
    assert forall i | 0 <= i < |names| :: |names[i]| != 5 && |names[i]| != 3;
    assert forall n :: n in {"incremental", "deps", "node_modules", "__pycache__", "third-party"} ==> n in names;
  }

  lemma OrdinaryIsEntered(name: string)
    requires OrdinaryName(name)
    ensures name !in PRUNE
  {
  }

  predicate Wanted(n: nat, s: Site) {
    IsOut(s.path) && CONFIG_NAME in s.files && Reachable(n, s.path)
  }

  function Select(n: nat, sites: seq<Site>): seq<Path> {
    if sites == [] then []
    else (if Wanted(n, sites[0]) then [sites[0].path] else []) + Select(n, sites[1..])
  }

  lemma {:induction false} SelectAppend(n: nat, a: seq<Site>, b: seq<Site>)
    ensures Select(n, a + b) == Select(n, a) + Select(n, b)
  {
    if a == [] {
      assert a + b == b;
    } else {
      assert (a + b)[1..] == a[1..] + b;
      SelectAppend(n, a[1..], b);
    }
  }

  /** Every site below a directory is at a path that extends the directory's. */
  lemma {:induction false} SitesExtend(p: Path, d: Dir)
    ensures forall s <- Sites(p, d) :: p <= s.path
    decreases d, 1, 0
  {
    SitesBelowExtend(p, d, |d.kids|);
  }

  lemma {:induction false} SitesBelowExtend(p: Path, d: Dir, n: nat)
    requires n <= |d.kids|
    ensures forall s <- SitesBelow(p, d, n) :: p <= s.path && |p| < |s.path|
    decreases d, 0, n
  {
    if n > 0 {
      SitesBelowExtend(p, d, n - 1);
      SitesExtend(p + [d.kids[n - 1].name], d.kids[n - 1]);
    }
  }

  lemma {:induction false} SelectNone(n: nat, sites: seq<Site>)
    requires forall s <- sites :: !Reachable(n, s.path)
    ensures Select(n, sites) == []
  {
    if sites != [] {
      assert !Reachable(n, sites[0].path);
      SelectNone(n, sites[1..]);
    }
  }

  predicate Blocked(n: nat, p: Path) {
    n <= |p| && ((p != [] && p[|p| - 1] in PRUNE) || IsOut(p))
  }

  lemma BlockedStops(n: nat, p: Path, q: Path)
    requires Blocked(n, p) && p <= q
    requires |p| < |q| || (p != [] && p[|p| - 1] in PRUNE)
    ensures !Reachable(n, q)
  {
    if IsOut(p) && |p| < |q| {
      assert q[..|p|] == p;
    } else {
      assert q[|p| - 1] == p[|p| - 1];
    }
  }

  /** Whatever the walk's entry point allows so far: everything before this directory is unpruned. */
  predicate Entered(n: nat, p: Path) {
    n <= |p| &&
    (forall i | 0 <= i < |p| - 1 && n <= i + 1 :: p[i] !in PRUNE) &&
    (forall k | n <= k < |p| :: !IsOut(p[..k]))
  }

  /** The pruned walk is the full enumeration, filtered. */
  lemma {:induction false} MetIsSelection(n: nat, p: Path, d: Dir)
    requires Entered(n, p)
    ensures Met(p, d) == Select(n, Sites(p, d))
    decreases d, 1, 0
  {
    var rest := SitesBelow(p, d, |d.kids|);
    SelectAppend(n, [Site(p, d.files)], rest);
    SitesBelowExtend(p, d, |d.kids|);
    if Blocked(n, p) {
      forall s <- rest ensures !Reachable(n, s.path) { BlockedStops(n, p, s.path); }
      SelectNone(n, rest);
      if p != [] && p[|p| - 1] in PRUNE {
        BlockedStops(n, p, p);
      }
    } else {
      MetAllIsSelection(n, p, d, |d.kids|);
    }
    assert [Site(p, d.files)][1..] == [];
  }

  lemma {:induction false} MetAllIsSelection(n: nat, p: Path, d: Dir, m: nat)
    requires Entered(n, p) && !Blocked(n, p) && m <= |d.kids|
    ensures MetAll(p, d, m) == Select(n, SitesBelow(p, d, m))
    decreases d, 0, m
  {
    if m > 0 {
      var q := p + [d.kids[m - 1].name];
      assert q[..|p|] == p && (forall k | n <= k < |p| :: q[..k] == p[..k]);
      MetAllIsSelection(n, p, d, m - 1);
      MetIsSelection(n, q, d.kids[m - 1]);
      SelectAppend(n, SitesBelow(p, d, m - 1), Sites(q, d.kids[m - 1]));
    }
  }

  // ---- What a full enumeration contains, read off the tree

  /** Following the names in `rel` downwards from `d` leads to a directory holding a config. */
  predicate Holds(d: Dir, rel: Path)
    decreases |rel|
  {
    if rel == [] then CONFIG_NAME in d.files
    else exists i | 0 <= i < |d.kids| :: d.kids[i].name == rel[0] && Holds(d.kids[i], rel[1..])
  }

  predicate Listed(sites: seq<Site>, q: Path) {
    exists i | 0 <= i < |sites| :: sites[i].path == q && CONFIG_NAME in sites[i].files
  }

  lemma ListedAppend(a: seq<Site>, b: seq<Site>, q: Path)
    ensures Listed(a + b, q) <==> Listed(a, q) || Listed(b, q)
  {
    var c := a + b;
    assert forall i | 0 <= i < |a| :: c[i] == a[i];
    assert forall i | 0 <= i < |b| :: c[|a| + i] == b[i];
  }

  lemma {:induction false} SitesListed(p: Path, d: Dir, rel: Path)
    ensures Listed(Sites(p, d), p + rel) <==> Holds(d, rel)
    decreases d, 1, 0
  {
    var own, rest := [Site(p, d.files)], SitesBelow(p, d, |d.kids|);
    ListedAppend(own, rest, p + rel);
    assert Listed(own, p) <==> CONFIG_NAME in own[0].files;
    SitesBelowExtend(p, d, |d.kids|);
    if rel == [] {
      assert p + rel == p;
      assert !Listed(rest, p);
    } else {
      assert own[0].path != p + rel;
      SitesBelowListed(p, d, |d.kids|, rel);
    }
  }

  lemma {:induction false} SitesBelowListed(p: Path, d: Dir, n: nat, rel: Path)
    requires n <= |d.kids| && rel != []
    ensures Listed(SitesBelow(p, d, n), p + rel) <==>
            exists i | 0 <= i < n :: d.kids[i].name == rel[0] && Holds(d.kids[i], rel[1..])
    decreases d, 0, n
  {
    if n > 0 {
      var kid := d.kids[n - 1];
      var q := p + [kid.name];
      SitesBelowListed(p, d, n - 1, rel);
      ListedAppend(SitesBelow(p, d, n - 1), Sites(q, kid), p + rel);
      if kid.name == rel[0] {
        assert p + rel == q + rel[1..];
        SitesListed(q, kid, rel[1..]);
      } else {
        SitesExtend(q, kid);
        assert (p + rel)[|p|] == rel[0] && q[|p|] == kid.name;
        assert !Listed(Sites(q, kid), p + rel);
      }
    }
  }

  lemma {:induction false} SelectMembers(n: nat, sites: seq<Site>, q: Path)
    ensures q in Select(n, sites) <==> IsOut(q) && Reachable(n, q) && Listed(sites, q)
  {
    if sites != [] {
      SelectMembers(n, sites[1..], q);
      ListedAppend([sites[0]], sites[1..], q);
      assert [sites[0]] + sites[1..] == sites;
      assert Listed([sites[0]], q) <==> [sites[0]][0].path == q && CONFIG_NAME in [sites[0]][0].files;
    }
  }

  /** A directory is met exactly when it is an `out` directory that holds a config and that nothing on the way prunes. */
  lemma MetMembers(p: Path, d: Dir, rel: Path)
    ensures p + rel in Met(p, d) <==> IsOut(p + rel) && Reachable(|p|, p + rel) && Holds(d, rel)
  {
    MetIsSelection(|p|, p, d);
    SelectMembers(|p|, Sites(p, d), p + rel);
    SitesListed(p, d, rel);
  }

  lemma MetExtends(p: Path, d: Dir, q: Path)
    requires q in Met(p, d)
    ensures p <= q
  {
    MetIsSelection(|p|, p, d);
    SelectMembers(|p|, Sites(p, d), q);
    SitesExtend(p, d);
  }

  // ---- The walk as the script runs it: a worklist of directories still to visit

  datatype Frame = Frame(path: Path, dir: Dir)

  function Size(d: Dir): nat
    decreases d, 1, 0
  {
    1 + SizeBelow(d, |d.kids|)
  }

  function SizeBelow(d: Dir, n: nat): nat
    requires n <= |d.kids|
    decreases d, 0, n
  {
    if n == 0 then 0 else SizeBelow(d, n - 1) + Size(d.kids[n - 1])
  }

  function Work(todo: seq<Frame>): nat {
    if todo == [] then 0 else Size(todo[0].dir) + Work(todo[1..])
  }

  /** What is still to be met, most urgent frame first. */
  function Pending(todo: seq<Frame>): seq<Path> {
    if todo == [] then [] else Met(todo[0].path, todo[0].dir) + Pending(todo[1..])
  }

  /** The entries of a directory once the pruned names are dropped from it. */
  function Unpruned(p: Path, d: Dir, n: nat): seq<Frame>
    requires n <= |d.kids|
  {
    if n == 0 then []
    else
      var kid := d.kids[n - 1];
      Unpruned(p, d, n - 1) + if kid.name in PRUNE then [] else [Frame(p + [kid.name], kid)]
  }

  lemma {:induction false} PendingAppend(a: seq<Frame>, b: seq<Frame>)
    ensures Pending(a + b) == Pending(a) + Pending(b)
    ensures Work(a + b) == Work(a) + Work(b)
  {
    if a == [] {
      assert a + b == b;
    } else {
      assert (a + b)[1..] == a[1..] + b && (a + b)[0] == a[0];
      PendingAppend(a[1..], b);
      assert Pending(a + b) == Met(a[0].path, a[0].dir) + (Pending(a[1..]) + Pending(b));
    }
  }

  lemma {:induction false} UnprunedCoversKids(p: Path, d: Dir, n: nat)
    requires n <= |d.kids|
    ensures Pending(Unpruned(p, d, n)) == MetAll(p, d, n)
    ensures Work(Unpruned(p, d, n)) <= SizeBelow(d, n)
  {
    if n > 0 {
      var kid := d.kids[n - 1];
      UnprunedCoversKids(p, d, n - 1);
      var q := p + [kid.name];
      var f := Frame(q, kid);
      assert q[|q| - 1] == kid.name;
      assert Pending([f]) == Met(q, kid) + Pending([f][1..]);
      assert Work([f]) == Size(kid) + Work([f][1..]);
      var before := Unpruned(p, d, n - 1);
      PendingAppend(before, [f]);
      assert Unpruned(p, d, n) == if kid.name in PRUNE then before else before + [f];
    }
  }

  /** Adds `config` to the list kept under `profile`. */
  function Recorded(found: map<Path, seq<Path>>, profile: Path, config: Path): map<Path, seq<Path>> {
    found[profile := (if profile in found then found[profile] else []) + [config]]
  }

  /** The configs of one profile among the `out` directories met, in the order they were met. */
  function ConfigsOf(outs: seq<Path>, profile: Path): seq<Path> {
    if outs == [] then []
    else
      var q := outs[|outs| - 1];
      ConfigsOf(outs[..|outs| - 1], profile) +
      if IsOut(q) && ProfileOf(q) == profile then [q + [CONFIG_NAME]] else []
  }

  /** `found` groups `outs` by profile: one non-empty list for each profile that has any. */
  predicate Groups(found: map<Path, seq<Path>>, outs: seq<Path>) {
    (forall p <- found :: found[p] == ConfigsOf(outs, p) && found[p] != []) &&
    (forall i | 0 <= i < |outs| :: IsOut(outs[i]) && ProfileOf(outs[i]) in found)
  }

  lemma RecordedGroups(found: map<Path, seq<Path>>, outs: seq<Path>, q: Path)
    requires Groups(found, outs) && IsOut(q)
    ensures Groups(Recorded(found, ProfileOf(q), q + [CONFIG_NAME]), outs + [q])
  {
    var next, all := Recorded(found, ProfileOf(q), q + [CONFIG_NAME]), outs + [q];
    assert all[..|all| - 1] == outs;
    if ProfileOf(q) !in found {
      ConfigsOfNone(outs, ProfileOf(q));
    }
  }

  lemma {:induction false} ConfigsOfNone(outs: seq<Path>, profile: Path)
    requires forall i | 0 <= i < |outs| :: IsOut(outs[i]) && ProfileOf(outs[i]) != profile
    ensures ConfigsOf(outs, profile) == []
  {
    if outs != [] {
      ConfigsOfNone(outs[..|outs| - 1], profile);
    }
  }

  /** Walks one root, adding what it meets to `before`. */
  method WalkRoot(root: Path, dir: Dir, before: map<Path, seq<Path>>, ghost met: seq<Path>)
    returns (found: map<Path, seq<Path>>)
    requires Groups(before, met)
    ensures Groups(found, met + Met(root, dir))
  {
    found := before;
    var todo := [Frame(root, dir)];
    ghost var outs := met;
    assert todo[1..] == [];
    assert outs + Pending(todo) == met + Met(root, dir);
    while todo != []
      invariant Groups(found, outs)
      invariant outs + Pending(todo) == met + Met(root, dir)
      decreases Work(todo)
    {
      var path, d := todo[0].path, todo[0].dir;
      var rest := todo[1..];
      if path != [] && path[|path| - 1] in PRUNE {
        todo := rest;
      } else if IsOut(path) {
        if CONFIG_NAME in d.files {
          RecordedGroups(found, outs, path);
          found := Recorded(found, ProfileOf(path), path + [CONFIG_NAME]);
          outs := outs + [path];
        }
        todo := rest;
      } else {
        UnprunedCoversKids(path, d, |d.kids|);
        PendingAppend(Unpruned(path, d, |d.kids|), rest);
        todo := Unpruned(path, d, |d.kids|) + rest;
      }
    }
    assert outs + Pending([]) == outs;
  }

  function MetIn(root: Root): seq<Path> {
    match root
    case Root(p, d) => Met(p, d)
    case Absent(_) => []
  }

  /** The `out` directories met under any of the roots, root by root. */
  function MetUnder(roots: seq<Root>): seq<Path> {
    if roots == [] then []
    else
      MetUnder(roots[..|roots| - 1]) + MetIn(roots[|roots| - 1])
  }

  method FindImageRoots(roots: seq<Root>) returns (found: map<Path, seq<Path>>)
    ensures Groups(found, MetUnder(roots))
  {
    found := map[];
    for i := 0 to |roots|
      invariant Groups(found, MetUnder(roots[..i]))
    {
      assert roots[..i + 1][..i] == roots[..i];
      if roots[i].Root? {
        found := WalkRoot(roots[i].path, roots[i].dir, found, MetUnder(roots[..i]));
      } else {
        assert MetUnder(roots[..i + 1]) == MetUnder(roots[..i]);
      }
      assert MetUnder(roots[..i + 1]) == MetUnder(roots[..i]) + MetIn(roots[i]);
    }
    assert roots[..|roots|] == roots;
  }

  // ---- What the result means

  /** `c` is a config some root holds in a `build/<package>/out` of `profile`, with nothing pruned before it. */
  predicate Belongs(roots: seq<Root>, profile: Path, package: string, c: Path) {
    var q := profile + ["build", package, "out"];
    c == q + [CONFIG_NAME] &&
    exists i | 0 <= i < |roots| :: HeldBy(roots[i], q)
  }

  predicate HeldBy(root: Root, q: Path) {
    root.Root? && root.path <= q && Holds(root.dir, q[|root.path|..]) && Reachable(|root.path|, q)
  }

  lemma {:induction false} MetUnderMembers(roots: seq<Root>, q: Path)
    ensures q in MetUnder(roots) <==> IsOut(q) && exists i | 0 <= i < |roots| :: HeldBy(roots[i], q)
  {
    if roots != [] {
      var n := |roots| - 1;
      MetUnderMembers(roots[..n], q);
      var r := roots[n];
      if r.Root? {
        if r.path <= q {
          assert r.path + q[|r.path|..] == q;
          MetMembers(r.path, r.dir, q[|r.path|..]);
        } else if q in Met(r.path, r.dir) {
          MetExtends(r.path, r.dir, q);
        }
      }
      assert forall i | 0 <= i < n :: roots[..n][i] == roots[i];
    }
  }

  lemma {:induction false} ConfigsOfMembers(outs: seq<Path>, profile: Path, c: Path)
    ensures c in ConfigsOf(outs, profile) <==>
            exists q <- outs :: IsOut(q) && ProfileOf(q) == profile && c == q + [CONFIG_NAME]
  {
    if outs != [] {
      var n := |outs| - 1;
      ConfigsOfMembers(outs[..n], profile, c);
      assert outs == outs[..n] + [outs[n]];
    }
  }

  lemma OutShape(q: Path, profile: Path)
    ensures IsOut(q) && ProfileOf(q) == profile <==> exists package :: q == profile + ["build", package, "out"]
  {
    if IsOut(q) && ProfileOf(q) == profile {
      assert q == profile + ["build", q[|q| - 2], "out"];
    }
  }

  /** The walk returns exactly the configs that belong, under exactly the profiles that have one. */
  lemma FoundExactly(roots: seq<Root>, found: map<Path, seq<Path>>, profile: Path, c: Path)
    requires Groups(found, MetUnder(roots))
    ensures (profile in found && c in found[profile]) <==> exists package :: Belongs(roots, profile, package, c)
    ensures profile in found <==> exists package, x :: Belongs(roots, profile, package, x)
  {
    FoundMembers(roots, found, profile, c);
    if profile in found {
      FoundMembers(roots, found, profile, found[profile][0]);
    }
    forall package, x | Belongs(roots, profile, package, x) ensures profile in found {
      FoundMembers(roots, found, profile, x);
    }
  }

  lemma FoundMembers(roots: seq<Root>, found: map<Path, seq<Path>>, profile: Path, c: Path)
    requires Groups(found, MetUnder(roots))
    ensures (profile in found && c in found[profile]) <==> exists package :: Belongs(roots, profile, package, c)
  {
    var outs := MetUnder(roots);
    ConfigsOfMembers(outs, profile, c);
    if profile in found && c in found[profile] {
      var q :| q in outs && IsOut(q) && ProfileOf(q) == profile && c == q + [CONFIG_NAME];
      MetUnderMembers(roots, q);
      OutShape(q, profile);
      var package :| q == profile + ["build", package, "out"];
      assert Belongs(roots, profile, package, c);
    }
    forall package | Belongs(roots, profile, package, c) ensures profile in found && c in found[profile] {
      var q := profile + ["build", package, "out"];
      OutShape(q, profile);
      MetUnderMembers(roots, q);
    }
  }

  // ---- No config is listed twice

  predicate NamesApart(d: Dir) {
    forall i, j | 0 <= i < j < |d.kids| :: d.kids[i].name != d.kids[j].name
  }

  /** A real directory: no two entries share a name, here and all the way down. */
  predicate DistinctNames(d: Dir) {
    NamesApart(d) && forall i | 0 <= i < |d.kids| :: DistinctNames(d.kids[i])
  }

  predicate NoRepeat(s: seq<Path>) {
    forall i, j | 0 <= i < j < |s| :: s[i] != s[j]
  }

  lemma NoRepeatAppend(a: seq<Path>, b: seq<Path>)
    requires NoRepeat(a) && NoRepeat(b) && (forall q <- b :: q !in a)
    ensures NoRepeat(a + b)
  {
    assert forall k | 0 <= k < |b| :: b[k] in b;
    assert forall k | 0 <= k < |a| :: a[k] in a;
  }

  /** What the walk meets below the `i`-th entry of `d`. */
  function MetKid(p: Path, d: Dir, i: nat): seq<Path>
    requires i < |d.kids|
  {
    Met(p + [d.kids[i].name], d.kids[i])
  }

  /** Every path goes through one of the first `n` entries of `d`. */
  predicate Through(p: Path, d: Dir, n: nat, s: seq<Path>)
    requires n <= |d.kids|
  {
    forall q <- s :: |q| > |p| && exists i | 0 <= i < n :: d.kids[i].name == q[|p|]
  }

  predicate ThroughKid(p: Path, d: Dir, n: nat, s: seq<Path>)
    requires n < |d.kids|
  {
    forall q <- s :: |q| > |p| && q[|p|] == d.kids[n].name
  }

  lemma MetThrough(p: Path, d: Dir, n: nat)
    requires n < |d.kids|
    ensures ThroughKid(p, d, n, MetKid(p, d, n))
  {
    var kid := d.kids[n];
    forall q <- MetKid(p, d, n)
      ensures |q| > |p| && q[|p|] == kid.name
    {
      MetExtends(p + [kid.name], kid, q);
    }
  }

  lemma ThroughAppend(p: Path, d: Dir, n: nat, a: seq<Path>, b: seq<Path>)
    requires NamesApart(d) && n < |d.kids| && Through(p, d, n, a) && ThroughKid(p, d, n, b)
    requires NoRepeat(a) && NoRepeat(b)
    ensures NoRepeat(a + b) && Through(p, d, n + 1, a + b)
  {
    NoRepeatAppend(a, b);
  }

  lemma MetAllStep(p: Path, d: Dir, n: nat)
    requires n < |d.kids|
    ensures MetAll(p, d, n + 1) == MetAll(p, d, n) + MetKid(p, d, n)
  {
  }

  lemma {:induction false} MetAllOnce(p: Path, d: Dir, n: nat)
    requires NamesApart(d) && n <= |d.kids|
    requires forall i | 0 <= i < |d.kids| :: NoRepeat(MetKid(p, d, i))
    ensures NoRepeat(MetAll(p, d, n)) && Through(p, d, n, MetAll(p, d, n))
  {
    if n > 0 {
      var m := n - 1;
      MetAllOnce(p, d, m);
      MetThrough(p, d, m);
      ThroughAppend(p, d, m, MetAll(p, d, m), MetKid(p, d, m));
      MetAllStep(p, d, m);
    }
  }

  /** One root's walk meets no directory twice. */
  lemma {:induction false} MetOnce(p: Path, d: Dir)
    requires DistinctNames(d)
    ensures NoRepeat(Met(p, d))
    decreases d
  {
    forall i | 0 <= i < |d.kids| ensures NoRepeat(MetKid(p, d, i)) {
      MetOnce(p + [d.kids[i].name], d.kids[i]);
    }
    MetAllOnce(p, d, |d.kids|);
  }
}
