/** The arch-profile resolver and its five rules. */
module ArchProfiles {
  import opened Text

  datatype Abi = Hard | Soft

  datatype Profile = Profile(targetMatch: Option<string>, targetExclude: Option<string>,
                             cflags: Option<seq<string>>)

  /** What one `nros-platform.toml` parses to. */
  datatype PlatformFile = PlatformFile(rel: string, profiles: map<string, Profile>,
                                       declared: seq<string>, inherits: bool)

  /** The platform files of one root, in the order they were read. */
  type Root = seq<PlatformFile>

  // ------------------------------------------------------------- the predicates

  predicate ArchMatches(p: Profile, target: string) {
    (p.targetMatch.Some? ==> Within(p.targetMatch.value, target)) &&
    (p.targetExclude.Some? ==> !Within(p.targetExclude.value, target))
  }

  /** A profile admits the triples that hold its `target_match` anywhere and its `target_exclude` nowhere. */
  lemma AdmittedTriples(p: Profile, triple: string)
    ensures ArchMatches(p, triple) <==>
            (p.targetMatch.None? || exists a, b :: triple == a + p.targetMatch.value + b) &&
            (p.targetExclude.None? || forall a, b :: triple != a + p.targetExclude.value + b)
  {
    if p.targetMatch.Some? {
      WithinIff(p.targetMatch.value, triple);
    }
    if p.targetExclude.Some? {
      WithinIff(p.targetExclude.value, triple);
    }
  }

  predicate DigitAt(s: string, i: nat) { i < |s| && Digit(s[i]) }

  /** `^(?:armv?|thumbv)[0-9]` */
  predicate ArmTriple(t: string) {
    ("arm" <= t && DigitAt(t, 3)) || ("armv" <= t && DigitAt(t, 4)) || ("thumbv" <= t && DigitAt(t, 6))
  }

  function TripleAbi(t: string): Option<Abi> {
    if !ArmTriple(t) then None else
      var stem := Before(t, ".json");
      if EndsWith(stem, "hf") then Some(Hard)
      else if EndsWith(stem, "eabi") || Within("-eabi-", stem) then Some(Soft)
      else None
  }

  const FLOAT_ABI := "-mfloat-abi="

  predicate StatesFloatAbi(flag: string) {
    FLOAT_ABI <= flag && |flag| > |FLOAT_ABI| && forall c <- flag[|FLOAT_ABI|..] :: WordChar(c)
  }

  /** The last stated float ABI; `softfp` passes floats like `soft`. */
  function CflagsAbi(cflags: seq<string>): Option<Abi> {
    if cflags == [] then None else
      var f := cflags[|cflags| - 1];
      if StatesFloatAbi(f) then Some(if f[|FLOAT_ABI|..] == "hard" then Hard else Soft)
      else CflagsAbi(cflags[..|cflags| - 1])
  }

  method ReadCflagsAbi(cflags: seq<string>) returns (abi: Option<Abi>)
    ensures abi == CflagsAbi(cflags)
  {
    abi := None;
    for i := 0 to |cflags|
      invariant abi == CflagsAbi(cflags[..i])
    {
      assert cflags[..i + 1][..i] == cflags[..i];
      if StatesFloatAbi(cflags[i]) {
        abi := Some(if cflags[i][|FLOAT_ABI|..] == "hard" then Hard else Soft);
      }
    }
    assert cflags[..|cflags|] == cflags;
  }

  // ------------------------------------------------------------- what the two ABIs are

  const HARD_FLAG := "-mfloat-abi=hard"
  const SOFT_FLAG := "-mfloat-abi=soft"
  const SOFTFP_FLAG := "-mfloat-abi=softfp"

  lemma {:induction false} LastFlagDecides(a: seq<string>, f: string, b: seq<string>)
    requires StatesFloatAbi(f) && forall g <- b :: !StatesFloatAbi(g)
    ensures CflagsAbi(a + [f] + b) == Some(if f == HARD_FLAG then Hard else Soft)
  {
    var all := a + [f] + b;
    if b == [] {
      assert f == FLOAT_ABI + f[|FLOAT_ABI|..];
      assert HARD_FLAG[|FLOAT_ABI|..] == "hard" && HARD_FLAG == FLOAT_ABI + "hard";
    } else {
      assert all[|all| - 1] == b[|b| - 1] && b[|b| - 1] in b;
      assert all[..|all| - 1] == a + [f] + b[..|b| - 1];
      LastFlagDecides(a, f, b[..|b| - 1]);
    }
  }

  lemma FloatFlags()
    ensures StatesFloatAbi(HARD_FLAG) && StatesFloatAbi(SOFT_FLAG) && StatesFloatAbi(SOFTFP_FLAG)
  {
    assert HARD_FLAG == FLOAT_ABI + "hard" && HARD_FLAG[|FLOAT_ABI|..] == "hard";
    assert SOFT_FLAG == FLOAT_ABI + "soft" && SOFT_FLAG[|FLOAT_ABI|..] == "soft";
    assert SOFTFP_FLAG == FLOAT_ABI + "softfp" && SOFTFP_FLAG[|FLOAT_ABI|..] == "softfp";
  }

  /** The last flag of the three decides; `softfp` is a soft calling convention. */
  lemma FloatFlagDecides(a: seq<string>, b: seq<string>)
    requires forall g <- b :: !StatesFloatAbi(g)
    ensures CflagsAbi(a + [HARD_FLAG] + b) == Some(Hard)
    ensures CflagsAbi(a + [SOFT_FLAG] + b) == Some(Soft)
    ensures CflagsAbi(a + [SOFTFP_FLAG] + b) == Some(Soft)
    ensures CflagsAbi(b) == None
  {
    FloatFlags();
    LastFlagDecides(a, HARD_FLAG, b);
    LastFlagDecides(a, SOFT_FLAG, b);
    LastFlagDecides(a, SOFTFP_FLAG, b);
    SilentFlags(b);
  }

  lemma {:induction false} SilentFlags(b: seq<string>)
    requires forall g <- b :: !StatesFloatAbi(g)
    ensures CflagsAbi(b) == None
  {
    if b != [] {
      assert b[|b| - 1] in b;
      SilentFlags(b[..|b| - 1]);
    }
  }

  /** Nothing, or the extension of a target description and whatever follows it. */
  predicate JsonTail(tail: string) { tail == "" || ".json" <= tail }

  lemma {:induction false} StemOf(stem: string, tail: string)
    requires JsonTail(tail) && !Within(".json", stem)
    ensures Before(stem + tail, ".json") == stem
  {
    if stem == "" {
      assert stem + tail == tail;
    } else {
      var t := stem + tail;
      assert stem[0..] == stem;
      assert !(".json" <= t) by {
        if |stem| >= 5 {
          assert t[..5] == stem[..5];
        } else if tail != "" {
          assert t[|stem|] == '.' && |stem| > 0 && ".json"[|stem|] != '.';
        }
      }
      assert t[1..] == stem[1..] + tail;
      assert forall i :: 0 <= i <= |stem[1..]| ==> stem[1..][i..] == stem[i + 1..];
      StemOf(stem[1..], tail);
    }
  }

  /** The families of ARM triples: a digit behind `arm`, `armv` or `thumbv`, whatever follows. */
  lemma ArmFamilies(d: char, rest: string)
    requires Digit(d)
    ensures ArmTriple("arm" + [d] + rest) && ArmTriple("armv" + [d] + rest) && ArmTriple("thumbv" + [d] + rest)
  {
    assert ("arm" + [d] + rest)[3] == d;
    assert ("armv" + [d] + rest)[4] == d;
    assert ("thumbv" + [d] + rest)[6] == d;
  }

  /** Any other architecture spells no ABI. */
  lemma OtherArchitectures(t: string)
    requires !("arm" <= t) && !("thumbv" <= t)
    ensures TripleAbi(t) == None
  {
    assert "arm" <= "armv";
  }

  /** A triple, with or without the file of its target description, is hard if it ends in `eabihf`, and soft if it ends
      in `eabi` or goes on behind it. */
  lemma TripleSpellsAbi(s: string, os: string, tail: string)
    requires JsonTail(tail)
    ensures var t := s + "eabihf";
            ArmTriple(t + tail) && !Within(".json", t) ==> TripleAbi(t + tail) == Some(Hard)
    ensures var t := s + "eabi";
            ArmTriple(t + tail) && !Within(".json", t) ==> TripleAbi(t + tail) == Some(Soft)
    ensures var t := s + "-eabi-" + os;
            ArmTriple(t + tail) && !Within(".json", t) && !EndsWith(t, "hf") ==> TripleAbi(t + tail) == Some(Soft)
  {
    var hard, soft, mid := s + "eabihf", s + "eabi", s + "-eabi-" + os;
    assert hard[|hard| - 2..] == "hf";
    assert soft[|soft| - 4..] == "eabi" && soft[|soft| - 2..] == "bi";
    assert mid[|s|..] == "-eabi-" + os && "-eabi-" <= mid[|s|..];
    if !Within(".json", hard) {
      StemOf(hard, tail);
    }
    if !Within(".json", soft) {
      StemOf(soft, tail);
    }
    if !Within(".json", mid) {
      StemOf(mid, tail);
    }
  }

  // ------------------------------------------------------------- merge and resolve

  /** A root's `[arch.*]` blocks: a later file's block replaces an earlier one's. */
  function Merged(files: Root): map<string, Profile> {
    if files == [] then map[] else
      Merged(files[..|files| - 1]) + files[|files| - 1].profiles
  }

  /** The first file of the root that defines each block. */
  function Owner(files: Root): (m: map<string, string>)
    ensures m.Keys == Merged(files).Keys
  {
    if files == [] then map[] else
      var f := files[|files| - 1];
      (map n | n in f.profiles :: f.rel) + Owner(files[..|files| - 1])
  }

  /** The block in force is the last file's, and it is owned by the first file that writes one. */
  lemma {:induction false} LastFileWrites(a: Root, f: PlatformFile, b: Root, n: string)
    requires n in f.profiles && forall g <- b :: n !in g.profiles
    ensures var files := a + [f] + b; n in Merged(files) && Merged(files)[n] == f.profiles[n]
  {
    var files := a + [f] + b;
    if b == [] {
      assert files[..|files| - 1] == a;
    } else {
      assert files[..|files| - 1] == a + [f] + b[..|b| - 1];
      assert files[|files| - 1] == b[|b| - 1] && b[|b| - 1] in b;
      LastFileWrites(a, f, b[..|b| - 1], n);
    }
  }

  lemma {:induction false} FirstFileOwns(a: Root, f: PlatformFile, b: Root, n: string)
    requires n in f.profiles && forall g <- a :: n !in g.profiles
    ensures var files := a + [f] + b; n in Owner(files) && Owner(files)[n] == f.rel
  {
    var files := a + [f] + b;
    if b == [] {
      assert files[..|files| - 1] == a;
      Unowned(a, n);
    } else {
      assert files[..|files| - 1] == a + [f] + b[..|b| - 1];
      FirstFileOwns(a, f, b[..|b| - 1], n);
    }
  }

  lemma {:induction false} Unowned(a: Root, n: string)
    requires forall g <- a :: n !in g.profiles
    ensures n !in Owner(a)
  {
    if a != [] {
      assert a[|a| - 1] in a;
      Unowned(a[..|a| - 1], n);
    }
  }

  function Claimed(files: Root): set<string> {
    set f, n | f in files && !f.inherits && n in f.declared :: n
  }

  predicate Admits(merged: map<string, Profile>, n: string, triple: string) {
    n in merged && ArchMatches(merged[n], triple)
  }

  function Hits(declared: seq<string>, merged: map<string, Profile>, triple: string): (hits: seq<string>)
    ensures forall n :: n in hits <==> n in declared && Admits(merged, n, triple)
  {
    if declared == [] then [] else
      (if Admits(merged, declared[0], triple) then [declared[0]] else []) + Hits(declared[1..], merged, triple)
  }

  /** First match wins, in declared order. */
  function Resolve(declared: seq<string>, merged: map<string, Profile>, triple: string): Option<string> {
    if declared == [] then None
    else if Admits(merged, declared[0], triple) then Some(declared[0])
    else Resolve(declared[1..], merged, triple)
  }

  lemma {:induction false} ResolveIsFirstHit(declared: seq<string>, merged: map<string, Profile>, triple: string)
    ensures var hits := Hits(declared, merged, triple);
            Resolve(declared, merged, triple) == if hits == [] then None else Some(hits[0])
  {
    if declared != [] {
      ResolveIsFirstHit(declared[1..], merged, triple);
    }
  }

  // ------------------------------------------------------------- the rules

  type Key = (string, string)  // (platform, profile)

  datatype Problem =
    | InheritsUnread(rel: string)
    | Undefined(rel: string, name: string)                              // R1
    | Unlisted(owner: string, name: string)                             // R2
    | WrongAbi(rel: string, name: string, triple: string, want: Abi)    // R3
    | Shadowed(rel: string, triple: string, hits: seq<string>)          // R4
    | Inert(owner: string, name: string)                                // R5

  function FlagsOf(p: Profile): seq<string> { if p.cflags.Some? then p.cflags.value else [] }

  predicate ContradictsAbi(p: Profile, triple: string) {
    TripleAbi(triple).Some? && CflagsAbi(FlagsOf(p)).Some? && TripleAbi(triple) != CflagsAbi(FlagsOf(p))
  }

  /** A profile's flags contradict a triple iff the last float flag says the other convention. */
  lemma FlagsContradictIff(p: Profile, a: seq<string>, f: string, b: seq<string>, triple: string)
    requires p.cflags == Some(a + [f] + b) && StatesFloatAbi(f) && forall g <- b :: !StatesFloatAbi(g)
    ensures ContradictsAbi(p, triple) <==> TripleAbi(triple) == Some(if f == HARD_FLAG then Soft else Hard)
  {
    LastFlagDecides(a, f, b);
  }

  /** Flags that state none contradict nothing. */
  lemma SilentFlagsContradictNothing(p: Profile, triple: string)
    requires p.cflags.Some? ==> forall g <- p.cflags.value :: !StatesFloatAbi(g)
    ensures !ContradictsAbi(p, triple)
  {
    SilentFlags(FlagsOf(p));
  }

  predicate IsFileProblem(f: PlatformFile, merged: map<string, Profile>, triples: seq<string>, p: Problem) {
    match p
    case InheritsUnread(rel) => f.rel == rel && f.inherits
    case Undefined(rel, name) => f.rel == rel && !f.inherits && name in f.declared && name !in merged
    case WrongAbi(rel, name, triple, want) =>
      f.rel == rel && !f.inherits && triple in triples &&
      Resolve(f.declared, merged, triple) == Some(name) && name in merged &&
      TripleAbi(triple) == Some(want) && ContradictsAbi(merged[name], triple)
    case Shadowed(rel, triple, hits) =>
      f.rel == rel && !f.inherits && triple in triples &&
      hits == Hits(f.declared, merged, triple) && |hits| > 1
    case _ => false
  }

  predicate UnlistedIn(files: Root, k: Key) {
    k.1 in Merged(files) && Owner(files)[k.1] == k.0 && k.1 !in Claimed(files)
  }

  predicate InertIn(files: Root, triples: seq<string>, k: Key) {
    k.1 in Merged(files) && Owner(files)[k.1] == k.0 &&
    forall t <- triples :: !ArchMatches(Merged(files)[k.1], t)
  }

  predicate IsRootProblem(files: Root, triples: seq<string>, unlisted: set<Key>, inert: set<Key>, p: Problem) {
    match p
    case Unlisted(owner, name) => UnlistedIn(files, (owner, name)) && (owner, name) !in unlisted
    case Inert(owner, name) => InertIn(files, triples, (owner, name)) && (owner, name) !in inert
    case _ => exists f <- files :: IsFileProblem(f, Merged(files), triples, p)
  }

  predicate IsProblem(tree: seq<Root>, triples: seq<string>, unlisted: set<Key>, inert: set<Key>, p: Problem) {
    exists files <- tree :: IsRootProblem(files, triples, unlisted, inert, p)
  }

  method CheckTriples(f: PlatformFile, merged: map<string, Profile>, triples: seq<string>)
    returns (problems: seq<Problem>)
    requires !f.inherits
    ensures forall p :: p in problems <==>
                        (p.Shadowed? || p.WrongAbi?) && IsFileProblem(f, merged, triples, p)
  {
    problems := [];
    for i := 0 to |triples|
      invariant forall p :: p in problems <==>
                            (p.Shadowed? || p.WrongAbi?) && IsFileProblem(f, merged, triples[..i], p)
    {
      var triple := triples[i];
      assert triples[..i + 1] == triples[..i] + [triple];
      var hits := Hits(f.declared, merged, triple);
      ResolveIsFirstHit(f.declared, merged, triple);
      if hits == [] {
        continue;
      }
      assert hits[0] in hits;
      if |hits| > 1 {
        problems := problems + [Shadowed(f.rel, triple, hits)];
      }
      var want := TripleAbi(triple);
      var got := ReadCflagsAbi(FlagsOf(merged[hits[0]]));
      if want.Some? && got.Some? && want != got {
        problems := problems + [WrongAbi(f.rel, hits[0], triple, want.value)];
      }
    }
    assert triples[..|triples|] == triples;
  }

  method CheckPlatform(f: PlatformFile, merged: map<string, Profile>, triples: seq<string>)
    returns (problems: seq<Problem>)
    ensures forall p :: p in problems <==> IsFileProblem(f, merged, triples, p)
  {
    if f.inherits {
      return [InheritsUnread(f.rel)];
    }
    problems := [];
    for i := 0 to |f.declared|
      invariant forall p :: p in problems <==>
                            p.Undefined? && p.rel == f.rel && p.name in f.declared[..i] && p.name !in merged
    {
      if f.declared[i] !in merged {
        problems := problems + [Undefined(f.rel, f.declared[i])];
      }
    }
    assert f.declared[..|f.declared|] == f.declared;
    var more := CheckTriples(f, merged, triples);
    problems := problems + more;
  }

  method MergeRoot(files: Root) returns (merged: map<string, Profile>, owner: map<string, string>)
    ensures merged == Merged(files) && owner == Owner(files)
  {
    merged, owner := map[], map[];
    for i := 0 to |files|
      invariant merged == Merged(files[..i]) && owner == Owner(files[..i])
    {
      assert files[..i + 1][..i] == files[..i];
      merged := merged + files[i].profiles;
      owner := (map n | n in files[i].profiles :: files[i].rel) + owner;
    }
    assert files[..|files|] == files;
  }

  method CheckPlatforms(files: Root, merged: map<string, Profile>, triples: seq<string>)
    returns (problems: seq<Problem>, claimed: set<string>)
    ensures claimed == Claimed(files)
    ensures forall p :: p in problems <==> exists f <- files :: IsFileProblem(f, merged, triples, p)
  {
    problems, claimed := [], {};
    for i := 0 to |files|
      invariant claimed == Claimed(files[..i])
      invariant forall p :: p in problems <==> exists f <- files[..i] :: IsFileProblem(f, merged, triples, p)
    {
      var found := CheckPlatform(files[i], merged, triples);
      assert files[..i + 1] == files[..i] + [files[i]];
      problems := problems + found;
      if !files[i].inherits {
        claimed := claimed + set n | n in files[i].declared;
      }
    }
    assert files[..|files|] == files;
  }

  /** The rules about one block of a root: R2 and R5, independently. */
  predicate IsBlockProblem(merged: map<string, Profile>, owner: map<string, string>, claimed: set<string>,
                           triples: seq<string>, unlisted: set<Key>, inert: set<Key>, p: Problem) {
    match p
    case Unlisted(o, n) =>
      n in merged && n in owner && owner[n] == o && n !in claimed && (o, n) !in unlisted
    case Inert(o, n) =>
      n in merged && n in owner && owner[n] == o && (o, n) !in inert &&
      forall t <- triples :: !ArchMatches(merged[n], t)
    case _ => false
  }

  function BlockName(p: Problem): Option<string> {
    match p
    case Unlisted(_, n) => Some(n)
    case Inert(_, n) => Some(n)
    case _ => None
  }

  method CheckBlocks(merged: map<string, Profile>, owner: map<string, string>, claimed: set<string>,
                     triples: seq<string>, unlisted: set<Key>, inert: set<Key>)
    returns (problems: seq<Problem>)
    requires owner.Keys == merged.Keys
    ensures forall p :: p in problems <==> IsBlockProblem(merged, owner, claimed, triples, unlisted, inert, p)
  {
    problems := [];
    var names := merged.Keys;
    while names != {}
      invariant names <= merged.Keys
      invariant forall p :: p in problems <==>
                            IsBlockProblem(merged, owner, claimed, triples, unlisted, inert, p) &&
                            BlockName(p).value !in names
      decreases |names|
    {
      var name :| name in names;
      if name !in claimed && (owner[name], name) !in unlisted {
        problems := problems + [Unlisted(owner[name], name)];
      }
      if (forall t <- triples :: !ArchMatches(merged[name], t)) && (owner[name], name) !in inert {
        problems := problems + [Inert(owner[name], name)];
      }
      names := names - {name};
    }
  }

  method CheckRoot(files: Root, triples: seq<string>, unlisted: set<Key>, inert: set<Key>)
    returns (problems: seq<Problem>)
    ensures forall p :: p in problems <==> IsRootProblem(files, triples, unlisted, inert, p)
  {
    var merged, owner := MergeRoot(files);
    var claimed;
    problems, claimed := CheckPlatforms(files, merged, triples);
    var blocks := CheckBlocks(merged, owner, claimed, triples, unlisted, inert);
    problems := problems + blocks;
  }

  method Check(tree: seq<Root>, triples: seq<string>, unlisted: set<Key>, inert: set<Key>)
    returns (rc: int, problems: seq<Problem>)
    ensures forall p :: p in problems <==> IsProblem(tree, triples, unlisted, inert, p)
    ensures rc == if problems == [] then 0 else 1
  {
    problems := [];
    for i := 0 to |tree|
      invariant forall p :: p in problems <==> IsProblem(tree[..i], triples, unlisted, inert, p)
    {
      var found := CheckRoot(tree[i], triples, unlisted, inert);
      assert tree[..i + 1] == tree[..i] + [tree[i]];
      problems := problems + found;
    }
    assert tree[..|tree|] == tree;
    rc := if problems == [] then 0 else 1;
  }
}
