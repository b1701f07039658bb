/** What a clean run of the arch-profile gate guarantees. */
module ArchGuarantees {
  import opened Text
  import opened ArchProfiles

  ghost predicate Clean(tree: seq<Root>, triples: seq<string>, unlisted: set<Key>, inert: set<Key>) {
    forall p :: !IsProblem(tree, triples, unlisted, inert, p)
  }

  // ------------------------------------------------------- order independence

  lemma {:induction false} HitsCount(declared: seq<string>, merged: map<string, Profile>, triple: string, n: string)
    ensures multiset(Hits(declared, merged, triple))[n]
            == if Admits(merged, n, triple) then multiset(declared)[n] else 0
  {
    if declared != [] {
      HitsCount(declared[1..], merged, triple, n);
      assert declared == [declared[0]] + declared[1..];
    }
  }

  lemma SingletonPermutation(xs: seq<string>, ys: seq<string>)
    requires multiset(xs) == multiset(ys) && |xs| <= 1
    ensures xs == ys
  {
    assert |multiset(xs)| == |xs| && |multiset(ys)| == |ys|;
    if |xs| == 1 {
      assert ys[0] in multiset(ys);
    }
  }

  /** When R4 holds, no permutation of `arch_profiles` changes any answer. */
  lemma ResolutionIgnoresOrder(tree: seq<Root>, triples: seq<string>, unlisted: set<Key>, inert: set<Key>,
                               files: Root, f: PlatformFile, triple: string, order: seq<string>)
    requires Clean(tree, triples, unlisted, inert)
    requires files in tree && f in files && triple in triples
    requires multiset(order) == multiset(f.declared)
    ensures Resolve(order, Merged(files), triple) == Resolve(f.declared, Merged(files), triple)
  {
    var merged := Merged(files);
    var hits := Hits(f.declared, merged, triple);
    assert !IsProblem(tree, triples, unlisted, inert, InheritsUnread(f.rel));
    assert !f.inherits;
    var p := Shadowed(f.rel, triple, hits);
    assert |hits| > 1 ==> IsFileProblem(f, merged, triples, p);
    assert |hits| > 1 ==> IsRootProblem(files, triples, unlisted, inert, p);
    assert !IsProblem(tree, triples, unlisted, inert, p);
    forall n ensures multiset(Hits(order, merged, triple))[n] == multiset(hits)[n] {
      HitsCount(order, merged, triple, n);
      HitsCount(f.declared, merged, triple, n);
    }
    SingletonPermutation(hits, Hits(order, merged, triple));
    ResolveIsFirstHit(order, merged, triple);
    ResolveIsFirstHit(f.declared, merged, triple);
  }

  // ------------------------------------------------------- right ABI, no dead names

  /** R1 and R3: every declared name is defined, and no answer states a float ABI that
      contradicts its triple. */
  lemma AnswersAreWiredRight(tree: seq<Root>, triples: seq<string>, unlisted: set<Key>, inert: set<Key>,
                             files: Root, f: PlatformFile, triple: string)
    requires Clean(tree, triples, unlisted, inert)
    requires files in tree && f in files && triple in triples
    ensures forall n <- f.declared :: n in Merged(files)
    ensures var a := Resolve(f.declared, Merged(files), triple);
            a.Some? ==> a.value in Merged(files) && !ContradictsAbi(Merged(files)[a.value], triple)
  {
    var merged := Merged(files);
    assert !f.inherits by {
      assert !IsProblem(tree, triples, unlisted, inert, InheritsUnread(f.rel));
      assert !IsRootProblem(files, triples, unlisted, inert, InheritsUnread(f.rel));
    }
    forall n <- f.declared ensures n in merged {
      assert !IsProblem(tree, triples, unlisted, inert, Undefined(f.rel, n));
      assert !IsRootProblem(files, triples, unlisted, inert, Undefined(f.rel, n));
    }
    ResolveIsFirstHit(f.declared, merged, triple);
    var a := Resolve(f.declared, merged, triple);
    if a.Some? {
      assert a.value in Hits(f.declared, merged, triple);
      if ContradictsAbi(merged[a.value], triple) {
        var p := WrongAbi(f.rel, a.value, triple, TripleAbi(triple).value);
        assert !IsProblem(tree, triples, unlisted, inert, p);
        assert !IsRootProblem(files, triples, unlisted, inert, p);
        assert IsFileProblem(f, merged, triples, p);
      }
    }
  }

  // ------------------------------------------------------- nothing inert, nothing shadowed

  ghost predicate IsAnswer(files: Root, triples: seq<string>, name: string) {
    exists f, t :: f in files && t in triples && Resolve(f.declared, Merged(files), t) == Some(name)
  }

  /** With empty debt lists, every defined profile is the actual answer for some platform and
      triple: R2, R4 and R5 jointly leave no block unreachable, shadowed or inert. */
  lemma EveryProfileAnswers(tree: seq<Root>, triples: seq<string>, files: Root, name: string)
    requires Clean(tree, triples, {}, {}) && files in tree && name in Merged(files)
    ensures IsAnswer(files, triples, name)
  {
    var merged := Merged(files);
    var key := (Owner(files)[name], name);
    assert !IsProblem(tree, triples, {}, {}, Unlisted(key.0, name));
    assert !IsRootProblem(files, triples, {}, {}, Unlisted(key.0, name));
    assert name in Claimed(files);
    var f :| f in files && !f.inherits && name in f.declared;
    assert !IsProblem(tree, triples, {}, {}, Inert(key.0, name));
    assert !IsRootProblem(files, triples, {}, {}, Inert(key.0, name));
    var t :| t in triples && ArchMatches(merged[name], t);
    var hits := Hits(f.declared, merged, t);
    assert name in hits;
    var p := Shadowed(f.rel, t, hits);
    assert !IsProblem(tree, triples, {}, {}, p);
    assert !IsRootProblem(files, triples, {}, {}, p);
    assert !IsFileProblem(f, merged, triples, p);
    ResolveIsFirstHit(f.declared, merged, t);
    assert hits == [name];
  }

  lemma {:induction false} MergedFrom(files: Root, name: string)
    requires name in Merged(files)
    ensures exists f <- files :: name in f.profiles && Merged(files)[name] == f.profiles[name]
  {
    var m := |files| - 1;
    if name !in files[m].profiles {
      MergedFrom(files[..m], name);
    }
  }

  lemma {:induction false} MergedCovers(files: Root, f: PlatformFile, name: string)
    requires f in files && name in f.profiles
    ensures name in Merged(files)
  {
    var m := |files| - 1;
    if name !in files[m].profiles {
      assert f in files[..m];
      MergedCovers(files[..m], f, name);
    }
  }

  predicate InForce(files: Root, f: PlatformFile, n: string) {
    n in f.profiles ==> n in Merged(files) && Merged(files)[n] == f.profiles[n]
  }

  predicate Agree(f: PlatformFile, g: PlatformFile) {
    forall n :: n in f.profiles && n in g.profiles ==> f.profiles[n] == g.profiles[n]
  }

  /** The rules judge merged blocks. Every block as written is the one in force iff no two
      files of the root write the same name differently, which no rule asks. */
  lemma WrittenBlocksInForce(files: Root)
    ensures (forall f <- files :: forall n <- f.profiles :: InForce(files, f, n)) <==>
            (forall f <- files :: forall g <- files :: Agree(f, g))
  {
    if forall f <- files :: forall n <- f.profiles :: InForce(files, f, n) {
      forall f, g | f in files && g in files ensures Agree(f, g) {
        forall n | n in f.profiles && n in g.profiles ensures f.profiles[n] == g.profiles[n] {
          assert InForce(files, f, n) && InForce(files, g, n);
        }
      }
    }
    if forall f <- files :: forall g <- files :: Agree(f, g) {
      forall f, n | f in files && n in f.profiles ensures InForce(files, f, n) {
        MergedCovers(files, f, n);
        MergedFrom(files, n);
        var g :| g in files && n in g.profiles && Merged(files)[n] == g.profiles[n];
        assert Agree(f, g);
      }
    }
  }

  // ------------------------------------------------------- the debt lists

  datatype DebtList = KnownUnlisted | KnownInert

  /** Whether a run of `check` with these lists prints the list's marker for `name`. */
  ghost predicate Marked(tree: seq<Root>, triples: seq<string>, unlisted: set<Key>, inert: set<Key>,
                         list: DebtList, name: string) {
    exists owner ::
      IsProblem(tree, triples, unlisted, inert,
                if list.KnownUnlisted? then Unlisted(owner, name) else Inert(owner, name))
  }

  /** An entry whose removal brings up no fault of its own rule. */
  ghost predicate IsStale(tree: seq<Root>, triples: seq<string>, unlisted: set<Key>, inert: set<Key>,
                          list: DebtList, key: Key) {
    match list
    case KnownUnlisted => key in unlisted && !Marked(tree, triples, unlisted - {key}, inert, list, key.1)
    case KnownInert => key in inert && !Marked(tree, triples, unlisted, inert - {key}, list, key.1)
  }

  method EntryIsLive(tree: seq<Root>, triples: seq<string>, unlisted: set<Key>, inert: set<Key>,
                     list: DebtList, name: string) returns (live: bool)
    ensures live == Marked(tree, triples, unlisted, inert, list, name)
  {
    var _, problems := Check(tree, triples, unlisted, inert);
    live := exists p <- problems :: if list.KnownUnlisted? then p.Unlisted? && p.name == name
                                    else p.Inert? && p.name == name;
    if Marked(tree, triples, unlisted, inert, list, name) {
      var owner :| IsProblem(tree, triples, unlisted, inert,
                             if list.KnownUnlisted? then Unlisted(owner, name) else Inert(owner, name));
      assert (if list.KnownUnlisted? then Unlisted(owner, name) else Inert(owner, name)) in problems;
    }
    if live {
      var p :| p in problems && if list.KnownUnlisted? then p.Unlisted? && p.name == name
                                else p.Inert? && p.name == name;
      assert IsProblem(tree, triples, unlisted, inert,
                       if list.KnownUnlisted? then Unlisted(p.owner, name) else Inert(p.owner, name));
    }
  }

  method DebtIsLive(tree: seq<Root>, triples: seq<string>, unlisted: set<Key>, inert: set<Key>)
    returns (problems: seq<(DebtList, Key)>)
    ensures forall l, k :: (l, k) in problems <==> IsStale(tree, triples, unlisted, inert, l, k)
  {
    problems := [];
    var keys := unlisted;
    while keys != {}
      invariant keys <= unlisted
      invariant forall l, k :: (l, k) in problems <==>
                                 l.KnownUnlisted? && k !in keys && IsStale(tree, triples, unlisted, inert, l, k)
      decreases |keys|
    {
      var key :| key in keys;
      var live := EntryIsLive(tree, triples, unlisted - {key}, inert, KnownUnlisted, key.1);
      if !live {
        problems := problems + [(KnownUnlisted, key)];
      }
      keys := keys - {key};
    }
    keys := inert;
    while keys != {}
      invariant keys <= inert
      invariant forall l, k :: (l, k) in problems <==>
                                 (l.KnownUnlisted? || k !in keys) && IsStale(tree, triples, unlisted, inert, l, k)
      decreases |keys|
    {
      var key :| key in keys;
      var live := EntryIsLive(tree, triples, unlisted, inert - {key}, KnownInert, key.1);
      if !live {
        problems := problems + [(KnownInert, key)];
      }
      keys := keys - {key};
    }
  }

  /** The faults of R2 and of R5, judged with no debt list at all. */
  ghost predicate IsFault(tree: seq<Root>, triples: seq<string>, list: DebtList, key: Key) {
    exists files <- tree ::
      if list.KnownUnlisted? then UnlistedIn(files, key) else InertIn(files, triples, key)
  }

  /** `main` gets past both calls as far as the debt lists are concerned. */
  ghost predicate DebtAccepted(tree: seq<Root>, triples: seq<string>, unlisted: set<Key>, inert: set<Key>) {
    && (forall l, k :: !IsStale(tree, triples, unlisted, inert, l, k))
    && (forall o, n :: !IsProblem(tree, triples, unlisted, inert, Unlisted(o, n)) &&
                       !IsProblem(tree, triples, unlisted, inert, Inert(o, n)))
  }

  lemma ProblemIsUnexcusedFault(tree: seq<Root>, triples: seq<string>, unlisted: set<Key>, inert: set<Key>, k: Key)
    ensures IsProblem(tree, triples, unlisted, inert, Unlisted(k.0, k.1)) <==>
            IsFault(tree, triples, KnownUnlisted, k) && k !in unlisted
    ensures IsProblem(tree, triples, unlisted, inert, Inert(k.0, k.1)) <==>
            IsFault(tree, triples, KnownInert, k) && k !in inert
  {
    assert k == (k.0, k.1);
    forall files <- tree
      ensures IsRootProblem(files, triples, unlisted, inert, Unlisted(k.0, k.1)) <==>
              UnlistedIn(files, k) && k !in unlisted
      ensures IsRootProblem(files, triples, unlisted, inert, Inert(k.0, k.1)) <==>
              InertIn(files, triples, k) && k !in inert
    {
    }
  }

  /** Both debt calls accept iff each list is exactly the fault set of its own rule. So two
      merged lists, or an entry in the wrong one, are always caught. */
  lemma DebtListsAreFaultSets(tree: seq<Root>, triples: seq<string>, unlisted: set<Key>, inert: set<Key>)
    ensures DebtAccepted(tree, triples, unlisted, inert) <==>
            (forall k :: k in unlisted <==> IsFault(tree, triples, KnownUnlisted, k)) &&
            (forall k :: k in inert <==> IsFault(tree, triples, KnownInert, k))
  {
    forall k: Key, u: set<Key>, i: set<Key>
      ensures IsProblem(tree, triples, u, i, Unlisted(k.0, k.1)) <==>
              IsFault(tree, triples, KnownUnlisted, k) && k !in u
      ensures IsProblem(tree, triples, u, i, Inert(k.0, k.1)) <==>
              IsFault(tree, triples, KnownInert, k) && k !in i
    {
      ProblemIsUnexcusedFault(tree, triples, u, i, k);
    }
    if DebtAccepted(tree, triples, unlisted, inert) {
      forall k ensures k in unlisted <==> IsFault(tree, triples, KnownUnlisted, k) {
        assert !IsProblem(tree, triples, unlisted, inert, Unlisted(k.0, k.1));
        if k in unlisted {
          assert !IsStale(tree, triples, unlisted, inert, KnownUnlisted, k);
          var owner :| IsProblem(tree, triples, unlisted - {k}, inert, Unlisted(owner, k.1));
          assert !IsProblem(tree, triples, unlisted, inert, Unlisted(owner, k.1));
          FreshFaultIsTheEntry(tree, triples, unlisted, inert, k, owner);
        }
      }
      forall k ensures k in inert <==> IsFault(tree, triples, KnownInert, k) {
        assert !IsProblem(tree, triples, unlisted, inert, Inert(k.0, k.1));
        if k in inert {
          assert !IsStale(tree, triples, unlisted, inert, KnownInert, k);
          var owner :| IsProblem(tree, triples, unlisted, inert - {k}, Inert(owner, k.1));
          assert !IsProblem(tree, triples, unlisted, inert, Inert(owner, k.1));
          FreshInertIsTheEntry(tree, triples, unlisted, inert, k, owner);
        }
      }
    }
    if (forall k :: k in unlisted <==> IsFault(tree, triples, KnownUnlisted, k)) &&
       (forall k :: k in inert <==> IsFault(tree, triples, KnownInert, k)) {
      forall o, n ensures !IsProblem(tree, triples, unlisted, inert, Unlisted(o, n)) &&
                          !IsProblem(tree, triples, unlisted, inert, Inert(o, n))
      {
        ProblemIsUnexcusedFault(tree, triples, unlisted, inert, (o, n));
      }
      forall l, k ensures !IsStale(tree, triples, unlisted, inert, l, k) {
        ProblemIsUnexcusedFault(tree, triples, unlisted - {k}, inert, k);
        ProblemIsUnexcusedFault(tree, triples, unlisted, inert - {k}, k);
      }
    }
  }

  lemma FreshFaultIsTheEntry(tree: seq<Root>, triples: seq<string>, unlisted: set<Key>, inert: set<Key>,
                             k: Key, owner: string)
    requires IsProblem(tree, triples, unlisted - {k}, inert, Unlisted(owner, k.1))
    requires !IsProblem(tree, triples, unlisted, inert, Unlisted(owner, k.1))
    ensures IsFault(tree, triples, KnownUnlisted, k)
  {
    ProblemIsUnexcusedFault(tree, triples, unlisted - {k}, inert, (owner, k.1));
    ProblemIsUnexcusedFault(tree, triples, unlisted, inert, (owner, k.1));
    assert (owner, k.1) == k;
  }

  lemma FreshInertIsTheEntry(tree: seq<Root>, triples: seq<string>, unlisted: set<Key>, inert: set<Key>,
                             k: Key, owner: string)
    requires IsProblem(tree, triples, unlisted, inert - {k}, Inert(owner, k.1))
    requires !IsProblem(tree, triples, unlisted, inert, Inert(owner, k.1))
    ensures IsFault(tree, triples, KnownInert, k)
  {
    ProblemIsUnexcusedFault(tree, triples, unlisted, inert - {k}, (owner, k.1));
    ProblemIsUnexcusedFault(tree, triples, unlisted, inert, (owner, k.1));
    assert (owner, k.1) == k;
  }

  /** Another block of the same name has a fault of the list's rule that the list does not excuse. */
  ghost predicate Masked(tree: seq<Root>, triples: seq<string>, entries: set<Key>, list: DebtList, key: Key) {
    exists owner: string :: owner != key.0 && IsFault(tree, triples, list, (owner, key.1)) && (owner, key.1) !in entries
  }

  /** `debt_is_live` alone is not exact: it looks a profile name up in the whole output, so an entry that excuses
      nothing passes exactly when another owner's block of that name has an unexcused fault of its rule. */
  lemma FaultlessEntryPassesIff(tree: seq<Root>, triples: seq<string>, unlisted: set<Key>, inert: set<Key>,
                                list: DebtList, key: Key)
    requires key in (if list.KnownUnlisted? then unlisted else inert) && !IsFault(tree, triples, list, key)
    ensures !IsStale(tree, triples, unlisted, inert, list, key) <==>
            Masked(tree, triples, if list.KnownUnlisted? then unlisted else inert, list, key)
  {
    var u, n := if list.KnownUnlisted? then unlisted - {key} else unlisted, if list.KnownInert? then inert - {key} else inert;
    forall owner: string
      ensures IsProblem(tree, triples, u, n, Unlisted(owner, key.1)) <==>
              IsFault(tree, triples, KnownUnlisted, (owner, key.1)) && (owner, key.1) !in u
      ensures IsProblem(tree, triples, u, n, Inert(owner, key.1)) <==>
              IsFault(tree, triples, KnownInert, (owner, key.1)) && (owner, key.1) !in n
    {
      ProblemIsUnexcusedFault(tree, triples, u, n, (owner, key.1));
    }
    assert key == (key.0, key.1);
    if Masked(tree, triples, if list.KnownUnlisted? then unlisted else inert, list, key) {
      var owner :| owner != key.0 && IsFault(tree, triples, list, (owner, key.1)) &&
                   (owner, key.1) !in (if list.KnownUnlisted? then unlisted else inert);
      assert (owner, key.1) !in (if list.KnownUnlisted? then u else n);
    }
  }

  const SAMPLE := Profile(Some("armv8r"), None, None)
  const LISTED := PlatformFile("a/x", map["r52" := SAMPLE], ["r52"], false)
  const FORGOTTEN := PlatformFile("b/y", map["r52" := SAMPLE], [], false)
  const STALE: set<Key> := {("a/x", "r52")}
  const SAMPLE_TRIPLES := ["armv8r-none-eabihf"]

  lemma OneFile(f: PlatformFile)
    ensures Merged([f]) == f.profiles && Owner([f]) == map n | n in f.profiles :: f.rel
    ensures !f.inherits ==> forall n :: n in Claimed([f]) <==> n in f.declared
  {
    assert [f][..0] == [];
    assert f in [f];
  }

  lemma ForgottenIsReported()
    ensures IsRootProblem([FORGOTTEN], SAMPLE_TRIPLES, {}, {}, Unlisted("b/y", "r52"))
  {
    OneFile(FORGOTTEN);
  }

  /** A tree where that happens. */
  lemma StaleEntryMaskedByName()
    ensures var tree := [[LISTED], [FORGOTTEN]];
            !IsFault(tree, SAMPLE_TRIPLES, KnownUnlisted, ("a/x", "r52")) &&
            !IsStale(tree, SAMPLE_TRIPLES, STALE, {}, KnownUnlisted, ("a/x", "r52"))
  {
    var tree := [[LISTED], [FORGOTTEN]];
    OneFile(LISTED);
    OneFile(FORGOTTEN);
    ForgottenIsReported();
    assert STALE - {("a/x", "r52")} == {};
    assert [FORGOTTEN] in tree;
    assert IsProblem(tree, SAMPLE_TRIPLES, {}, {}, Unlisted("b/y", "r52"));
  }
}
