/** Reading one knob out of the generated configs of a cargo profile, as `knob_of` in
    scripts/check-action-client-arena-budget.py does. A profile directory gathers one config for each feature set
    and keeps stale ones, so several configs have to be read and may disagree; those written before the knob
    existed cannot answer and are passed over, and the sizes of the arena may differ without that being a
    disagreement about the knob. */
module KnobReading {
  import opened Text

  /** The constants a config declares; `None` when the file cannot be read. */
  type Config = Option<map<string, int>>

  const CLIENTS := "ARENA_ACTION_CLIENTS"
  const CBS := "MAX_CBS"
  const ARENA := "ARENA_SIZE"

  datatype Knob = Knob(clients: int, cbs: int)

  datatype Answer =
    | Agreed(knob: Knob, arenas: set<int>)
    | NoneDeclares(ignored: nat)
    | Disagree(knobs: set<Knob>)

  function Get(consts: map<string, int>, name: string): int {
    if name in consts then consts[name] else 0
  }

  predicate Declares(c: Config) { c.Some? && CLIENTS in c.value }

  /** Readable, and written before the knob existed. */
  predicate Lacks(c: Config) { c.Some? && CLIENTS !in c.value }

  function KnobIn(c: Config): Knob
    requires Declares(c)
  {
    Knob(c.value[CLIENTS], Get(c.value, CBS))
  }

  function ArenaIn(c: Config): int
    requires Declares(c)
  {
    Get(c.value, ARENA)
  }

  /** A config that gives all three constants, and one that leaves two of them out. */
  lemma ConstantsAreRead(clients: int, cbs: int, arena: int)
    ensures var full := Some(map["ARENA_ACTION_CLIENTS" := clients, "MAX_CBS" := cbs, "ARENA_SIZE" := arena]);
            Declares(full) && KnobIn(full) == Knob(clients, cbs) && ArenaIn(full) == arena
    ensures var bare := Some(map["ARENA_ACTION_CLIENTS" := clients]);
            Declares(bare) && KnobIn(bare) == Knob(clients, 0) && ArenaIn(bare) == 0
  {
    assert |"ARENA_ACTION_CLIENTS"| == 20 && |"MAX_CBS"| == 7 && |"ARENA_SIZE"| == 10;
  }

  function KnobsOf(cs: seq<Config>): set<Knob> { set c | c in cs && Declares(c) :: KnobIn(c) }

  function ArenasOf(cs: seq<Config>): set<int> { set c | c in cs && Declares(c) :: ArenaIn(c) }

  function Lacking(cs: seq<Config>): nat {
    if cs == [] then 0 else Lacking(cs[..|cs| - 1]) + if Lacks(cs[|cs| - 1]) then 1 else 0
  }

  predicate DeclaringAgree(cs: seq<Config>, k: Knob) {
    (exists c <- cs :: Declares(c)) && forall c <- cs :: Declares(c) ==> KnobIn(c) == k
  }

  /** What the script answers: the knob all declaring configs share, or why there is none. */
  predicate Answers(a: Answer, cs: seq<Config>) {
    match a
    case Agreed(k, arenas) => DeclaringAgree(cs, k) && arenas == ArenasOf(cs)
    case NoneDeclares(n) => (forall c <- cs :: !Declares(c)) && n == Lacking(cs)
    case Disagree(knobs) =>
      knobs == KnobsOf(cs) && exists k, l :: k in knobs && l in knobs && k != l
  }

  method KnobOf(cs: seq<Config>) returns (a: Answer)
    ensures Answers(a, cs)
  {
    var seen: set<Knob>, arenas: set<int>, ignored: nat := {}, {}, 0;
    for i := 0 to |cs|
      invariant seen == KnobsOf(cs[..i]) && arenas == ArenasOf(cs[..i]) && ignored == Lacking(cs[..i])
    {
      var c := cs[i];
      OneMore(cs[..i], c);
      assert cs[..i + 1] == cs[..i] + [c];
      if c.None? {
        continue;
      }
      if CLIENTS !in c.value {
        ignored := ignored + 1;
        continue;
      }
      seen := seen + {Knob(c.value[CLIENTS], Get(c.value, CBS))};
      arenas := arenas + {Get(c.value, ARENA)};
    }
    assert cs[..|cs|] == cs;
    if seen == {} {
      assert forall c <- cs :: Declares(c) ==> KnobIn(c) in seen;
      return NoneDeclares(ignored);
    }
    var k :| k in seen;
    if seen - {k} != {} {
      var l :| l in seen - {k};
      return Disagree(seen);
    }
    assert forall l <- seen :: l !in seen - {k};
    assert forall c <- cs :: Declares(c) ==> KnobIn(c) in seen;
    return Agreed(k, arenas);
  }

  lemma OneMore(cs: seq<Config>, c: Config)
    ensures KnobsOf(cs + [c]) == KnobsOf(cs) + if Declares(c) then {KnobIn(c)} else {}
    ensures ArenasOf(cs + [c]) == ArenasOf(cs) + if Declares(c) then {ArenaIn(c)} else {}
    ensures Lacking(cs + [c]) == Lacking(cs) + if Lacks(c) then 1 else 0
  {
    assert (cs + [c])[..|cs|] == cs;
    assert forall x :: x in cs + [c] <==> x in cs || x == c;
  }

  // ---- The answer depends on nothing but the configs that declare the knob

  predicate SameDeclaring(cs: seq<Config>, ds: seq<Config>) {
    (forall c <- cs :: Declares(c) ==> c in ds) && (forall c <- ds :: Declares(c) ==> c in cs)
  }

  /** Order, repetition and configs that lack the knob change no answer, but for how many were ignored when
      none declares it. */
  lemma OnlyDeclaringConfigsMatter(cs: seq<Config>, ds: seq<Config>, a: Answer, b: Answer)
    requires SameDeclaring(cs, ds) && Answers(a, cs) && Answers(b, ds)
    ensures a == b || (a.NoneDeclares? && b.NoneDeclares?)
  {
    assert KnobsOf(cs) == KnobsOf(ds);
    assert ArenasOf(cs) == ArenasOf(ds);
    KnobsSummary(a, cs);
    KnobsSummary(b, ds);
  }

  lemma KnobsSummary(a: Answer, cs: seq<Config>)
    requires Answers(a, cs)
    ensures match a
            case Agreed(k, _) => KnobsOf(cs) == {k}
            case NoneDeclares(_) => KnobsOf(cs) == {}
            case Disagree(_) => forall k :: KnobsOf(cs) != {k} && KnobsOf(cs) != {}
  {
    if a.Agreed? {
      var c :| c in cs && Declares(c);
      assert KnobIn(c) in KnobsOf(cs);
    }
  }

  /** Reordering the configs changes nothing at all. */
  lemma OrderIsImmaterial(cs: seq<Config>, ds: seq<Config>, a: Answer, b: Answer)
    requires multiset(cs) == multiset(ds) && Answers(a, cs) && Answers(b, ds)
    ensures a == b
  {
    forall c ensures c in cs <==> c in ds {
      assert c in multiset(cs) <==> c in multiset(ds);
    }
    OnlyDeclaringConfigsMatter(cs, ds, a, b);
    LackingPermuted(cs, ds);
  }

  lemma {:induction false} LackingAppend(cs: seq<Config>, ds: seq<Config>)
    ensures Lacking(cs + ds) == Lacking(cs) + Lacking(ds)
  {
    if ds == [] {
      assert cs + ds == cs;
    } else {
      assert (cs + ds)[..|cs + ds| - 1] == cs + ds[..|ds| - 1];
      LackingAppend(cs, ds[..|ds| - 1]);
    }
  }

  lemma WithoutOne(ds: seq<Config>, i: nat)
    requires i < |ds|
    ensures multiset(ds[..i] + ds[i + 1..]) == multiset(ds) - multiset{ds[i]}
  {
    assert ds == ds[..i] + ([ds[i]] + ds[i + 1..]);
  }

  lemma LackingWithout(l: seq<Config>, x: Config, r: seq<Config>)
    ensures Lacking(l + [x] + r) == Lacking(l + r) + if Lacks(x) then 1 else 0
  {
    LackingAppend(l + [x], r);
    assert (l + [x])[..|l|] == l;
    LackingAppend(l, r);
  }

  lemma {:induction false} LackingPermuted(cs: seq<Config>, ds: seq<Config>)
    requires multiset(cs) == multiset(ds)
    ensures Lacking(cs) == Lacking(ds)
  {
    if cs == [] {
      assert |multiset(cs)| == |multiset(ds)|;
    } else {
      var x := cs[|cs| - 1];
      assert x in multiset(cs);
      var i :| 0 <= i < |ds| && ds[i] == x;
      var init, rest := cs[..|cs| - 1], ds[..i] + ds[i + 1..];
      WithoutOne(cs, |cs| - 1);
      WithoutOne(ds, i);
      assert init + cs[|cs|..] == init;
      LackingPermuted(init, rest);
      LackingWithout(ds[..i], x, ds[i + 1..]);
      assert ds == ds[..i] + [x] + ds[i + 1..];
    }
  }
}
