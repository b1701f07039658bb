/** The name index of the prose check (`_NameIndex` in scripts/api-parity.py). */
module NameIndexing {
  import opened Text
  import opened Lexicographic

  const KEY_DROPPED_PREFIXES := ["rclc_", "rcl_", "nros_", "RCLC_", "RCL_", "NROS_"]

  function Reverse(s: string): string {
    if s == "" then "" else Reverse(s[1..]) + [s[0]]
  }

  lemma {:induction false} ReverseAppend(a: string, b: string)
    ensures Reverse(a + b) == Reverse(b) + Reverse(a)
  {
    if a == "" {
      assert a + b == b;
    } else {
      assert (a + b)[1..] == a[1..] + b;
      ReverseAppend(a[1..], b);
    }
  }

  lemma {:induction false} ReverseTwice(s: string)
    ensures Reverse(Reverse(s)) == s
  {
    if s != "" {
      ReverseAppend(Reverse(s[1..]), [s[0]]);
      ReverseTwice(s[1..]);
      assert Reverse([s[0]]) == [s[0]];
    }
  }

  lemma EndsWithIsPrefixReversed(s: string, suffix: string)
    ensures EndsWith(s, suffix) <==> Reverse(suffix) <= Reverse(s)
  {
    if EndsWith(s, suffix) {
      assert s == s[..|s| - |suffix|] + suffix;
      ReverseAppend(s[..|s| - |suffix|], suffix);
    }
    if Reverse(suffix) <= Reverse(s) {
      var rest := Reverse(s)[|Reverse(suffix)|..];
      assert Reverse(s) == Reverse(suffix) + rest;
      ReverseAppend(Reverse(suffix), rest);
      ReverseTwice(s);
      ReverseTwice(suffix);
      assert s == Reverse(rest) + suffix;
    }
  }

  /** The `::` segments of a path, each without leading `~`. */
  function Segments(name: string): (segs: seq<string>)
    ensures segs != []
  {
    var parts := SplitOn(name, "::");
    seq(|parts|, i requires 0 <= i < |parts| => StripLeft(parts[i], {'~'}))
  }

  function Heads(name: string): seq<string> { Segments(name)[..|Segments(name)| - 1] }
  function Last(name: string): string { Segments(name)[|Segments(name)| - 1] }

  predicate IsPrefixSpan(name: string, tail: string) { tail in ["*", "{"] || EndsWith(Last(name), "_") }
  predicate IsSuffixSpan(name: string) { "_" <= Last(name) }

  /** The spellings a quoted name may stand for. */
  function Stems(name: string): seq<string> {
    var last := Last(name);
    if IsSuffixSpan(name) || Heads(name) != [] then [last]
    else [last] + seq(|KEY_DROPPED_PREFIXES|,
                      i requires 0 <= i < |KEY_DROPPED_PREFIXES| => KEY_DROPPED_PREFIXES[i] + last)
  }

  /** What one stem is checked against one known name for. */
  predicate Meets(stem: string, k: string, prefix: bool, suffix: bool) {
    k == stem ||
    (prefix && suffix && Within(stem, k)) ||
    (prefix && !suffix && stem <= k) ||
    (suffix && !prefix && EndsWith(k, stem))
  }

  predicate MeetsAny(known: set<string>, stem: string, prefix: bool, suffix: bool) {
    exists k <- known :: Meets(stem, k, prefix, suffix)
  }

  /** The answer by a linear scan over every known name. */
  predicate ResolvesByScan(known: set<string>, name: string, tail: string) {
    (forall h <- Heads(name) :: h in known) &&
    exists stem <- Stems(name) :: MeetsAny(known, stem, IsPrefixSpan(name, tail), IsSuffixSpan(name))
  }

  /** A segment as written, with no `~` to drop and no underscore at either end. */
  predicate Plain(seg: string) {
    seg != "" && ':' !in seg && seg[0] != '~' && seg[0] != '_' && seg[|seg| - 1] != '_'
  }

  lemma PathSegments(heads: seq<string>, last: string)
    requires forall i :: 0 <= i < |heads| ==> Plain(heads[i])
    requires ':' !in last && !("~" <= last)
    ensures Heads(Join(heads + [last], "::")) == heads && Last(Join(heads + [last], "::")) == last
  {
    var path := heads + [last];
    SplitJoinText(path, "::");
    forall i | 0 <= i < |path| ensures !("~" <= path[i]) {
      assert path[i] == if i < |heads| then heads[i] else last;
    }
    SegmentsAre(Join(path, "::"), path);
    assert path[..|path| - 1] == heads;
  }

  lemma SegmentsAre(name: string, path: seq<string>)
    requires SplitOn(name, "::") == path && forall i :: 0 <= i < |path| ==> !("~" <= path[i])
    ensures Segments(name) == path
  {
    forall i | 0 <= i < |path| ensures StripLeft(path[i], {'~'}) == path[i] {
      assert path[i] != "" ==> path[i][0] != '~';
    }
  }

  /** The spellings of a bare name: itself, or behind one of the prefixes keys are written without. */
  predicate Spelling(stem: string, name: string) {
    stem == name || exists p <- KEY_DROPPED_PREFIXES :: stem == p + name
  }

  lemma BareStems(name: string)
    requires ':' !in name && !("~" <= name)
    ensures Heads(name) == [] && Last(name) == name
    ensures forall stem :: stem in Stems(name) <==> stem == name || (!("_" <= name) && Spelling(stem, name))
  {
    SplitPlain(name, "::");
    assert Segments(name) == [name];
    forall stem ensures stem in Stems(name) <==> stem == name || (!("_" <= name) && Spelling(stem, name)) {
      if !("_" <= name) && Spelling(stem, name) && stem != name {
        var p :| p in KEY_DROPPED_PREFIXES && stem == p + name;
        var i :| 0 <= i < |KEY_DROPPED_PREFIXES| && KEY_DROPPED_PREFIXES[i] == p;
        assert Stems(name)[i + 1] == stem;
      }
    }
  }

  /** A destructor resolves iff its class does. */
  lemma TildeIsDropped(known: set<string>, name: string, tail: string)
    requires ':' !in name && !("~" <= name)
    ensures ResolvesByScan(known, "~" + name, tail) <==> ResolvesByScan(known, name, tail)
  {
    SplitPlain(name, "::");
    SplitPlain("~" + name, "::");
    assert ("~" + name)[1..] == name;
    OneSegment(name);
    OneSegment("~" + name);
    SameSegments(known, "~" + name, name, tail);
  }

  lemma SameSegments(known: set<string>, a: string, b: string, tail: string)
    requires Segments(a) == Segments(b)
    ensures ResolvesByScan(known, a, tail) <==> ResolvesByScan(known, b, tail)
  {
    assert Heads(a) == Heads(b) && Last(a) == Last(b);
    assert Stems(a) == Stems(b);
  }

  lemma OneSegment(name: string)
    requires SplitOn(name, "::") == [name]
    ensures Segments(name) == [StripLeft(name, {'~'})]
  {
  }

  /** A bare name resolves iff it is known under one of its spellings. */
  lemma BareNameResolvesIff(known: set<string>, name: string, tail: string)
    requires Plain(name) && tail != "*" && tail != "{"
    ensures ResolvesByScan(known, name, tail) <==> exists k <- known :: Spelling(k, name)
  {
    BareStems(name);
    assert !EndsWith(name, "_");
    if k :| k in known && Spelling(k, name) {
      assert k in Stems(name) && Meets(k, k, IsPrefixSpan(name, tail), IsSuffixSpan(name));
    }
  }

  /** As the beginning of a family it resolves iff some known name begins with one of its spellings. */
  lemma FamilyResolvesIff(known: set<string>, name: string, tail: string)
    requires Plain(name) && (tail == "*" || tail == "{")
    ensures ResolvesByScan(known, name, tail) <==> exists k <- known :: BeginsFamily(k, name)
  {
    BareStems(name);
    if k :| k in known && BeginsFamily(k, name) {
      if p :| p in KEY_DROPPED_PREFIXES && p + name <= k {
        assert p + name in Stems(name) && Meets(p + name, k, true, false);
      } else {
        assert name in Stems(name) && Meets(name, k, true, false);
      }
    }
    if stem :| stem in Stems(name) && MeetsAny(known, stem, true, false) {
      var k :| k in known && Meets(stem, k, true, false);
      assert BeginsFamily(k, name);
    }
  }

  predicate BeginsFamily(k: string, name: string) {
    name <= k || exists p <- KEY_DROPPED_PREFIXES :: p + name <= k
  }

  /** An ending resolves iff some known name ends so. */
  lemma EndingResolvesIff(known: set<string>, name: string, tail: string)
    requires ':' !in name && "_" <= name && !EndsWith(name, "_") && tail != "*" && tail != "{"
    ensures ResolvesByScan(known, name, tail) <==> exists k <- known :: EndsWith(k, name)
  {
    BareStems(name);
    if k :| k in known && EndsWith(k, name) {
      assert name in Stems(name) && Meets(name, k, false, true);
    }
  }

  /** A qualified name resolves iff every segment of it is known as written. */
  lemma PathResolvesIff(known: set<string>, heads: seq<string>, last: string, tail: string)
    requires heads != [] && (forall i :: 0 <= i < |heads| ==> Plain(heads[i])) && Plain(last)
    requires tail != "*" && tail != "{"
    ensures ResolvesByScan(known, Join(heads + [last], "::"), tail) <==> (forall h <- heads :: h in known) && last in known
  {
    PathSegments(heads, last);
    SegmentsResolveIff(known, Join(heads + [last], "::"), tail);
  }

  lemma SegmentsResolveIff(known: set<string>, name: string, tail: string)
    requires Heads(name) != [] && Plain(Last(name)) && tail != "*" && tail != "{"
    ensures ResolvesByScan(known, name, tail) <==> (forall h <- Heads(name) :: h in known) && Last(name) in known
  {
    var last := Last(name);
    assert !EndsWith(last, "_") && Stems(name) == [last] && last in Stems(name);
    if last in known {
      assert Meets(last, last, IsPrefixSpan(name, tail), IsSuffixSpan(name));
    }
  }

  method BisectLeft(ordered: seq<string>, x: string) returns (i: nat)
    requires Ascending(ordered)
    ensures i <= |ordered|
    ensures forall j :: 0 <= j < i ==> Less(ordered[j], x)
    ensures forall j :: i <= j < |ordered| ==> Le(x, ordered[j])
  {
    var lo, hi := 0, |ordered|;
    while lo < hi
      invariant 0 <= lo <= hi <= |ordered|
      invariant forall j :: 0 <= j < lo ==> Less(ordered[j], x)
      invariant forall j :: hi <= j < |ordered| ==> Le(x, ordered[j])
    {
      var mid := (lo + hi) / 2;
      if Less(ordered[mid], x) {
        forall j | 0 <= j < mid ensures Less(ordered[j], x) {
          Below(ordered[j], ordered[mid], x);
        }
        lo := mid + 1;
      } else {
        Total(ordered[mid], x);
        forall j | mid <= j < |ordered| ensures Le(x, ordered[j]) {
          if j > mid {
            Transitive(x, ordered[mid], ordered[j]);
          }
        }
        hi := mid;
      }
    }
    i := lo;
  }

  lemma Below(a: string, b: string, c: string)
    requires Less(a, b) && Less(b, c)
    ensures Less(a, c)
  {
    Transitive(a, b, c);
    Total(b, c);
  }

  /** One bisection and one comparison decide whether any name has the prefix. */
  method Begins(ordered: seq<string>, stem: string) returns (b: bool)
    requires Ascending(ordered)
    ensures b <==> exists k <- ordered :: stem <= k
  {
    var i := BisectLeft(ordered, stem);
    b := i < |ordered| && stem <= ordered[i];
    if b {
      assert ordered[i] in ordered;
    }
    forall k | k in ordered && stem <= k ensures b {
      var j :| 0 <= j < |ordered| && ordered[j] == k;
      PrefixLe(stem, k);
      Total(stem, k);
      assert i <= j;
      Total(k, k);
      assert Le(ordered[i], k);
      PrefixInterval(stem, ordered[i], k);
    }
  }

  class NameIndex {
    const known: set<string>
    const forward: seq<string>
    const backward: seq<string>

    ghost predicate Valid() {
      && Ascending(forward) && (forall k :: k in forward <==> k in known)
      && Ascending(backward) && (forall r :: r in backward <==> exists k <- known :: r == Reverse(k))
    }

    constructor (names: set<string>)
      ensures Valid() && known == names
    {
      var f := Sorted(names);
      var b := Sorted(set k | k in names :: Reverse(k));
      known, forward, backward := names, f, b;
    }

    method MeetsSome(stem: string, prefix: bool, suffix: bool) returns (b: bool)
      requires Valid()
      ensures b <==> MeetsAny(known, stem, prefix, suffix)
    {
      if stem in known {
        assert Meets(stem, stem, prefix, suffix);
        return true;
      }
      if prefix && suffix {
        b := exists k <- forward :: Within(stem, k);
        if b {
          var k :| k in forward && Within(stem, k);
          assert Meets(stem, k, prefix, suffix);
        }
      } else if prefix {
        b := Begins(forward, stem);
        if b {
          var k :| k in forward && stem <= k;
          assert Meets(stem, k, prefix, suffix);
        }
      } else if suffix {
        b := Begins(backward, Reverse(stem));
        forall k | k in known ensures EndsWith(k, stem) <==> Reverse(stem) <= Reverse(k) {
          EndsWithIsPrefixReversed(k, stem);
        }
        if b {
          var r :| r in backward && Reverse(stem) <= r;
          var k :| k in known && r == Reverse(k);
          assert Meets(stem, k, prefix, suffix);
        }
        if k :| k in known && Meets(stem, k, prefix, suffix) {
          assert Reverse(k) in backward;
        }
      } else {
        b := false;
      }
    }

    method MeetsOne(stems: seq<string>, prefix: bool, suffix: bool) returns (b: bool)
      requires Valid()
      ensures b <==> exists stem <- stems :: MeetsAny(known, stem, prefix, suffix)
    {
      for i := 0 to |stems|
        invariant forall j :: 0 <= j < i ==> !MeetsAny(known, stems[j], prefix, suffix)
      {
        var found := MeetsSome(stems[i], prefix, suffix);
        if found {
          return true;
        }
      }
      return false;
    }

    /** The index answers exactly what a scan over all known names would. */
    method Resolves(name: string, tail: string) returns (b: bool)
      requires Valid()
      ensures b <==> ResolvesByScan(known, name, tail)
    {
      if exists h <- Heads(name) :: h !in known {
        return false;
      }
      b := MeetsOne(Stems(name), IsPrefixSpan(name, tail), IsSuffixSpan(name));
    }
  }

  /** Learning more names never makes a resolved name unresolved. */
  lemma ResolvesIsMonotone(known: set<string>, more: set<string>, name: string, tail: string)
    requires known <= more && ResolvesByScan(known, name, tail)
    ensures ResolvesByScan(more, name, tail)
  {
    var stem :| stem in Stems(name) && MeetsAny(known, stem, IsPrefixSpan(name, tail), IsSuffixSpan(name));
    var k :| k in known && Meets(stem, k, IsPrefixSpan(name, tail), IsSuffixSpan(name));
    assert k in more;
  }
}
