/** Python's order on strings, by code point, first difference first and a prefix before what extends it.
    The name index of scripts/api-parity.py rests on one fact about it: the strings that begin with a given
    prefix lie together, from the prefix itself upwards, so that a single bisection finds the first of them
    if there is any. The order is total and transitive, sorting a set of names loses none of them, and no two
    entries of the sorted list are equal, which is all that the bisection needs to know. */
module Lexicographic {

  predicate Le(a: string, b: string) {
    a == "" || (b != "" && (a[0] < b[0] || (a[0] == b[0] && Le(a[1..], b[1..]))))
  }

  predicate Less(a: string, b: string) { a != b && Le(a, b) }

  lemma {:induction false} Total(a: string, b: string)
    ensures Le(a, b) || Le(b, a)
    ensures Le(a, b) && Le(b, a) ==> a == b
    ensures a == b ==> Le(a, b)
  {
    if a != "" && b != "" && a[0] == b[0] {
      Total(a[1..], b[1..]);
      assert a == [a[0]] + a[1..] && b == [b[0]] + b[1..];
    }
  }

  lemma {:induction false} Transitive(a: string, b: string, c: string)
    requires Le(a, b) && Le(b, c)
    ensures Le(a, c)
  {
    if a != "" && a[0] == b[0] && b[0] == c[0] {
      Transitive(a[1..], b[1..], c[1..]);
    }
  }

  /** A string sits at or above each of its prefixes. */
  lemma {:induction false} PrefixLe(p: string, s: string)
    requires p <= s
    ensures Le(p, s)
  {
    if p != "" {
      PrefixLe(p[1..], s[1..]);
    }
  }

  /** The strings with prefix `p` form an interval that starts at `p`. */
  lemma {:induction false} PrefixInterval(p: string, x: string, s: string)
    requires p <= s && Le(p, x) && Le(x, s)
    ensures p <= x
  {
    if p != "" {
      PrefixInterval(p[1..], x[1..], s[1..]);
      assert x == [x[0]] + x[1..] && p == [p[0]] + p[1..];
    }
  }

  predicate Ascending(xs: seq<string>) {
    forall i, j :: 0 <= i < j < |xs| ==> Less(xs[i], xs[j])
  }

  function Insert(x: string, xs: seq<string>): seq<string> {
    if xs == [] then [x]
    else if Le(x, xs[0]) then [x] + xs
    else [xs[0]] + Insert(x, xs[1..])
  }

  lemma {:induction false} InsertKeepsOrder(x: string, xs: seq<string>)
    requires Ascending(xs) && x !in xs
    ensures Ascending(Insert(x, xs))
    ensures forall y :: y in Insert(x, xs) <==> y == x || y in xs
  {
    if xs != [] {
      if Le(x, xs[0]) {
        forall j | 0 <= j < |xs| ensures Less(x, xs[j]) {
          if j > 0 {
            assert Less(xs[0], xs[j]);
            Transitive(x, xs[0], xs[j]);
          }
        }
      } else {
        Total(x, xs[0]);
        InsertKeepsOrder(x, xs[1..]);
        var rest := Insert(x, xs[1..]);
        assert xs == [xs[0]] + xs[1..];
        forall j | 0 <= j < |rest| ensures Less(xs[0], rest[j]) {
          assert rest[j] in rest;
          if rest[j] != x {
            var k :| 0 <= k < |xs[1..]| && xs[1..][k] == rest[j];
            assert xs[k + 1] == rest[j];
          }
        }
      }
    }
  }

  method Sorted(names: set<string>) returns (xs: seq<string>)
    ensures Ascending(xs)
    ensures forall x :: x in xs <==> x in names
  {
    xs := [];
    var rest := names;
    while rest != {}
      invariant rest <= names && Ascending(xs)
      invariant forall x :: x in xs <==> x in names - rest
      decreases |rest|
    {
      var x :| x in rest;
      InsertKeepsOrder(x, xs);
      xs := Insert(x, xs);
      rest := rest - {x};
    }
  }
}
