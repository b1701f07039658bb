/** Options and the string operations the gate scripts lean on: stripping, splitting at a separator, joining
    with one, and decimal numerals. A string is a sequence of characters, and each operation is the Python
    method of the same purpose on strings whose letters, digits and spaces are the ASCII ones. Splitting and
    joining undo each other in both directions, under the conditions their lemmas state; stripping gives back
    a text that starts and ends with something to keep, whatever padding was put around it; and a number can
    be told from its numeral. The lemmas are used throughout and say nothing about any one script. */
module Text {

  datatype Option<+T> = None | Some(value: T)

  predicate EndsWith(s: string, suffix: string) {
    |suffix| <= |s| && s[|s| - |suffix|..] == suffix
  }

  /** Python's `sub in s`. */
  predicate Within(sub: string, s: string) {
    exists i :: 0 <= i <= |s| && sub <= s[i..]
  }

  lemma WithinIff(sub: string, s: string)
    ensures Within(sub, s) <==> exists a, b :: s == a + sub + b
  {
    if Within(sub, s) {
      var i :| 0 <= i <= |s| && sub <= s[i..];
      assert s == s[..i] + sub + s[i + |sub|..];
    }
    if a, b :| s == a + sub + b {
      assert s[|a|..] == sub + b;
    }
  }

  predicate Letter(c: char) { 'a' <= c <= 'z' || 'A' <= c <= 'Z' }
  predicate Digit(c: char) { '0' <= c <= '9' }
  predicate WordChar(c: char) { Letter(c) || Digit(c) || c == '_' }

  /** Length of the run of word characters `s` starts with. */
  function WordRun(s: string): (n: nat)
    ensures n <= |s| && (n < |s| ==> !WordChar(s[n]))
    ensures forall i | 0 <= i < n :: WordChar(s[i])
  {
    if s == "" || !WordChar(s[0]) then 0 else 1 + WordRun(s[1..])
  }

  lemma WordRunIs(w: string, rest: string)
    requires (forall c <- w :: WordChar(c)) && (rest == "" || !WordChar(rest[0]))
    ensures WordRun(w + rest) == |w|
  {
    var s := w + rest;
    assert forall i | 0 <= i < |w| :: s[i] == w[i] && w[i] in w;
    assert rest != "" ==> s[|w|] == rest[0];
  }

  /** The part of `s` in front of the first `sep`: `s.split(sep)[0]`. */
  function Before(s: string, sep: string): string {
    if s == "" || sep <= s then "" else [s[0]] + Before(s[1..], sep)
  }

  const SPACES: set<char> := {' ', '\t', '\n', '\r', '\U{000B}', '\U{000C}'}

  function StripLeft(s: string, cs: set<char>): string {
    if s != "" && s[0] in cs then StripLeft(s[1..], cs) else s
  }

  function StripRight(s: string, cs: set<char>): string {
    if s != "" && s[|s| - 1] in cs then StripRight(s[..|s| - 1], cs) else s
  }

  /** `s.strip(cs)` */
  function StripChars(s: string, cs: set<char>): string { StripRight(StripLeft(s, cs), cs) }

  /** `s.strip()` */
  function Strip(s: string): string { StripChars(s, SPACES) }

  lemma Assoc<T>(a: seq<T>, b: seq<T>, c: seq<T>)
    ensures a + b + c == a + (b + c)
  {
  }

  /** Nothing to strip: non-empty, with both end characters outside `cs`. */
  predicate Trim(s: string, cs: set<char>) { s != "" && s[0] !in cs && s[|s| - 1] !in cs }

  lemma {:induction false} StripPadding(pre: string, s: string, post: string, cs: set<char>)
    requires Trim(s, cs) && (forall c <- pre :: c in cs) && (forall c <- post :: c in cs)
    ensures StripChars(pre + s + post, cs) == s
  {
    StripLeftPadding(pre, s + post, cs);
    assert pre + s + post == pre + (s + post);
    StripRightPadding(s, post, cs);
  }

  lemma {:induction false} StripLeftPadding(pre: string, s: string, cs: set<char>)
    requires (forall c <- pre :: c in cs) && s != "" && s[0] !in cs
    ensures StripLeft(pre + s, cs) == s
  {
    if pre == "" {
      assert pre + s == s;
    } else {
      assert (pre + s)[1..] == pre[1..] + s;
      StripLeftPadding(pre[1..], s, cs);
    }
  }

  lemma {:induction false} StripRightPadding(s: string, post: string, cs: set<char>)
    requires (forall c <- post :: c in cs) && s != "" && s[|s| - 1] !in cs
    ensures StripRight(s + post, cs) == s
  {
    if post == "" {
      assert s + post == s;
    } else {
      assert (s + post)[..|s + post| - 1] == s + post[..|post| - 1];
      StripRightPadding(s, post[..|post| - 1], cs);
    }
  }

  lemma StripNothing(s: string, cs: set<char>)
    requires Trim(s, cs)
    ensures StripChars(s, cs) == s
  {
    StripPadding("", s, "", cs);
    assert "" + s + "" == s;
  }

  lemma {:induction false} BeforeAbsent(s: string, c: char)
    requires c !in s
    ensures Before(s, [c]) == s
  {
    if s != "" {
      BeforeAbsent(s[1..], c);
    }
  }

  lemma {:induction false} BeforeFirst(a: string, b: string, c: char)
    requires c !in a && b != "" && b[0] == c
    ensures Before(a + b, [c]) == a
  {
    if a == "" {
      assert a + b == b;
    } else {
      assert (a + b)[1..] == a[1..] + b;
      BeforeFirst(a[1..], b, c);
    }
  }

  /** `sep.join(parts)` */
  function Join(parts: seq<string>, sep: string): string {
    if parts == [] then ""
    else if |parts| == 1 then parts[0]
    else parts[0] + sep + Join(parts[1..], sep)
  }

  /** `s.split(sep)` */
  function SplitOn(s: string, sep: string): (parts: seq<string>)
    requires sep != ""
    ensures parts != []
  {
    if s == "" then [""]
    else if sep <= s then [""] + SplitOn(s[|sep|..], sep)
    else Glue(s[0], SplitOn(s[1..], sep))
  }

  /** Puts a character in front of the first part. */
  function Glue(ch: char, parts: seq<string>): seq<string>
    requires parts != []
  {
    [[ch] + parts[0]] + parts[1..]
  }

  lemma {:induction false} SplitWhole(s: string, c: char)
    requires c !in s
    ensures SplitOn(s, [c]) == [s]
  {
    if s != "" {
      SplitWhole(s[1..], c);
      assert [s[0]] + s[1..] == s;
    }
  }

  lemma GlueAppend(ch: char, left: seq<string>, right: seq<string>)
    requires left != []
    ensures Glue(ch, left + right) == Glue(ch, left) + right
  {
  }

  lemma SplitCons(ch: char, s: string, c: char)
    ensures SplitOn([ch] + s, [c]) == if ch == c then [""] + SplitOn(s, [c]) else Glue(ch, SplitOn(s, [c]))
  {
    var all := [ch] + s;
    assert all[1..] == s && all[0] == ch;
    assert [c] <= all <==> all[0] == c;
  }

  lemma {:induction false} SplitAppend(a: string, b: string, c: char)
    ensures SplitOn(a + [c] + b, [c]) == SplitOn(a, [c]) + SplitOn(b, [c])
  {
    if a == "" {
      SplitCons(c, b, c);
      assert a + [c] + b == [c] + b;
    } else {
      var x, rest := a[0], a[1..];
      SplitAppend(rest, b, c);
      assert a == [x] + rest;
      Assoc([x], rest, [c]);
      Assoc([x], rest + [c], b);
      SplitCons(x, rest, c);
      SplitCons(x, rest + [c] + b, c);
      if x == c {
        Assoc([""], SplitOn(rest, [c]), SplitOn(b, [c]));
      } else {
        GlueAppend(x, SplitOn(rest, [c]), SplitOn(b, [c]));
      }
    }
  }

  /** Splitting undoes joining, when no part holds the separator. */
  lemma {:induction false} SplitJoin(parts: seq<string>, c: char)
    requires parts != [] && forall i :: 0 <= i < |parts| ==> c !in parts[i]
    ensures SplitOn(Join(parts, [c]), [c]) == parts
  {
    SplitWhole(parts[0], c);
    if |parts| > 1 {
      SplitAppend(parts[0], Join(parts[1..], [c]), c);
      SplitJoin(parts[1..], c);
    }
  }

  /** The same for a separator of any length, when no part holds its first character. */
  lemma {:induction false} SplitJoinText(parts: seq<string>, sep: string)
    requires sep != "" && parts != [] && forall i :: 0 <= i < |parts| ==> sep[0] !in parts[i]
    ensures SplitOn(Join(parts, sep), sep) == parts
  {
    if |parts| == 1 {
      SplitPlain(parts[0], sep);
    } else {
      SplitFirst(parts[0], Join(parts[1..], sep), sep);
      SplitJoinText(parts[1..], sep);
    }
  }

  lemma {:induction false} SplitPlain(s: string, sep: string)
    requires sep != "" && sep[0] !in s
    ensures SplitOn(s, sep) == [s]
  {
    if s != "" {
      SplitPlain(s[1..], sep);
      assert [s[0]] + s[1..] == s;
    }
  }

  lemma {:induction false} SplitFirst(a: string, rest: string, sep: string)
    requires sep != "" && sep[0] !in a
    ensures SplitOn(a + sep + rest, sep) == [a] + SplitOn(rest, sep)
  {
    var all := a + sep + rest;
    if a == "" {
      assert all == sep + rest && all[|sep|..] == rest && sep <= all;
    } else {
      assert all[0] == a[0] && all[1..] == a[1..] + sep + rest;
      SplitFirst(a[1..], rest, sep);
      assert [a[0]] + a[1..] == a;
    }
  }

  /** Joining undoes splitting. */
  lemma {:induction false} JoinSplit(s: string, sep: string)
    requires sep != ""
    ensures Join(SplitOn(s, sep), sep) == s
    decreases |s|
  {
    if s != "" {
      if sep <= s {
        JoinSplit(s[|sep|..], sep);
        SplitAtSep(s, sep);
        JoinEmptyFirst(SplitOn(s[|sep|..], sep), sep);
      } else {
        JoinSplit(s[1..], sep);
        SplitAtChar(s, sep);
        JoinGlue(s[0], SplitOn(s[1..], sep), sep);
      }
    }
  }

  lemma SplitAtSep(s: string, sep: string)
    requires s != "" && sep != "" && sep <= s
    ensures SplitOn(s, sep) == [""] + SplitOn(s[|sep|..], sep) && s == sep + s[|sep|..]
  {
  }

  lemma SplitAtChar(s: string, sep: string)
    requires s != "" && sep != "" && !(sep <= s)
    ensures SplitOn(s, sep) == Glue(s[0], SplitOn(s[1..], sep)) && s == [s[0]] + s[1..]
  {
  }

  lemma JoinEmptyFirst(parts: seq<string>, sep: string)
    requires parts != []
    ensures Join([""] + parts, sep) == sep + Join(parts, sep)
  {
    assert ([""] + parts)[1..] == parts;
    assert "" + sep == sep;
  }

  lemma JoinGlue(ch: char, parts: seq<string>, sep: string)
    requires parts != []
    ensures Join(Glue(ch, parts), sep) == [ch] + Join(parts, sep)
  {
    if |parts| > 1 {
      assert Glue(ch, parts)[1..] == parts[1..];
      Assoc([ch], parts[0], sep);
      Assoc([ch], parts[0] + sep, Join(parts[1..], sep));
    }
  }

  lemma {:induction false} JoinLast(parts: seq<string>, last: string, sep: string)
    requires parts != []
    ensures Join(parts + [last], sep) == Join(parts, sep) + sep + last
  {
    if |parts| > 1 {
      assert (parts + [last])[1..] == parts[1..] + [last];
      JoinLast(parts[1..], last, sep);
    } else {
      assert (parts + [last])[1..] == [last];
    }
  }

  /** Decimal digits of `n`. */
  function Decimal(n: nat): string {
    if n < 10 then ["0123456789"[n]] else Decimal(n / 10) + ["0123456789"[n % 10]]
  }

  lemma {:induction false} DecimalDigits(n: nat)
    ensures Decimal(n) != "" && forall c <- Decimal(n) :: c in "0123456789"
  {
    if n >= 10 {
      DecimalDigits(n / 10);
    }
  }

  lemma {:induction false} DecimalInjective(m: nat, n: nat)
    requires Decimal(m) == Decimal(n)
    ensures m == n
    decreases m + n
  {
    var ds := "0123456789";
    assert forall a, b | 0 <= a < 10 && 0 <= b < 10 && ds[a] == ds[b] :: a == b;
    assert |Decimal(m)| == |Decimal(n)|;
    var a, b := if m < 10 then m else m % 10, if n < 10 then n else n % 10;
    assert Decimal(m)[|Decimal(m)| - 1] == ds[a];
    assert Decimal(n)[|Decimal(n)| - 1] == ds[b];
    assert a == b;
    DecimalDigits(m / 10);
    DecimalDigits(n / 10);
    if m >= 10 && n >= 10 {
      assert Decimal(m)[..|Decimal(m)| - 1] == Decimal(m / 10);
      assert Decimal(n)[..|Decimal(n)| - 1] == Decimal(n / 10);
      DecimalInjective(m / 10, n / 10);
    }
  }
}
