/** Judging the calls that prose quotes (scripts/api-parity.py). */
module QuotedCalls {
  import opened Text
  import opened BracketScanner

  datatype Param = Param(name: string, hasDefault: bool)

  datatype Member = Member(name: string, params: Option<seq<Param>>)

  datatype Record = Record(qual: string, params: Option<seq<Param>>, members: seq<Member>)

  /** A declaration the index is told about: a qualified name with its parameters. */
  type Decl = (string, seq<Param>)

  type Span = (int, int)

  function Required(params: seq<Param>): nat {
    if params == [] then 0 else
      Required(params[..|params| - 1]) + if params[|params| - 1].hasDefault then 0 else 1
  }

  /** The argument counts a declaration accepts; a leading `self` may be written or not. */
  function Spans(params: seq<Param>): set<Span> {
    var lo, hi := Required(params), |params|;
    {(lo, hi)} + if params != [] && params[0].name == "self" then {(lo - 1, hi - 1)} else {}
  }

  /** Parameters with defaults may be left out, from the end; those without may not. */
  lemma {:induction false} DefaultsMayBeOmitted(a: seq<Param>, b: seq<Param>, count: int)
    requires (forall p <- a :: !p.hasDefault) && (forall p <- b :: p.hasDefault)
    ensures Required(a + b) == |a|
    ensures Accepts(Spans(a + b), count) <==>
            || |a| <= count <= |a| + |b|
            || (a + b != [] && (a + b)[0].name == "self" && |a| <= count + 1 <= |a| + |b|)
  {
    AllRequired(a);
    SomeRequired(a, b);
    var lo, hi := |a|, |a + b|;
    assert (lo, hi) in Spans(a + b);
    if a + b != [] && (a + b)[0].name == "self" {
      assert (lo - 1, hi - 1) in Spans(a + b);
    }
  }

  lemma {:induction false} AllRequired(a: seq<Param>)
    requires forall p <- a :: !p.hasDefault
    ensures Required(a) == |a|
  {
    if a != [] {
      AllRequired(a[..|a| - 1]);
      assert a[|a| - 1] in a;
    }
  }

  lemma {:induction false} SomeRequired(a: seq<Param>, b: seq<Param>)
    requires forall p <- b :: p.hasDefault
    ensures Required(a + b) == Required(a)
  {
    if b == [] {
      assert a + b == a;
    } else {
      assert (a + b)[..|a + b| - 1] == a + b[..|b| - 1] && b[|b| - 1] in b;
      SomeRequired(a, b[..|b| - 1]);
    }
  }

  function Suffix(qual: string, i: nat): string
    requires i < |SplitOn(qual, "::")|
  {
    Join(SplitOn(qual, "::")[i..], "::")
  }

  predicate AmongSuffixes(name: string, qual: string, n: nat)
    requires n <= |SplitOn(qual, "::")|
  {
    exists i :: 0 <= i < n && name == Suffix(qual, i)
  }

  /** `name` is `qual` from some `::` segment on. */
  predicate NamesBySuffix(name: string, qual: string) {
    AmongSuffixes(name, qual, |SplitOn(qual, "::")|)
  }

  /** A path of segments goes by each of its tails, and by nothing else. */
  lemma NamedByTails(path: seq<string>, name: string)
    requires path != [] && forall i :: 0 <= i < |path| ==> ':' !in path[i]
    ensures NamesBySuffix(name, Join(path, "::")) <==> exists i :: 0 <= i < |path| && name == Join(path[i..], "::")
  {
    SplitJoinText(path, "::");
    TailsOfSegments(Join(path, "::"), path, name);
  }

  lemma TailsOfSegments(qual: string, path: seq<string>, name: string)
    requires SplitOn(qual, "::") == path
    ensures NamesBySuffix(name, qual) <==> exists i :: 0 <= i < |path| && name == Join(path[i..], "::")
  {
    forall i | 0 <= i < |path| ensures Suffix(qual, i) == Join(path[i..], "::") {
    }
    if i :| 0 <= i < |path| && name == Join(path[i..], "::") {
      assert name == Suffix(qual, i);
    }
  }

  function DeclsOfMembers(qual: string, members: seq<Member>): seq<Decl> {
    if members == [] then [] else
      var m := members[|members| - 1];
      DeclsOfMembers(qual, members[..|members| - 1]) +
      if m.params.Some? then [(qual + "::" + m.name, m.params.value)] else []
  }

  function DeclsOf(rec: Record): seq<Decl> {
    (if rec.params.Some? then [(rec.qual, rec.params.value)] else []) + DeclsOfMembers(rec.qual, rec.members)
  }

  function Decls(records: seq<Record>): seq<Decl> {
    if records == [] then [] else Decls(records[..|records| - 1]) + DeclsOf(records[|records| - 1])
  }

  type Index = map<string, set<Span>>

  function SpansFor(index: Index, name: string): set<Span> { if name in index then index[name] else {} }

  /** The index lists, under every name, exactly the spans of the declarations it names. */
  ghost predicate Indexes(index: Index, decls: seq<Decl>) {
    forall name, span :: span in SpansFor(index, name) <==>
                         exists d <- decls :: NamesBySuffix(name, d.0) && span in Spans(d.1)
  }

  function Added(index: Index, name: string, qual: string, n: nat, spans: set<Span>): set<Span>
    requires n <= |SplitOn(qual, "::")|
  {
    SpansFor(index, name) + if AmongSuffixes(name, qual, n) then spans else {}
  }

  method AddSpans(index: Index, qual: string, spans: set<Span>) returns (index': Index)
    ensures forall name :: SpansFor(index', name) == Added(index, name, qual, |SplitOn(qual, "::")|, spans)
  {
    var parts := SplitOn(qual, "::");
    index' := index;
    for i := 0 to |parts|
      invariant forall name :: SpansFor(index', name) == Added(index, name, qual, i, spans)
    {
      var name := Join(parts[i..], "::");
      assert name == Suffix(qual, i);
      ghost var before := index';
      index' := index'[name := SpansFor(index', name) + spans];
      forall n ensures SpansFor(index', n) == Added(index, n, qual, i + 1, spans) {
        assert SpansFor(before, n) == Added(index, n, qual, i, spans);
        assert AmongSuffixes(n, qual, i + 1) <==> AmongSuffixes(n, qual, i) || n == name;
      }
    }
  }

  lemma IndexGrows(index: Index, index': Index, qual: string, params: seq<Param>, decls: seq<Decl>)
    requires Indexes(index, decls)
    requires forall name ::
               SpansFor(index', name) == Added(index, name, qual, |SplitOn(qual, "::")|, Spans(params))
    ensures Indexes(index', decls + [(qual, params)])
  {
    var all := decls + [(qual, params)];
    assert all[|decls|] == (qual, params);
    forall name, span ensures span in SpansFor(index', name) <==>
      exists d <- all :: NamesBySuffix(name, d.0) && span in Spans(d.1)
    {
      if span in SpansFor(index, name) {
        var d :| d in decls && NamesBySuffix(name, d.0) && span in Spans(d.1);
        assert d in all;
      }
    }
  }

  method Add(index: Index, qual: string, params: seq<Param>, ghost decls: seq<Decl>) returns (index': Index)
    requires Indexes(index, decls)
    ensures Indexes(index', decls + [(qual, params)])
  {
    var lo: int := CountRequired(params);
    var hi: int := |params|;
    var spans: set<Span> := {(lo, hi)};
    if params != [] && params[0].name == "self" {
      spans := spans + {(lo - 1, hi - 1)};
    }
    index' := AddSpans(index, qual, spans);
    assert spans == Spans(params);
    IndexGrows(index, index', qual, params, decls);
  }

  method CountRequired(params: seq<Param>) returns (lo: nat)
    ensures lo == Required(params)
  {
    lo := 0;
    for i := 0 to |params|
      invariant lo == Required(params[..i])
    {
      assert params[..i + 1][..i] == params[..i];
      if !params[i].hasDefault {
        lo := lo + 1;
      }
    }
    assert params[..|params|] == params;
  }

  method AddMembers(before: Index, qual: string, members: seq<Member>, ghost decls: seq<Decl>) returns (index: Index)
    requires Indexes(before, decls)
    ensures Indexes(index, decls + DeclsOfMembers(qual, members))
  {
    index := before;
    assert decls + [] == decls;
    for j := 0 to |members|
      invariant Indexes(index, decls + DeclsOfMembers(qual, members[..j]))
    {
      var m := members[j];
      ghost var own := DeclsOfMembers(qual, members[..j]);
      assert members[..j + 1][..j] == members[..j];
      if m.params.Some? {
        index := Add(index, qual + "::" + m.name, m.params.value, decls + own);
        Assoc(decls, own, [(qual + "::" + m.name, m.params.value)]);
      } else {
        assert own + [] == own;
      }
    }
    assert members[..|members|] == members;
  }

  method SignatureArities(records: seq<Record>) returns (index: Index)
    ensures Indexes(index, Decls(records))
  {
    index := map[];
    for i := 0 to |records|
      invariant Indexes(index, Decls(records[..i]))
    {
      var rec := records[i];
      assert records[..i + 1][..i] == records[..i];
      ghost var decls := Decls(records[..i]);
      ghost var own := if rec.params.Some? then [(rec.qual, rec.params.value)] else [];
      if rec.params.Some? {
        index := Add(index, rec.qual, rec.params.value, decls);
      } else {
        assert decls + own == decls;
      }
      index := AddMembers(index, rec.qual, rec.members, decls + own);
      Assoc(decls, own, DeclsOfMembers(rec.qual, rec.members));
    }
    assert records[..|records|] == records;
  }

  // ------------------------------------------------------------- judging a quote

  method QuotedArgCount(args: string) returns (count: int)
    ensures count == |Pieces(args, QUOTE)|
  {
    var depth := 0;
    count := 1;
    for i := 0 to |args|
      invariant depth == Net(args[..i], QUOTE)
      invariant count == |Pieces(args[..i], QUOTE)|
    {
      var ch := args[i];
      assert args[..i + 1][..i] == args[..i];
      if ch in {'(', '<', '[', '{'} {
        depth := depth + 1;
      } else if ch in {')', '>', ']', '}'} {
        depth := depth - 1;
      } else if ch == ',' && depth == 0 {
        count := count + 1;
      }
    }
    assert args[..|args|] == args;
  }

  /** One call-shaped span of a `why`: the name and the text between its parentheses. */
  datatype Quote = Quote(name: string, args: string)

  function QuoteText(q: Quote): string { q.name + "(" + q.args + ")" }

  predicate Elided(args: string) {
    args == "" || Within("...", args) || '\U{2026}' in args
  }

  predicate Accepts(spans: set<Span>, count: int) {
    exists span <- spans :: span.0 <= count <= span.1
  }

  /** A quote that names something the index knows, with a count none of its declarations
      takes. */
  predicate Misquotes(index: Index, retired: set<string>, q: Quote) {
    Judged(index, retired, q) && !Accepts(SpansFor(index, q.name), |Pieces(Strip(q.args), QUOTE)|)
  }

  /** The quote has arguments, states all of them, is not listed as retired, and names
      something the index knows. */
  predicate Judged(index: Index, retired: set<string>, q: Quote) {
    !Elided(Strip(q.args)) && QuoteText(q) !in retired && SpansFor(index, q.name) != {}
  }

  method MisquotedCalls(index: Index, retired: set<string>, quotes: seq<Quote>) returns (findings: seq<Quote>)
    ensures forall q :: q in findings <==> q in quotes && Misquotes(index, retired, q)
  {
    findings := [];
    for i := 0 to |quotes|
      invariant forall q :: q in findings <==> q in quotes[..i] && Misquotes(index, retired, q)
    {
      var q := quotes[i];
      var args := Strip(q.args);
      if Elided(args) {
        continue;
      }
      if QuoteText(q) in retired {
        continue;
      }
      var spans := SpansFor(index, q.name);
      if spans == {} {
        continue;
      }
      var count := QuotedArgCount(args);
      if !Accepts(spans, count) {
        findings := findings + [q];
      }
    }
    assert quotes[..|quotes|] == quotes;
  }

  // ------------------------------------------------------------- what the check promises

  lemma SpaceIsNeutral(ch: char)
    requires ch in SPACES
    ensures ch != ',' && Delta(ch, QUOTE) == 0
  {
  }

  lemma {:induction false} CountIgnoresRight(s: string)
    ensures |Pieces(StripRight(s, SPACES), QUOTE)| == |Pieces(s, QUOTE)|
  {
    if s != "" && s[|s| - 1] in SPACES {
      SpaceIsNeutral(s[|s| - 1]);
      CountIgnoresRight(s[..|s| - 1]);
    }
  }

  lemma {:induction false} CountIgnoresFirst(ch: char, s: string)
    requires ch in SPACES
    ensures |Pieces([ch] + s, QUOTE)| == |Pieces(s, QUOTE)| && Net([ch] + s, QUOTE) == Net(s, QUOTE)
  {
    SpaceIsNeutral(ch);
    NetOne(ch, QUOTE);
    NetAppend([ch], s, QUOTE);
    if s == "" {
      assert [ch] + s == [ch] && [ch][..0] == "";
    } else {
      assert ([ch] + s)[..|s|] == [ch] + s[..|s| - 1];
      CountIgnoresFirst(ch, s[..|s| - 1]);
    }
  }

  lemma {:induction false} CountIgnoresLeft(s: string)
    ensures |Pieces(StripLeft(s, SPACES), QUOTE)| == |Pieces(s, QUOTE)|
  {
    if s != "" && s[0] in SPACES {
      assert s == [s[0]] + s[1..];
      CountIgnoresFirst(s[0], s[1..]);
      CountIgnoresLeft(s[1..]);
    }
  }

  /** The scanner counts as many arguments as there are: it takes as many inner commas for separators as it
      passes over separators. Arguments it can tell apart are the case where both numbers are 0. */
  predicate CountsRight(args: seq<string>) { Exposed(args, QUOTE, 0) == Swallowed(args, QUOTE, 0) }

  lemma CountOfJoin(args: seq<string>)
    requires args != []
    ensures |Pieces(Strip(Join(args, ",")), QUOTE)| == |args| + Exposed(args, QUOTE, 0) - Swallowed(args, QUOTE, 0)
  {
    var text := Join(args, ",");
    CountIgnoresLeft(text);
    CountIgnoresRight(StripLeft(text, SPACES));
    JoinCount(args, QUOTE);
  }

  /** Separable arguments, balanced ones among them, are counted right. */
  lemma SeparableCountsRight(args: seq<string>)
    requires args != []
    ensures Separable(args, QUOTE) ==> CountsRight(args)
    ensures Arguments(args, QUOTE) ==> CountsRight(args)
  {
    SeparableIff(args, QUOTE);
    if Arguments(args, QUOTE) {
      ArgumentsSeparable(args, QUOTE);
    }
  }

  /** The check is exact up to the scanner's count: a quote of `args` is reported iff it is judged at all and
      no declaration takes the number of arguments with the exposed commas and without the swallowed ones. */
  lemma QuoteIsReportedIff(index: Index, retired: set<string>, q: Quote, args: seq<string>)
    requires args != [] && q.args == Join(args, ",")
    ensures Misquotes(index, retired, q) <==>
            Judged(index, retired, q) &&
            !Accepts(SpansFor(index, q.name), |args| + Exposed(args, QUOTE, 0) - Swallowed(args, QUOTE, 0))
  {
    CountOfJoin(args);
  }

  /** `q` quotes a call of `d`, under some `::` suffix of its name, with a number of arguments it takes. */
  predicate TrueQuote(q: Quote, args: seq<string>, d: Decl) {
    NamesBySuffix(q.name, d.0) && Accepts(Spans(d.1), |args|)
  }

  lemma IndexedSpan(index: Index, decls: seq<Decl>, d: Decl, name: string, span: Span)
    requires Indexes(index, decls) && d in decls && NamesBySuffix(name, d.0) && span in Spans(d.1)
    ensures span in SpansFor(index, name)
  {
  }

  lemma RightCount(q: Quote, args: seq<string>)
    requires args != [] && q.args == Join(args, ",")
    ensures |Pieces(Strip(q.args), QUOTE)| == |args| <==> CountsRight(args)
  {
    CountOfJoin(args);
  }

  lemma CountDecides(index: Index, retired: set<string>, q: Quote, n: nat)
    requires |Pieces(Strip(q.args), QUOTE)| == n
    ensures Misquotes(index, retired, q) <==> Judged(index, retired, q) && !Accepts(SpansFor(index, q.name), n)
  {
  }

  lemma TrueQuoteOfIndexed(decls: seq<Decl>, index: Index, retired: set<string>, d: Decl, q: Quote, args: seq<string>)
    requires Indexes(index, decls) && d in decls && TrueQuote(q, args, d)
    requires args != [] && q.args == Join(args, ",") && CountsRight(args)
    ensures !Misquotes(index, retired, q)
  {
    var span :| span in Spans(d.1) && span.0 <= |args| <= span.1;
    IndexedSpan(index, decls, d, q.name, span);
    RightCount(q, args);
    CountDecides(index, retired, q, |args|);
  }

  /** No true quote with these arguments is reported, whatever is declared. */
  ghost predicate NeverReported(q: Quote, args: seq<string>) {
    forall records: seq<Record>, index: Index, retired: set<string>, d: Decl ::
      Indexes(index, Decls(records)) && d in Decls(records) && TrueQuote(q, args, d) ==> !Misquotes(index, retired, q)
  }

  /** A true quote is never reported, whatever is declared, exactly when it leaves arguments out (and is not
      judged) or its arguments are counted right. */
  lemma TrueQuoteIsAccepted(q: Quote, args: seq<string>)
    requires args != [] && q.args == Join(args, ",")
    ensures NeverReported(q, args) <==> Elided(Strip(q.args)) || CountsRight(args)
  {
    if CountsRight(args) {
      forall records: seq<Record>, index: Index, retired: set<string>, d: Decl |
        Indexes(index, Decls(records)) && d in Decls(records) && TrueQuote(q, args, d)
        ensures !Misquotes(index, retired, q)
      {
        TrueQuoteOfIndexed(Decls(records), index, retired, d, q, args);
      }
    } else if !Elided(Strip(q.args)) {
      MiscountIsReported(q, args);
    }
  }

  const REQUIRED := Param("x", false)

  function Needing(n: nat): seq<Param> { seq(n, _ => REQUIRED) }

  lemma {:induction false} NeedingAll(params: seq<Param>)
    requires forall i :: 0 <= i < |params| ==> params[i] == REQUIRED
    ensures Required(params) == |params|
  {
    if params != [] {
      NeedingAll(params[..|params| - 1]);
    }
  }

  lemma NeedingSpans(n: nat)
    ensures Spans(Needing(n)) == {(n, n)}
  {
    NeedingAll(Needing(n));
  }

  lemma NamesItself(qual: string)
    ensures NamesBySuffix(qual, qual)
  {
    JoinSplit(qual, "::");
    assert SplitOn(qual, "::")[0..] == SplitOn(qual, "::");
    assert qual == Suffix(qual, 0);
  }

  /** The index of a single declaration. */
  function IndexOfOne(d: Decl): Index {
    var names := set i | 0 <= i < |SplitOn(d.0, "::")| :: Suffix(d.0, i);
    map name | name in names :: Spans(d.1)
  }

  lemma IndexOfOneIndexes(d: Decl)
    ensures Indexes(IndexOfOne(d), [d])
  {
    assert d in [d];
    forall name, span ensures span in SpansFor(IndexOfOne(d), name) <==> NamesBySuffix(name, d.0) && span in Spans(d.1) {
    }
  }

  lemma OneDeclIndexed(name: string, n: nat)
    ensures var d: Decl := (name, Needing(n));
            Indexes(IndexOfOne(d), [d]) && NamesBySuffix(name, name) && Spans(d.1) == {(n, n)} &&
            SpansFor(IndexOfOne(d), name) == {(n, n)}
  {
    var d: Decl := (name, Needing(n));
    IndexOfOneIndexes(d);
    NamesItself(name);
    NeedingSpans(n);
  }

  /** A true quote that is counted wrong is reported where nothing but its own declaration is known. */
  lemma MiscountIsReported(q: Quote, args: seq<string>)
    requires args != [] && q.args == Join(args, ",") && !Elided(Strip(q.args)) && !CountsRight(args)
    ensures !NeverReported(q, args)
  {
    var n := |args|;
    var d: Decl := (q.name, Needing(n));
    var records := [Record(q.name, Some(Needing(n)), [])];
    var index := IndexOfOne(d);
    assert records[..0] == [] && Decls(records) == [] + DeclsOf(records[0]);
    assert Decls(records) == [d];
    OneDeclIndexed(q.name, n);
    assert TrueQuote(q, args, d) by { assert (n, n) in Spans(d.1); }
    assert d in Decls(records);
    RightCount(q, args);
    OnlySpanRejects(index, q, n);
  }

  lemma OnlySpanRejects(index: Index, q: Quote, n: nat)
    requires SpansFor(index, q.name) == {(n, n)} && !Elided(Strip(q.args)) && |Pieces(Strip(q.args), QUOTE)| != n
    ensures Misquotes(index, {}, q)
  {
    CountDecides(index, {}, q, |Pieces(Strip(q.args), QUOTE)|);
  }

  /** A `self` method may be quoted without its `self`. */
  lemma SelfMayBeOmitted(records: seq<Record>, index: Index, retired: set<string>, d: Decl,
                         q: Quote, args: seq<string>)
    requires Indexes(index, Decls(records)) && d in Decls(records) && NamesBySuffix(q.name, d.0)
    requires d.1 != [] && d.1[0].name == "self"
    requires args != [] && q.args == Join(args, ",") && CountsRight(args)
    requires Required(d.1) - 1 <= |args| <= |d.1| - 1
    ensures !Misquotes(index, retired, q)
  {
    var span := (Required(d.1) - 1, |d.1| - 1);
    assert span in Spans(d.1);
    TrueQuoteOfIndexed(Decls(records), index, retired, d, q, args);
  }

  predicate PlainText(s: string) { forall c <- s :: Delta(c, QUOTE) == 0 && c != ',' }

  /** How a count goes wrong: the `>` of an arrow closes a bracket nothing opened, so between plain texts the
      comma after `a->b` is swallowed and the two arguments count as one. */
  lemma ArrowIsMiscounted(a: string, b: string, c: string)
    requires PlainText(a) && PlainText(b) && PlainText(c)
    ensures |Pieces(Join([a + "->" + b, c], ","), QUOTE)| == 1
  {
    var first := a + "->" + b;
    var all := first + "," + c;
    assert Join([first, c], ",") == all by { assert [first, c][1..] == [c]; }
    ArrowNet(a, b);
    forall i | 0 <= i < |all| ensures Hidden(all, i, QUOTE) {
      if i < |a| {
        assert all[i] == a[i] && a[i] in a;
      } else if |a| + 2 <= i < |first| {
        assert all[i] == b[i - |a| - 2] && b[i - |a| - 2] in b;
      } else if i > |first| {
        assert all[i] == c[i - |first| - 1] && c[i - |first| - 1] in c;
      } else if i == |first| {
        assert all[..i] == first;
      }
    }
    OnePiece(all, |all|, QUOTE);
    assert all[..|all|] == all;
  }

  lemma ArrowNet(a: string, b: string)
    requires PlainText(a) && PlainText(b)
    ensures Net(a + "->" + b, QUOTE) == -1
  {
    NetOfPlain(a, QUOTE);
    NetOfPlain(b, QUOTE);
    NetOne('-', QUOTE);
    NetOne('>', QUOTE);
    NetAppend("-", ">", QUOTE);
    assert "-" + ">" == "->";
    NetAppend(a, "->", QUOTE);
    NetAppend(a + "->", b, QUOTE);
  }
}
