/** Where a redirect is re-aimed: at the page that took over from the one its URL named. */
module RedirectHeirs {
  import opened Text
  import opened PosixPaths
  import opened BookLinks
  import opened Redirects
  import opened RedirectGuarantees

  // ------------------------------------------------------------- the file behind a URL

  /** A user page under `internals/` shares its URL with the Internals page of the same path. */
  predicate InInternals(f: Page) { f.dirs != [] && f.dirs[0] == "internals" }

  function Twin(f: Page): Page
    requires InInternals(f)
  {
    Page(Internals, f.dirs[1..], f.stem)
  }

  /** Neither file that would serve the page's URL exists. */
  predicate Gone(f: Page, fs: set<string>) {
    RelOf(f) !in fs && (InInternals(f) ==> RelOf(Twin(f)) !in fs)
  }

  predicate UserPage(f: Page) { IsPage(f) && f.book.User? }

  lemma UrlSplits(f: Page)
    requires UserPage(f)
    ensures SplitOn(Url(f), "/") == f.dirs + [f.stem + ".html"]
  {
    UrlIsOrdinary(f);
    assert [] + f.dirs + [f.stem + ".html"] == f.dirs + [f.stem + ".html"];
    SplitJoin(UrlComps(f), '/');
  }

  lemma FirstComponent(s: string, c: string)
    requires '/' !in c && c + "/" <= s
    ensures |SplitOn(s, "/")| > 1 && SplitOn(s, "/")[0] == c
  {
    var rest := s[|c| + 1..];
    assert s == c + ['/'] + rest;
    SplitAppend(c, rest, '/');
    SplitWhole(c, '/');
  }

  lemma UrlInInternals(f: Page)
    requires UserPage(f)
    ensures "internals/" <= Url(f) <==> InInternals(f)
  {
    UrlSplits(f);
    assert "internals" + "/" == "internals/";
    if "internals/" <= Url(f) {
      FirstComponent(Url(f), "internals");
      assert (f.dirs + [f.stem + ".html"])[0] == "internals";
    }
    if InInternals(f) {
      assert UrlComps(f)[0] == "internals" && |UrlComps(f)| > 1;
    }
  }

  lemma UserUrlCandidates(f: Page)
    requires UserPage(f)
    ensures Candidates(Url(f), DEPLOY) ==
            if InInternals(f) then [RelOf(Twin(f)), RelOf(f)] else [RelOf(f)]
  {
    UrlInInternals(f);
    if InInternals(f) {
      InternalsCandidate(f);
      UserCandidate(f);
      BothCandidates(Url(f));
    } else {
      UserCandidates(f);
    }
  }

  lemma BothCandidates(url: string)
    requires "internals/" <= url
    ensures |url| >= 10 && Candidates(url, DEPLOY) ==
            ["book-internals/src" + "/" + WithSuffix(url[10..], ".md"), "book/src" + "/" + WithSuffix(url, ".md")]
  {
    TwoEntries(url, "internals/", "book-internals/src", "", "book/src");
    assert url[0..] == url;
  }

  lemma TwoEntries(url: string, p: string, a: string, q: string, b: string)
    requires p <= url && q <= url
    ensures Candidates(url, [(p, a), (q, b)]) ==
            [a + "/" + WithSuffix(url[|p|..], ".md"), b + "/" + WithSuffix(url[|q|..], ".md")]
  {
    assert [] + [(p, a)] == [(p, a)] && [(p, a)] + [(q, b)] == [(p, a), (q, b)];
    CandidateAdds(url, [], p, a);
    CandidateAdds(url, [(p, a)], q, b);
  }

  lemma CandidateAdds(url: string, table: seq<(string, string)>, prefix: string, src: string)
    requires prefix <= url
    ensures Candidates(url, table + [(prefix, src)]) ==
            Candidates(url, table) + [src + "/" + WithSuffix(url[|prefix|..], ".md")]
  {
    assert (table + [(prefix, src)])[..|table|] == table;
  }

  lemma UserCandidate(f: Page)
    requires UserPage(f)
    ensures "book/src" + "/" + WithSuffix(Url(f), ".md") == RelOf(f)
  {
    assert f.stem + ".html" == f.stem + "." + "html";
    WithSuffixSwaps(f.dirs, f.stem, "html", ".md");
    assert [] + f.dirs + [f.stem + ".html"] == f.dirs + [f.stem + ".html"];
  }

  lemma InternalsCandidate(f: Page)
    requires UserPage(f) && InInternals(f)
    ensures IsPage(Twin(f)) && Url(Twin(f)) == Url(f)
    ensures |Url(f)| >= 10 && "book-internals/src" + "/" + WithSuffix(Url(f)[10..], ".md") == RelOf(Twin(f))
  {
    var t := Twin(f);
    UrlsCollideIff(f, t);
    UrlPrefix(t);
    assert t.stem + ".html" == t.stem + "." + "html";
    WithSuffixSwaps(t.dirs, t.stem, "html", ".md");
    assert Url(t)[10..] == Join(t.dirs + [t.stem + ".html"], "/");
  }

  /** The script gives up on any URL that begins with two dots. */
  predicate Dotted(f: Page) { ".." <= Url(f) }

  lemma UrlIsRelativeHtml(f: Page)
    requires UserPage(f)
    ensures EndsWith(Url(f), ".html") && !("/" <= Url(f))
  {
    EndsWithHtml(f.stem);
    JoinSuffix(UrlDirs(f), f.stem + ".html", ".html");
    UrlIsOrdinary(f);
    JoinOrdinaryIsRelative(UrlComps(f));
  }

  lemma SourceOfPage(f: Page, fs: set<string>)
    requires UserPage(f) && !Dotted(f)
    ensures Gone(f, fs) ==> SourceOfUrl(Url(f), fs) == Some(RelOf(f))
    ensures !Gone(f, fs) ==> SourceOfUrl(Url(f), fs).Some? && SourceOfUrl(Url(f), fs).value in fs
  {
    UrlIsRelativeHtml(f);
    UserUrlCandidates(f);
    ServedUrl(Url(f), fs);
    if InInternals(f) {
      FirstOfTwo(RelOf(Twin(f)), RelOf(f), fs);
    } else {
      assert FirstExisting([RelOf(f)], fs) == Some(RelOf(f));
    }
  }

  lemma ServedUrl(url: string, fs: set<string>)
    requires EndsWith(url, ".html") && !(".." <= url) && !("/" <= url)
    ensures SourceOfUrl(url, fs) == FirstExisting(Candidates(url, DEPLOY), fs)
  {
  }

  lemma FirstOfTwo(a: string, b: string, fs: set<string>)
    ensures FirstExisting([a, b], fs) == Some(if a in fs then a else b)
  {
    assert [a, b][1..] == [b];
  }

  // ------------------------------------------------------------- its heir

  /** Row `i` is the first of the map that lists `f` among the places its page has left. */
  predicate FirstFormer(pages: seq<Mapped>, f: Page, i: nat) {
    i < |pages| && f in pages[i].formers && forall j :: 0 <= j < i ==> f !in pages[j].formers
  }

  predicate Owns(p: Mapped, into: Page) { p.target == into && p.mergeInto.None? }

  /** Row `k` is where row `i`'s page is: its own row, or the first that owns the page it was merged into. */
  predicate Inherits(pages: seq<Mapped>, i: nat, k: nat)
    requires i < |pages|
  {
    k < |pages| &&
    match pages[i].mergeInto
    case None => k == i
    case Some(into) => Owns(pages[k], into) && forall j :: 0 <= j < k ==> !Owns(pages[j], into)
  }

  predicate Serves(p: Mapped, fs: set<string>) { RelOf(p.target) in fs || p.generated }

  /** Row `k` serves what `f` once was. */
  predicate HeirOf(pages: seq<Mapped>, fs: set<string>, f: Page, k: nat) {
    exists i: nat :: i < |pages| && FirstFormer(pages, f, i) && Inherits(pages, i, k) && Serves(pages[k], fs)
  }

  lemma RelIsInjective(p: Page, q: Page)
    requires UserPage(p) && UserPage(q)
    ensures RelOf(p) == RelOf(q) <==> p == q
  {
    DeployOfPage(p);
    DeployOfPage(q);
    UrlsCollideIff(p, q);
  }

  lemma HadFile(p: Mapped, f: Page)
    requires WellMapped(p) && UserPage(f)
    ensures (exists g <- p.formers :: RelOf(g) == RelOf(f)) <==> f in p.formers
  {
    forall g <- p.formers ensures RelOf(g) == RelOf(f) <==> g == f {
      RelIsInjective(g, f);
    }
  }

  lemma {:induction false} ByFormerIsFirst(pages: seq<Mapped>, f: Page, i: nat)
    requires WellMappedAll(pages) && UserPage(f) && FirstFormer(pages, f, i)
    ensures ByFormer(pages, RelOf(f)) == Some(pages[i])
  {
    assert WellMapped(pages[0]);
    HadFile(pages[0], f);
    if i > 0 {
      assert FirstFormer(pages[1..], f, i - 1);
      ByFormerIsFirst(pages[1..], f, i - 1);
    }
  }

  lemma {:induction false} ByFormerFinds(pages: seq<Mapped>, f: Page) returns (i: nat)
    requires WellMappedAll(pages) && UserPage(f) && ByFormer(pages, RelOf(f)).Some?
    ensures FirstFormer(pages, f, i)
  {
    assert WellMapped(pages[0]);
    HadFile(pages[0], f);
    if f in pages[0].formers {
      i := 0;
    } else {
      var j := ByFormerFinds(pages[1..], f);
      i := j + 1;
      assert forall m :: 0 < m < |pages| ==> pages[m] == pages[1..][m - 1];
    }
  }

  predicate FirstOwner(pages: seq<Mapped>, into: Page, k: nat) {
    k < |pages| && Owns(pages[k], into) && forall j :: 0 <= j < k ==> !Owns(pages[j], into)
  }

  lemma {:induction false} MergeOwnerIsFirst(pages: seq<Mapped>, into: Page, k: nat)
    requires FirstOwner(pages, into, k)
    ensures MergeOwner(pages, into) == Some(pages[k])
  {
    if k > 0 {
      assert !Owns(pages[0], into);
      assert FirstOwner(pages[1..], into, k - 1);
      MergeOwnerIsFirst(pages[1..], into, k - 1);
    }
  }

  lemma {:induction false} MergeOwnerFinds(pages: seq<Mapped>, into: Page) returns (k: nat)
    requires MergeOwner(pages, into).Some?
    ensures FirstOwner(pages, into, k)
  {
    if Owns(pages[0], into) {
      k := 0;
    } else {
      var j := MergeOwnerFinds(pages[1..], into);
      k := j + 1;
      assert forall m :: 0 < m < |pages| ==> pages[m] == pages[1..][m - 1];
    }
  }

  /** A page's URL leads on to its heir's, if its own file is gone. */
  lemma HeirIsFound(pages: seq<Mapped>, fs: set<string>, f: Page, k: nat)
    requires WellMappedAll(pages) && UserPage(f) && !Dotted(f) && Gone(f, fs) && HeirOf(pages, fs, f, k)
    ensures MovedTo(pages, fs, Url(f)) == Some(UrlFor(pages[k]))
  {
    var i: nat :| i < |pages| && FirstFormer(pages, f, i) && Inherits(pages, i, k) && Serves(pages[k], fs);
    SourceOfPage(f, fs);
    ByFormerIsFirst(pages, f, i);
    if pages[i].mergeInto.Some? {
      MergeOwnerIsFirst(pages, pages[i].mergeInto.value, k);
    }
  }

  lemma FoundIsHeir(pages: seq<Mapped>, fs: set<string>, f: Page) returns (k: nat)
    requires WellMappedAll(pages) && UserPage(f) && MovedTo(pages, fs, Url(f)).Some?
    ensures !Dotted(f) && Gone(f, fs) && HeirOf(pages, fs, f, k)
  {
    SourceOfPage(f, fs);
    var i := ByFormerFinds(pages, f);
    ByFormerIsFirst(pages, f, i);
    k := i;
    if pages[i].mergeInto.Some? {
      k := MergeOwnerFinds(pages, pages[i].mergeInto.value);
      MergeOwnerIsFirst(pages, pages[i].mergeInto.value, k);
    }
    assert FirstFormer(pages, f, i) && Inherits(pages, i, k) && Serves(pages[k], fs);
  }

  /** The URL of a user page leads on exactly if its file is gone and it has an heir, and then to the heir's URL. */
  lemma MovedToIff(pages: seq<Mapped>, fs: set<string>, f: Page, url: string)
    requires WellMappedAll(pages) && UserPage(f)
    ensures MovedTo(pages, fs, Url(f)) == Some(url) <==>
            !Dotted(f) && Gone(f, fs) && exists k: nat :: HeirOf(pages, fs, f, k) && url == UrlFor(pages[k])
  {
    if MovedTo(pages, fs, Url(f)).Some? {
      var k := FoundIsHeir(pages, fs, f);
      HeirIsFound(pages, fs, f, k);
    }
    if !Dotted(f) && Gone(f, fs) {
      forall k: nat | HeirOf(pages, fs, f, k) ensures MovedTo(pages, fs, Url(f)) == Some(UrlFor(pages[k])) {
        HeirIsFound(pages, fs, f, k);
      }
    }
  }

  // ------------------------------------------------------------- the rows

  /** A row that names, relative to its source, the URL of user page `f`. */
  predicate NamesPage(l: Line, f: Page) { l.Row? && SiteUrl(l.src) && Resolved(l.src, l.dst) == Url(f) }

  /** A row whose page has an heir names the heir's URL in the repaired file, with its source and its anchor. */
  lemma RowFollowsItsPage(lines: seq<Line>, moved: seq<Mapped>, pages: seq<Mapped>, fs: set<string>, cwd: seq<string>,
                          i: nat, f: Page, k: nat) returns (at: nat)
    requires WellMappedAll(pages) && UserPage(f) && i < |lines| && NamesPage(lines[i], f)
    requires !Dotted(f) && Gone(f, fs) && HeirOf(pages, fs, f, k)
    ensures var out := Redirected(lines, moved, Some(pages), fs, cwd);
            at < |out| && out[at].Row? && out[at].src == lines[i].src && out[at].anchor == lines[i].anchor &&
            NamedUrl(out[at].src, out[at].dst) == Url(pages[k].target)
  {
    var existing := Repointed(lines, pages, fs, cwd);
    HeirIsFound(pages, fs, f, k);
    assert WellMapped(pages[k]);
    AimNames(lines[i].src, pages[k].target, cwd);
    at := KeptLine(existing, Fresh(Moves(moved), existing, cwd), i);
  }

  /** Any other row of a user page stays as it is. */
  lemma OtherRowsStay(lines: seq<Line>, moved: seq<Mapped>, pages: seq<Mapped>, fs: set<string>, cwd: seq<string>,
                      i: nat, f: Page) returns (at: nat)
    requires WellMappedAll(pages) && UserPage(f) && i < |lines| && NamesPage(lines[i], f)
    requires Dotted(f) || !Gone(f, fs) || forall k: nat :: !HeirOf(pages, fs, f, k)
    ensures var out := Redirected(lines, moved, Some(pages), fs, cwd); at < |out| && out[at] == lines[i]
  {
    var existing := Repointed(lines, pages, fs, cwd);
    if MovedTo(pages, fs, Url(f)).Some? {
      var k := FoundIsHeir(pages, fs, f);
    }
    assert existing[i] == lines[i];
    at := KeptLine(existing, Fresh(Moves(moved), existing, cwd), i);
  }

  /** Every place a moved page has left is one of the moves. */
  lemma {:induction false} FormerIsMove(moved: seq<Mapped>, p: Mapped, f: Page)
    requires p in moved && f in p.formers
    ensures (Url(f), UrlFor(p)) in Moves(moved)
  {
    var init, last := moved[..|moved| - 1], moved[|moved| - 1];
    if p == last {
      var i :| 0 <= i < |p.formers| && p.formers[i] == f;
      assert MovesOf(p)[i] == (Url(f), UrlFor(p));
    } else {
      assert p in init;
      FormerIsMove(init, p, f);
    }
  }

  /** A former URL that the file does not quote, and that only one page had, gets a row towards that page. */
  lemma FormerUrlLeads(lines: seq<Line>, moved: seq<Mapped>, pages: seq<Mapped>, fs: set<string>, cwd: seq<string>,
                       p: Mapped, f: Page) returns (at: nat)
    requires WellMappedAll(moved) && p in moved && f in p.formers && Url(f) != UrlFor(p)
    requires !Mentioned(Repointed(lines, pages, fs, cwd), Url(f))
    requires forall m <- Moves(moved) :: m.0 == Url(f) && m.0 != m.1 ==> m.1 == UrlFor(p)
    ensures var out := Redirected(lines, moved, Some(pages), fs, cwd);
            at < |out| && out[at].Row? && out[at].src == Url(f) && out[at].anchor == "" &&
            NamedUrl(out[at].src, out[at].dst) == Url(p.target)
  {
    var existing, m := Repointed(lines, pages, fs, cwd), (Url(f), UrlFor(p));
    var rows := Fresh(Moves(moved), existing, cwd);
    FormerIsMove(moved, p, f);
    FreshCovers(Moves(moved), existing, cwd, m);
    var j :| 0 <= j < |rows| && rows[j].Row? && rows[j].src == Url(f);
    FreshRows(Moves(moved), existing, cwd);
    assert IsFresh(rows[j], Moves(moved), existing, cwd);
    assert rows[j] == NewRow(m, cwd);
    MemberIsMapped(moved, p);
    LinkDirectory(f);
    AimNames(m.0, p.target, cwd);
    at := InsertedRow(existing, rows, j);
  }

  /** A line that quotes a former URL, a comment say, keeps its row from being written. */
  lemma QuotedUrlGetsNoRow(lines: seq<Line>, moved: seq<Mapped>, pages: seq<Mapped>, fs: set<string>, cwd: seq<string>,
                           i: nat, m: Move)
    requires m in Moves(moved) && m.0 != m.1 && !HasSource(lines, m.0)
    requires i < |lines| && lines[i].Other? && m.0 in lines[i].quoted
    ensures !HasSource(Redirected(lines, moved, Some(pages), fs, cwd), m.0)
  {
    var existing := Repointed(lines, pages, fs, cwd);
    assert Quotes(existing[i], m.0);
    FormerUrlsRedirect(lines, moved, pages, fs, cwd, m);
  }

  /** The rows added stand right below the file's first table header. */
  lemma RowsBelowHeader(lines: seq<Line>, rows: seq<Line>) returns (h: nat)
    requires rows != []
    ensures var out := Inserted(lines, rows);
            h + 1 + |rows| <= |out| && out[h] == Header && Header !in out[..h] && out[h + 1..h + 1 + |rows|] == rows
  {
    var text := WithHeader(lines);
    h := HeaderAt(text);
    HeaderIsFirst(text);
    assert Inserted(lines, rows)[..h] == text[..h];
  }

  lemma {:induction false} HeaderIsFirst(lines: seq<Line>)
    ensures Header !in lines[..HeaderAt(lines)]
  {
    if lines != [] && lines[0] != Header {
      HeaderIsFirst(lines[1..]);
      assert lines[..HeaderAt(lines)] == [lines[0]] + lines[1..][..HeaderAt(lines[1..])];
    }
  }
}
