/** What redirect repair guarantees, and when. */
module RedirectGuarantees {
  import opened Text
  import opened PosixPaths
  import opened BookLinks
  import opened Redirects

  // ------------------------------------------------------------- the rows added

  predicate DistinctSources(lines: seq<Line>) {
    forall i, j :: 0 <= i < j < |lines| && lines[i].Row? && lines[j].Row? ==> lines[i].src != lines[j].src
  }

  predicate IsFresh(row: Line, moves: seq<Move>, existing: seq<Line>, cwd: seq<string>) {
    exists m <- moves :: row == NewRow(m, cwd) && m.0 != m.1 && !Mentioned(existing, m.0)
  }

  lemma FreshGrows(row: Line, init: seq<Move>, m: Move, existing: seq<Line>, cwd: seq<string>)
    requires IsFresh(row, init, existing, cwd)
    ensures IsFresh(row, init + [m], existing, cwd)
  {
    var k :| k in init && row == NewRow(k, cwd) && k.0 != k.1 && !Mentioned(existing, k.0);
    assert k in init + [m];
  }

  lemma NewRowIsFresh(init: seq<Move>, m: Move, rows: seq<Line>, existing: seq<Line>, cwd: seq<string>)
    requires !Skipped(m, existing, rows) && DistinctSources(rows)
    ensures IsFresh(NewRow(m, cwd), init + [m], existing, cwd) && DistinctSources(rows + [NewRow(m, cwd)])
  {
    assert m in init + [m];
    assert !HasSource(rows, m.0);
  }

  predicate AllFresh(rows: seq<Line>, moves: seq<Move>, existing: seq<Line>, cwd: seq<string>) {
    forall i :: 0 <= i < |rows| ==> IsFresh(rows[i], moves, existing, cwd)
  }

  predicate FreshIsSound(moves: seq<Move>, existing: seq<Line>, cwd: seq<string>) {
    var rows := Fresh(moves, existing, cwd);
    DistinctSources(rows) && AllFresh(rows, moves, existing, cwd)
  }

  lemma AllFreshGrows(rows: seq<Line>, init: seq<Move>, m: Move, existing: seq<Line>, cwd: seq<string>)
    requires AllFresh(rows, init, existing, cwd)
    ensures AllFresh(rows, init + [m], existing, cwd)
  {
    forall i | 0 <= i < |rows| ensures IsFresh(rows[i], init + [m], existing, cwd) {
      FreshGrows(rows[i], init, m, existing, cwd);
    }
  }

  lemma FreshRowsStep(init: seq<Move>, m: Move, existing: seq<Line>, cwd: seq<string>)
    requires FreshIsSound(init, existing, cwd)
    ensures FreshIsSound(init + [m], existing, cwd)
  {
    var before := Fresh(init, existing, cwd);
    FreshStep(init, m, existing, cwd);
    AllFreshGrows(before, init, m, existing, cwd);
    if !Skipped(m, existing, before) {
      NewRowIsFresh(init, m, before, existing, cwd);
      assert AllFresh(before + [NewRow(m, cwd)], init + [m], existing, cwd);
    }
  }

  lemma {:induction false} FreshSound(moves: seq<Move>, n: nat, existing: seq<Line>, cwd: seq<string>)
    requires n <= |moves|
    ensures FreshIsSound(moves[..n], existing, cwd)
  {
    if n == 0 {
      assert Fresh(moves[..0], existing, cwd) == [];
    } else {
      FreshSound(moves, n - 1, existing, cwd);
      FreshRowsStep(moves[..n - 1], moves[n - 1], existing, cwd);
      assert moves[..n] == moves[..n - 1] + [moves[n - 1]];
    }
  }

  lemma FreshRows(moves: seq<Move>, existing: seq<Line>, cwd: seq<string>)
    ensures var rows := Fresh(moves, existing, cwd);
            DistinctSources(rows) && AllFresh(rows, moves, existing, cwd)
  {
    FreshSound(moves, |moves|, existing, cwd);
    assert moves[..|moves|] == moves;
  }

  lemma {:induction false} FreshCovers(moves: seq<Move>, existing: seq<Line>, cwd: seq<string>, m: Move)
    requires m in moves
    ensures m.0 == m.1 || Mentioned(existing, m.0) || HasSource(Fresh(moves, existing, cwd), m.0)
  {
    var init, last := moves[..|moves| - 1], moves[|moves| - 1];
    var before, rows := Fresh(init, existing, cwd), Fresh(moves, existing, cwd);
    if m == last {
      if !Skipped(m, existing, before) {
        assert rows[|before|].src == m.0;
      }
    } else {
      assert m in init;
      FreshCovers(init, existing, cwd, m);
      if HasSource(before, m.0) {
        var i :| 0 <= i < |before| && before[i].Row? && before[i].src == m.0;
        assert rows[i] == before[i];
      }
    }
  }

  lemma {:induction false} FreshEmpty(moves: seq<Move>, existing: seq<Line>, cwd: seq<string>)
    requires forall m <- moves :: m.0 == m.1 || Mentioned(existing, m.0)
    ensures Fresh(moves, existing, cwd) == []
  {
    if moves != [] {
      FreshEmpty(moves[..|moves| - 1], existing, cwd);
    }
  }

  // ------------------------------------------------------------- where they go

  lemma {:induction false} DropBlanksOnly(lines: seq<Line>)
    ensures DropBlanks(lines) <= lines
    ensures forall i :: |DropBlanks(lines)| <= i < |lines| ==> lines[i] == Blank
  {
    if lines != [] && lines[|lines| - 1] == Blank {
      DropBlanksOnly(lines[..|lines| - 1]);
    }
  }

  /** The file after an insertion is the old text, up to blank lines and a new header, with
      the rows put in one place. */
  lemma InsertedShape(lines: seq<Line>, rows: seq<Line>) returns (a: seq<Line>, b: seq<Line>)
    ensures Inserted(lines, rows) == a + rows + b
    ensures forall i :: 0 <= i < |lines| && lines[i] != Blank ==> i < |a + b| && (a + b)[i] == lines[i]
    ensures forall i :: 0 <= i < |a + b| && (a + b)[i].Row? ==> i < |lines| && lines[i] == (a + b)[i]
    ensures forall l <- a + b :: l in lines || !l.Row?
  {
    if rows == [] {
      a, b := lines, [];
      assert a + b == lines && a + rows + b == lines;
    } else {
      var text := WithHeader(lines);
      var h := HeaderAt(text);
      a, b := text[..h + 1], text[h + 1..];
      assert a + b == text;
      HeaderKeeps(lines);
    }
  }

  lemma HeaderKeeps(lines: seq<Line>)
    ensures var text := WithHeader(lines);
            && (forall i :: 0 <= i < |lines| && lines[i] != Blank ==> i < |text| && text[i] == lines[i])
            && (forall i :: 0 <= i < |text| && text[i].Row? ==> i < |lines| && lines[i] == text[i])
            && (forall l <- text :: l in lines || !l.Row?)
  {
    DropBlanksOnly(lines);
  }

  lemma KeptLine(lines: seq<Line>, rows: seq<Line>, i: nat) returns (k: nat)
    requires i < |lines| && lines[i] != Blank
    ensures k < |Inserted(lines, rows)| && Inserted(lines, rows)[k] == lines[i]
  {
    var a, b := InsertedShape(lines, rows);
    assert (a + b)[i] == lines[i];
    k := if i < |a| then i else i + |rows|;
  }

  lemma InsertedRow(lines: seq<Line>, rows: seq<Line>, i: nat) returns (k: nat)
    requires i < |rows|
    ensures k < |Inserted(lines, rows)| && Inserted(lines, rows)[k] == rows[i]
  {
    var a, b := InsertedShape(lines, rows);
    k := |a| + i;
  }

  lemma RowComesFrom(lines: seq<Line>, rows: seq<Line>, k: nat)
    requires k < |Inserted(lines, rows)| && Inserted(lines, rows)[k].Row?
    ensures Inserted(lines, rows)[k] in lines || Inserted(lines, rows)[k] in rows
  {
    var a, b := InsertedShape(lines, rows);
    if |a| <= k < |a| + |rows| {
      assert rows[k - |a|] == Inserted(lines, rows)[k];
    } else {
      var i := if k < |a| then k else k - |rows|;
      assert (a + b)[i] == Inserted(lines, rows)[k];
    }
  }

  lemma InsertedQuotes(lines: seq<Line>, rows: seq<Line>, url: string)
    ensures Mentioned(Inserted(lines, rows), url) <== Mentioned(lines, url) || HasSource(rows, url)
    ensures HasSource(Inserted(lines, rows), url) <==> HasSource(lines, url) || HasSource(rows, url)
  {
    var all := Inserted(lines, rows);
    if Mentioned(lines, url) {
      var i :| 0 <= i < |lines| && Quotes(lines[i], url);
      var k := KeptLine(lines, rows, i);
      assert Quotes(all[k], url);
    }
    if HasSource(lines, url) {
      var i :| 0 <= i < |lines| && lines[i].Row? && lines[i].src == url;
      var k := KeptLine(lines, rows, i);
      assert all[k].src == url;
    }
    if HasSource(rows, url) {
      var i :| 0 <= i < |rows| && rows[i].Row? && rows[i].src == url;
      var k := InsertedRow(lines, rows, i);
      assert all[k].src == url && Quotes(all[k], url);
    }
    if HasSource(all, url) {
      var k :| 0 <= k < |all| && all[k].Row? && all[k].src == url;
      RowComesFrom(lines, rows, k);
      SourceIn(lines, all[k]);
      SourceIn(rows, all[k]);
    }
  }

  lemma SourceIn(lines: seq<Line>, l: Line)
    requires l.Row?
    ensures l in lines ==> HasSource(lines, l.src)
  {
    if l in lines {
      var i :| 0 <= i < |lines| && lines[i] == l;
      assert lines[i].src == l.src;
    }
  }

  lemma RepointKeepsSources(lines: seq<Line>, pages: seq<Mapped>, fs: set<string>, cwd: seq<string>, url: string)
    ensures HasSource(Repointed(lines, pages, fs, cwd), url) <==> HasSource(lines, url)
  {
    var out := Repointed(lines, pages, fs, cwd);
    if HasSource(lines, url) {
      var i :| 0 <= i < |lines| && lines[i].Row? && lines[i].src == url;
      assert out[i].Row? && out[i].src == url;
    }
    if HasSource(out, url) {
      var i :| 0 <= i < |out| && out[i].Row? && out[i].src == url;
      assert lines[i].Row? && lines[i].src == url;
    }
  }

  /** Every URL a moved page had, other than its current one, is the source of a row
      afterwards, exactly unless the file already quoted that URL somewhere that is not a
      row's source: the script takes any `"/url"` in the text for an existing row. */
  lemma FormerUrlsRedirect(lines: seq<Line>, moved: seq<Mapped>, pages: seq<Mapped>, fs: set<string>,
                           cwd: seq<string>, m: Move)
    requires m in Moves(moved) && m.0 != m.1
    ensures var existing := Repointed(lines, pages, fs, cwd);
            HasSource(Redirected(lines, moved, Some(pages), fs, cwd), m.0) <==>
            HasSource(lines, m.0) || !Mentioned(existing, m.0)
    ensures Mentioned(Redirected(lines, moved, Some(pages), fs, cwd), m.0)
  {
    var existing := Repointed(lines, pages, fs, cwd);
    var rows := Fresh(Moves(moved), existing, cwd);
    FreshCovers(Moves(moved), existing, cwd, m);
    RepointKeepsSources(lines, pages, fs, cwd, m.0);
    InsertedQuotes(existing, rows, m.0);
    FreshSourceIsNew(Moves(moved), existing, cwd, m.0);
  }

  lemma FreshSourceIsNew(moves: seq<Move>, existing: seq<Line>, cwd: seq<string>, url: string)
    ensures HasSource(Fresh(moves, existing, cwd), url) ==> !Mentioned(existing, url)
  {
    var rows := Fresh(moves, existing, cwd);
    FreshRows(moves, existing, cwd);
    if HasSource(rows, url) {
      var i :| 0 <= i < |rows| && rows[i].Row? && rows[i].src == url;
      assert IsFresh(rows[i], moves, existing, cwd);
    }
  }

  /** No URL gets a second row. */
  lemma SourcesStayDistinct(lines: seq<Line>, moved: seq<Mapped>, pages: seq<Mapped>, fs: set<string>, cwd: seq<string>)
    requires DistinctSources(lines)
    ensures DistinctSources(Redirected(lines, moved, Some(pages), fs, cwd))
  {
    var existing := Repointed(lines, pages, fs, cwd);
    var rows := Fresh(Moves(moved), existing, cwd);
    FreshRows(Moves(moved), existing, cwd);
    var a, b := InsertedShape(existing, rows);
    var all := Inserted(existing, rows);
    forall i, j | 0 <= i < j < |all| && all[i].Row? && all[j].Row? ensures all[i].src != all[j].src {
      DistinctAt(existing, rows, a, b, moved, cwd, i, j);
    }
  }

  lemma DistinctAt(existing: seq<Line>, rows: seq<Line>, a: seq<Line>, b: seq<Line>, moved: seq<Mapped>,
                   cwd: seq<string>, i: nat, j: nat)
    requires DistinctSources(existing) && DistinctSources(rows)
    requires forall k :: 0 <= k < |rows| ==> IsFresh(rows[k], Moves(moved), existing, cwd)
    requires forall k :: 0 <= k < |a + b| && (a + b)[k].Row? ==> k < |existing| && existing[k] == (a + b)[k]
    requires i < j < |a + rows + b| && (a + rows + b)[i].Row? && (a + rows + b)[j].Row?
    ensures (a + rows + b)[i].src != (a + rows + b)[j].src
  {
    var all := a + rows + b;
    var ri := |a| <= i < |a| + |rows|;
    var rj := |a| <= j < |a| + |rows|;
    var oi := if i < |a| then i else i - |rows|;
    var oj := if j < |a| then j else j - |rows|;
    if ri && rj {
      assert all[i] == rows[i - |a|] && all[j] == rows[j - |a|];
    } else if ri {
      assert all[i] == rows[i - |a|] && IsFresh(rows[i - |a|], Moves(moved), existing, cwd);
      assert (a + b)[oj] == all[j] && existing[oj] == all[j];
      assert Quotes(existing[oj], all[j].src);
    } else if rj {
      assert all[j] == rows[j - |a|] && IsFresh(rows[j - |a|], Moves(moved), existing, cwd);
      assert (a + b)[oi] == all[i] && existing[oi] == all[i];
      assert Quotes(existing[oi], all[i].src);
    } else {
      assert (a + b)[oi] == all[i] && (a + b)[oj] == all[j];
      assert existing[oi] == all[i] && existing[oj] == all[j];
    }
  }

  // ------------------------------------------------------------- no chains

  /** A redirect source the relative arithmetic is meant for: it stays inside the site. */
  predicate SiteUrl(src: string) { InSite(Dirname(src)) }

  lemma StripRightEnd(s: string, cs: set<char>)
    ensures var r := StripRight(s, cs); r != "" ==> r[|r| - 1] !in cs
  {
  }

  lemma DirnameEnd(p: string)
    requires SiteUrl(p)
    ensures Dirname(p) != "" ==> !EndsWith(Dirname(p), "/")
  {
    StripRightEnd(HeadOf(p), {'/'});
    if HeadOf(p) != "" && forall c <- HeadOf(p) :: c == '/' {
      AllSlashesLeaveSite(HeadOf(p));
    }
  }

  lemma AllSlashesLeaveSite(head: string)
    requires head != "" && forall c <- head :: c == '/'
    ensures !InSite(head)
  {
    assert head[0] in head;
  }

  /** A rewritten or added row leads exactly where it was aimed. */
  lemma RowReadsBack(src: string, target: seq<string>, cwd: seq<string>)
    requires SiteUrl(src) && target != [] && AllOrdinary(target)
    ensures Resolved(src, Relpath(Join(target, "/"), DirOf(src), cwd)) == Join(target, "/")
  {
    var dir := Dirname(src);
    DirnameEnd(src);
    NormalisedJoinUndoesRelpath(target, dir, cwd);
    if dir == "" {
      SplitWhole(".", '/');
      assert SiteComps(".") == Push([], ".", false) by {
        assert PushAll([], ["."], false) == PushAll(Push([], ".", false), [], false);
      }
      assert SplitOn("", "/") == [""];
      assert SiteComps("") == [] by {
        assert PushAll([], [""], false) == PushAll(Push([], "", false), [], false);
      }
      RelpathInSite(target, ".", cwd);
      RelpathInSite(target, "", cwd);
    }
  }

  lemma MovedToIsPage(pages: seq<Mapped>, fs: set<string>, url: string)
    requires MovedTo(pages, fs, url).Some?
    ensures exists p <- pages :: UrlFor(p) == MovedTo(pages, fs, url).value
  {
  }

  /** The URL has not been left, or leads to itself. */
  predicate Settled(pages: seq<Mapped>, fs: set<string>, url: string) {
    var next := MovedTo(pages, fs, url);
    next.None? || next.value == url
  }

  lemma {:induction false} FirstExistingExists(cands: seq<string>, c: string, fs: set<string>)
    requires c in cands && c in fs
    ensures FirstExisting(cands, fs).Some? && FirstExisting(cands, fs).value in fs
  {
    if cands[0] !in fs && |cands| > 1 {
      FirstExistingExists(cands[1..], c, fs);
    }
  }

  /** A page that exists at its target has not left its URL. */
  lemma ExistingTargetIsSettled(pages: seq<Mapped>, fs: set<string>, p: Mapped)
    requires WellMapped(p) && RelOf(p.target) in fs
    ensures MovedTo(pages, fs, UrlFor(p)).None?
  {
    UrlCandidates(p.target);
    FirstExistingExists(Candidates(UrlFor(p), DEPLOY), RelOf(p.target), fs);
  }

  /** The URL a row names: its destination, from the site's root if it is written so, or else read from its source. */
  function NamedUrl(src: string, dst: string): string {
    if "/" <= dst then StripLeft(Normpath(dst), {'/'}) else Resolved(src, dst)
  }

  /** The row names no URL whose page has left it. */
  predicate LeadsSettled(l: Line, pages: seq<Mapped>, fs: set<string>) {
    l.Row? ==> Settled(pages, fs, NamedUrl(l.src, l.dst))
  }

  predicate Fixed(l: Line, pages: seq<Mapped>, fs: set<string>, cwd: seq<string>) {
    RepointLine(l, pages, fs, cwd) == l
  }

  /** What the script writes for a destination is never rooted. */
  lemma AimIsRelative(src: string, target: seq<string>, cwd: seq<string>)
    requires SiteUrl(src) && target != [] && AllOrdinary(target)
    ensures !("/" <= Relpath(Join(target, "/"), DirOf(src), cwd))
  {
    var dir := DirOf(src);
    DotIsSite();
    RelpathInSite(target, dir, cwd);
    var rel := RelComps(target, SiteComps(dir));
    RelCompsShape(target, SiteComps(dir));
    LinkSplits(rel, if rel == [] then "." else Join(rel, "/"));
  }

  lemma DotIsSite()
    ensures InSite(".")
  {
    SplitWhole(".", '/');
    assert PushAll([], ["."], false) == PushAll(Push([], ".", false), [], false);
  }

  /** Two pages' URLs are told apart by the rows aimed at them. */
  lemma AimsDiffer(src: string, p: Page, q: Page, cwd: seq<string>)
    requires SiteUrl(src) && IsPage(p) && IsPage(q)
    ensures Relpath(Url(p), DirOf(src), cwd) == Relpath(Url(q), DirOf(src), cwd) <==> Url(p) == Url(q)
  {
    UrlIsOrdinary(p);
    UrlIsOrdinary(q);
    RowReadsBack(src, UrlComps(p), cwd);
    RowReadsBack(src, UrlComps(q), cwd);
  }

  /** A row aimed at a page names that page's URL. */
  lemma AimNames(src: string, p: Page, cwd: seq<string>)
    requires SiteUrl(src) && IsPage(p)
    ensures var dst := Relpath(Url(p), DirOf(src), cwd); NamedUrl(src, dst) == Resolved(src, dst) == Url(p)
  {
    UrlIsOrdinary(p);
    RowReadsBack(src, UrlComps(p), cwd);
    AimIsRelative(src, UrlComps(p), cwd);
  }

  /** It stays as it is, and leads to a settled URL, exactly when that page's URL is settled. */
  lemma AimedRow(src: string, anchor: string, p: Page, pages: seq<Mapped>, fs: set<string>, cwd: seq<string>)
    requires SiteUrl(src) && IsPage(p) && WellMappedAll(pages)
    ensures var l := Row(src, Relpath(Url(p), DirOf(src), cwd), anchor);
            (Fixed(l, pages, fs, cwd) <==> Settled(pages, fs, Url(p))) &&
            (LeadsSettled(l, pages, fs) <==> Settled(pages, fs, Url(p)))
  {
    AimNames(src, p, cwd);
    var next := MovedTo(pages, fs, Url(p));
    if next.Some? {
      MovedToIsPage(pages, fs, Url(p));
      var q :| q in pages && UrlFor(q) == next.value;
      MemberIsMapped(pages, q);
      AimsDiffer(src, p, q.target, cwd);
    }
  }

  lemma RootedStaysRooted(p: string)
    requires "/" <= p
    ensures "/" <= Normpath(p)
  {
  }

  /** The row's destination is written from the site's root. */
  predicate Rooted(l: Line) { l.Row? && "/" <= l.dst }

  /** A row is re-aimed exactly when the page of the URL it names has left it and its destination is not written
      from the site's root. */
  lemma ReaimedIff(l: Line, pages: seq<Mapped>, fs: set<string>)
    requires l.Row?
    ensures StaleRedirect(pages, fs, l.src, l.dst).Some? <==>
            MovedTo(pages, fs, NamedUrl(l.src, l.dst)).Some? && !Rooted(l)
    ensures Rooted(l) ==> forall cwd :: Fixed(l, pages, fs, cwd)
  {
    if "/" <= l.dst {
      RootedStaysRooted(l.dst);
    }
  }

  lemma MemberIsMapped(pages: seq<Mapped>, p: Mapped)
    requires WellMappedAll(pages) && p in pages
    ensures WellMapped(p)
  {
    var i :| 0 <= i < |pages| && pages[i] == p;
    assert WellMapped(pages[i]);
  }

  predicate SiteRows(lines: seq<Line>) {
    forall i :: 0 <= i < |lines| && lines[i].Row? ==> SiteUrl(lines[i].src)
  }

  /** The URL this run sends the row to, where it re-aims it, is settled. */
  predicate AimSettled(l: Line, pages: seq<Mapped>, fs: set<string>) {
    l.Row? ==>
      var url := StaleRedirect(pages, fs, l.src, l.dst);
      url.Some? ==> Settled(pages, fs, url.value)
  }

  /** A row written from the site's root names no URL whose page has left it; the run would not re-aim it. */
  predicate RootedSettled(l: Line, pages: seq<Mapped>, fs: set<string>) {
    Rooted(l) ==> LeadsSettled(l, pages, fs)
  }

  lemma RepointedLine(l: Line, pages: seq<Mapped>, fs: set<string>, cwd: seq<string>)
    requires WellMappedAll(pages) && (l.Row? ==> SiteUrl(l.src))
    ensures var r := RepointLine(l, pages, fs, cwd);
            (Fixed(r, pages, fs, cwd) <==> AimSettled(l, pages, fs)) &&
            (LeadsSettled(r, pages, fs) <==> AimSettled(l, pages, fs) && RootedSettled(l, pages, fs))
  {
    if l.Row? {
      ReaimedIff(l, pages, fs);
      var url := StaleRedirect(pages, fs, l.src, l.dst);
      if url.Some? {
        MovedToIsPage(pages, fs, Resolved(l.src, l.dst));
        var p :| p in pages && UrlFor(p) == url.value;
        MemberIsMapped(pages, p);
        AimedRow(l.src, l.anchor, p.target, pages, fs, cwd);
      }
    }
  }

  lemma {:induction false} MovesAre(moved: seq<Mapped>, m: Move)
    requires m in Moves(moved)
    ensures exists p <- moved :: exists f <- p.formers :: m == (Url(f), UrlFor(p))
  {
    var init, p := moved[..|moved| - 1], moved[|moved| - 1];
    if m in MovesOf(p) {
      var i :| 0 <= i < |p.formers| && MovesOf(p)[i] == m;
      assert p.formers[i] in p.formers;
    } else {
      MovesAre(init, m);
      var q :| q in init && exists f <- q.formers :: m == (Url(f), UrlFor(q));
      assert q in moved;
    }
  }

  lemma AddedRow(m: Move, moved: seq<Mapped>, pages: seq<Mapped>, fs: set<string>, cwd: seq<string>)
    requires WellMappedAll(pages) && WellMappedAll(moved) && m in Moves(moved)
    ensures Fixed(NewRow(m, cwd), pages, fs, cwd) <==> Settled(pages, fs, m.1)
    ensures LeadsSettled(NewRow(m, cwd), pages, fs) <==> Settled(pages, fs, m.1)
  {
    MovesAre(moved, m);
    var p :| p in moved && exists f <- p.formers :: m == (Url(f), UrlFor(p));
    var f :| f in p.formers && m == (Url(f), UrlFor(p));
    MemberIsMapped(moved, p);
    LinkDirectory(f);
    AimedRow(m.0, "", p.target, pages, fs, cwd);
  }

  /** Every URL this run aims a row at, by rewriting one or by adding one, is settled. */
  predicate AimsSettled(lines: seq<Line>, moved: seq<Mapped>, pages: seq<Mapped>, fs: set<string>, cwd: seq<string>) {
    && (forall i :: 0 <= i < |lines| ==> AimSettled(lines[i], pages, fs))
    && (forall m <- Moves(moved) :: Adds(lines, moved, pages, fs, cwd, m) ==> Settled(pages, fs, m.1))
  }

  predicate AllRootedSettled(lines: seq<Line>, pages: seq<Mapped>, fs: set<string>) {
    forall i :: 0 <= i < |lines| ==> RootedSettled(lines[i], pages, fs)
  }

  /** This run adds the row of the move `m`. */
  predicate Adds(lines: seq<Line>, moved: seq<Mapped>, pages: seq<Mapped>, fs: set<string>, cwd: seq<string>, m: Move) {
    NewRow(m, cwd) in Fresh(Moves(moved), Repointed(lines, pages, fs, cwd), cwd)
  }

  lemma AimsSettledLine(lines: seq<Line>, moved: seq<Mapped>, pages: seq<Mapped>, fs: set<string>,
                        cwd: seq<string>, l: Line)
    requires WellMappedAll(pages) && WellMappedAll(moved) && SiteRows(lines)
    requires AimsSettled(lines, moved, pages, fs, cwd) && l in Redirected(lines, moved, Some(pages), fs, cwd)
    ensures Fixed(l, pages, fs, cwd)
    ensures AllRootedSettled(lines, pages, fs) ==> LeadsSettled(l, pages, fs)
  {
    var existing := Repointed(lines, pages, fs, cwd);
    var rows := Fresh(Moves(moved), existing, cwd);
    var all := Inserted(existing, rows);
    var k :| 0 <= k < |all| && all[k] == l;
    if l.Row? {
      RowComesFrom(existing, rows, k);
      if l in rows {
        FreshRows(Moves(moved), existing, cwd);
        var i :| 0 <= i < |rows| && rows[i] == l;
        assert IsFresh(rows[i], Moves(moved), existing, cwd);
        var m :| m in Moves(moved) && l == NewRow(m, cwd);
        assert Adds(lines, moved, pages, fs, cwd, m);
        AddedRow(m, moved, pages, fs, cwd);
      } else {
        var i :| 0 <= i < |existing| && existing[i] == l;
        RepointedLine(lines[i], pages, fs, cwd);
      }
    }
  }

  predicate Unsettled(l: Line, once: seq<Line>, pages: seq<Mapped>, fs: set<string>, cwd: seq<string>) {
    l in once && !Fixed(l, pages, fs, cwd) && !LeadsSettled(l, pages, fs)
  }

  lemma RewrittenUnsettled(lines: seq<Line>, moved: seq<Mapped>, pages: seq<Mapped>, fs: set<string>,
                           cwd: seq<string>, i: nat)
    requires WellMappedAll(pages) && SiteRows(lines) && i < |lines| && !AimSettled(lines[i], pages, fs)
    ensures Unsettled(RepointLine(lines[i], pages, fs, cwd), Redirected(lines, moved, Some(pages), fs, cwd), pages, fs, cwd)
  {
    var existing := Repointed(lines, pages, fs, cwd);
    RepointedLine(lines[i], pages, fs, cwd);
    var k := KeptLine(existing, Fresh(Moves(moved), existing, cwd), i);
  }

  lemma AddedUnsettled(lines: seq<Line>, moved: seq<Mapped>, pages: seq<Mapped>, fs: set<string>,
                       cwd: seq<string>, m: Move)
    requires WellMappedAll(pages) && WellMappedAll(moved)
    requires m in Moves(moved) && Adds(lines, moved, pages, fs, cwd, m) && !Settled(pages, fs, m.1)
    ensures Unsettled(NewRow(m, cwd), Redirected(lines, moved, Some(pages), fs, cwd), pages, fs, cwd)
  {
    var existing := Repointed(lines, pages, fs, cwd);
    var rows := Fresh(Moves(moved), existing, cwd);
    AddedRow(m, moved, pages, fs, cwd);
    var i :| 0 <= i < |rows| && rows[i] == NewRow(m, cwd);
    var k := InsertedRow(existing, rows, i);
  }

  /** Otherwise some row of the result is not fixed, and points at a URL its page has left. */
  lemma SomeRowUnsettled(lines: seq<Line>, moved: seq<Mapped>, pages: seq<Mapped>, fs: set<string>, cwd: seq<string>)
    returns (l: Line)
    requires WellMappedAll(pages) && WellMappedAll(moved) && SiteRows(lines)
    requires !AimsSettled(lines, moved, pages, fs, cwd)
    ensures Unsettled(l, Redirected(lines, moved, Some(pages), fs, cwd), pages, fs, cwd)
  {
    if i :| 0 <= i < |lines| && !AimSettled(lines[i], pages, fs) {
      RewrittenUnsettled(lines, moved, pages, fs, cwd, i);
      l := RepointLine(lines[i], pages, fs, cwd);
    } else {
      var m :| m in Moves(moved) && Adds(lines, moved, pages, fs, cwd, m) && !Settled(pages, fs, m.1);
      AddedUnsettled(lines, moved, pages, fs, cwd, m);
      l := NewRow(m, cwd);
    }
  }

  /** After a run no row names a URL its page has left, exactly when every URL the run aims a row at is settled and
      no row written from the site's root names such a URL before. */
  lemma NoRowPointsBack(lines: seq<Line>, moved: seq<Mapped>, pages: seq<Mapped>, fs: set<string>, cwd: seq<string>)
    requires WellMappedAll(pages) && WellMappedAll(moved) && SiteRows(lines)
    ensures (forall l <- Redirected(lines, moved, Some(pages), fs, cwd) :: LeadsSettled(l, pages, fs)) <==>
            AimsSettled(lines, moved, pages, fs, cwd) && AllRootedSettled(lines, pages, fs)
  {
    if !AimsSettled(lines, moved, pages, fs, cwd) {
      var l := SomeRowUnsettled(lines, moved, pages, fs, cwd);
    } else if AllRootedSettled(lines, pages, fs) {
      forall l <- Redirected(lines, moved, Some(pages), fs, cwd) ensures LeadsSettled(l, pages, fs) {
        AimsSettledLine(lines, moved, pages, fs, cwd, l);
      }
    } else {
      var i :| 0 <= i < |lines| && !RootedSettled(lines[i], pages, fs);
      RepointedLine(lines[i], pages, fs, cwd);
      var existing := Repointed(lines, pages, fs, cwd);
      var k := KeptLine(existing, Fresh(Moves(moved), existing, cwd), i);
    }
  }

  /** A second run that rewrites a row changes the file, whether or not it adds rows as well. */
  lemma RewriteShows(once: seq<Line>, moved: seq<Mapped>, pages: seq<Mapped>, fs: set<string>, cwd: seq<string>, l: Line)
    requires l in once && !Fixed(l, pages, fs, cwd)
    ensures Redirected(once, moved, Some(pages), fs, cwd) != once
  {
    var k :| 0 <= k < |once| && once[k] == l;
    var existing := Repointed(once, pages, fs, cwd);
    var rows := Fresh(Moves(moved), existing, cwd);
    assert existing[k] != once[k];
    if rows != [] {
      InsertionShows(existing, rows);
      if Header !in existing {
        assert forall i :: 0 <= i < |once| ==> existing[i] == RepointLine(once[i], pages, fs, cwd);
        assert Header !in once;
      }
    }
  }

  lemma InsertionShows(lines: seq<Line>, rows: seq<Line>)
    requires rows != []
    ensures Header in Inserted(lines, rows)
    ensures Header in lines ==> |Inserted(lines, rows)| > |lines|
  {
    var text := WithHeader(lines);
    var h := HeaderAt(text);
    assert Inserted(lines, rows)[h] == Header;
  }

  /** Running the repair again changes nothing exactly when every URL the first run aims a row at, by
      rewriting one or by adding one, is settled. */
  lemma RepairIsIdempotent(lines: seq<Line>, moved: seq<Mapped>, pages: seq<Mapped>, fs: set<string>, cwd: seq<string>)
    requires WellMappedAll(pages) && WellMappedAll(moved) && SiteRows(lines)
    ensures var once := Redirected(lines, moved, Some(pages), fs, cwd);
            Redirected(once, moved, Some(pages), fs, cwd) == once <==> AimsSettled(lines, moved, pages, fs, cwd)
  {
    var once := Redirected(lines, moved, Some(pages), fs, cwd);
    if AimsSettled(lines, moved, pages, fs, cwd) {
      forall i | 0 <= i < |once| ensures RepointLine(once[i], pages, fs, cwd) == once[i] {
        AimsSettledLine(lines, moved, pages, fs, cwd, once[i]);
      }
      assert Repointed(once, pages, fs, cwd) == once;
      NothingLeftToAdd(lines, moved, pages, fs, cwd);
    } else {
      var l := SomeRowUnsettled(lines, moved, pages, fs, cwd);
      RewriteShows(once, moved, pages, fs, cwd, l);
    }
  }

  lemma NothingLeftToAdd(lines: seq<Line>, moved: seq<Mapped>, pages: seq<Mapped>, fs: set<string>, cwd: seq<string>)
    ensures Fresh(Moves(moved), Redirected(lines, moved, Some(pages), fs, cwd), cwd) == []
  {
    var once := Redirected(lines, moved, Some(pages), fs, cwd);
    forall m <- Moves(moved) ensures m.0 == m.1 || Mentioned(once, m.0) {
      if m.0 != m.1 {
        FormerUrlsRedirect(lines, moved, pages, fs, cwd, m);
      }
    }
    FreshEmpty(Moves(moved), once, cwd);
  }

  /** Without a map nothing is re-aimed, and a second run never changes anything. */
  lemma AddingAloneIsIdempotent(lines: seq<Line>, moved: seq<Mapped>, fs: set<string>, cwd: seq<string>)
    ensures var once := Redirected(lines, moved, None, fs, cwd); Redirected(once, moved, None, fs, cwd) == once
  {
    var rows := Fresh(Moves(moved), lines, cwd);
    var once := Inserted(lines, rows);
    forall m <- Moves(moved) ensures m.0 == m.1 || Mentioned(once, m.0) {
      FreshCovers(Moves(moved), lines, cwd, m);
      InsertedQuotes(lines, rows, m.0);
    }
    FreshEmpty(Moves(moved), once, cwd);
  }

  /** Every page's current URL is one it can be found at: its target exists, or the map sends
      that URL nowhere else. */
  predicate Landed(pages: seq<Mapped>, fs: set<string>, ps: seq<Mapped>) {
    forall i :: 0 <= i < |ps| ==> RelOf(ps[i].target) in fs || Settled(pages, fs, UrlFor(ps[i]))
  }

  lemma LandedIsSettled(pages: seq<Mapped>, fs: set<string>, ps: seq<Mapped>, p: Mapped)
    requires WellMappedAll(ps) && Landed(pages, fs, ps) && p in ps
    ensures Settled(pages, fs, UrlFor(p))
  {
    var i :| 0 <= i < |ps| && ps[i] == p;
    assert WellMapped(ps[i]);
    if RelOf(p.target) in fs {
      ExistingTargetIsSettled(pages, fs, p);
    }
  }

  /** In particular the repair is idempotent once every page of the map and every moved page has landed. */
  lemma LandedRepairIsIdempotent(lines: seq<Line>, moved: seq<Mapped>, pages: seq<Mapped>, fs: set<string>, cwd: seq<string>)
    requires WellMappedAll(pages) && WellMappedAll(moved) && SiteRows(lines)
    requires Landed(pages, fs, pages) && Landed(pages, fs, moved)
    ensures AimsSettled(lines, moved, pages, fs, cwd)
    ensures var once := Redirected(lines, moved, Some(pages), fs, cwd);
            Redirected(once, moved, Some(pages), fs, cwd) == once
  {
    forall i | 0 <= i < |lines| ensures AimSettled(lines[i], pages, fs) {
      if lines[i].Row? && StaleRedirect(pages, fs, lines[i].src, lines[i].dst).Some? {
        var url := Resolved(lines[i].src, lines[i].dst);
        MovedToIsPage(pages, fs, url);
        var p :| p in pages && UrlFor(p) == MovedTo(pages, fs, url).value;
        LandedIsSettled(pages, fs, pages, p);
      }
    }
    forall m <- Moves(moved) ensures Settled(pages, fs, m.1) {
      MovesAre(moved, m);
      var p :| p in moved && exists f <- p.formers :: m == (Url(f), UrlFor(p));
      LandedIsSettled(pages, fs, moved, p);
    }
    RepairIsIdempotent(lines, moved, pages, fs, cwd);
  }

  // ------------------------------------------------------------- a run that is not idempotent

  /** `c.md` was `b.md` and is on disk; `b.md` was `a.md` and is not. */
  const C_PAGE := Mapped(Page(User, [], "c"), [Page(User, [], "b")], None, false)
  const B_PAGE := Mapped(Page(User, [], "b"), [Page(User, [], "a")], None, false)

  const C_ON_DISK := {"book/src/c.md"}

  lemma UserCandidates(p: Page)
    requires IsPage(p) && p.book.User? && !("internals/" <= Url(p))
    ensures Candidates(Url(p), DEPLOY) == [RelOf(p)]
  {
    UrlCandidates(p);
    assert DEPLOY[..1] == [("internals/", "book-internals/src")];
    assert DEPLOY[..1][..0] == [];
    assert Candidates(Url(p), DEPLOY[..1]) == [];
    assert |Candidates(Url(p), DEPLOY)| == 1;
  }

  lemma SampleUrls()
    ensures Url(B_PAGE.target) == "b.html" && RelOf(B_PAGE.target) == "book/src/b.md"
    ensures Url(C_PAGE.target) == "c.html" && RelOf(C_PAGE.target) == "book/src/c.md"
    ensures Url(B_PAGE.formers[0]) == "a.html"
    ensures WellMapped(B_PAGE) && WellMapped(C_PAGE)
  {
    assert [] + [] + ["b.html"] == ["b.html"];
    assert [] + ["b.md"] == ["b.md"] && [] + ["c.md"] == ["c.md"];
  }

  const SAMPLE_PAGES := [C_PAGE, B_PAGE]

  lemma SampleMoves()
    ensures Moves(SAMPLE_PAGES) == [("b.html", "c.html"), ("a.html", "b.html")]
  {
    SampleUrls();
    assert SAMPLE_PAGES[..1] == [C_PAGE] && [C_PAGE][..0] == [];
    assert Moves([C_PAGE]) == [] + MovesOf(C_PAGE);
    assert MovesOf(C_PAGE) == [("b.html", "c.html")] && MovesOf(B_PAGE) == [("a.html", "b.html")];
  }

  lemma TwoMoves(m: Move, n: Move, cwd: seq<string>)
    requires m.0 != m.1 && n.0 != n.1 && m.0 != n.0
    ensures Fresh([m, n], [], cwd) == [NewRow(m, cwd), NewRow(n, cwd)]
  {
    FreshStep([], m, [], cwd);
    FreshStep([m], n, [], cwd);
    assert [] + [m] == [m] && [m] + [n] == [m, n];
    assert Fresh([m], [], cwd) == [NewRow(m, cwd)];
  }

  lemma SampleRow()
    ensures NewRow(("a.html", "b.html"), []) in Fresh(Moves(SAMPLE_PAGES), [], [])
  {
    SampleMoves();
    assert "a.html"[0] != "b.html"[0] && "b.html"[0] != "c.html"[0];
    TwoMoves(("b.html", "c.html"), ("a.html", "b.html"), []);
  }

  lemma SampleSource()
    ensures SourceOfUrl("b.html", C_ON_DISK) == Some("book/src/b.md") && "book/src/b.md" !in C_ON_DISK
  {
    SampleUrls();
    assert "internals/"[0] != "b.html"[0];
    UserCandidates(B_PAGE.target);
    assert "b.html"[|"b.html"| - 5..] == ".html";
    assert ".."[0] != "b.html"[0];
    assert "book/src/b.md"[9] != "book/src/c.md"[9];
  }

  lemma SampleFormer()
    ensures ByFormer(SAMPLE_PAGES, "book/src/b.md") == Some(C_PAGE)
  {
    SampleUrls();
    assert C_PAGE.formers[0] in C_PAGE.formers && RelOf(C_PAGE.formers[0]) == "book/src/b.md";
  }

  lemma SampleUnsettled()
    ensures !Settled(SAMPLE_PAGES, C_ON_DISK, "b.html")
  {
    SampleUrls();
    SampleSource();
    SampleFormer();
    assert "c.html"[0] != "b.html"[0];
    assert MovedTo(SAMPLE_PAGES, C_ON_DISK, "b.html") == Some("c.html");
  }

  /** With both pages moved, an empty file gets a row for `a.html` that the next run sends on from `b.html` to `c.html`. */
  lemma SecondRunDiffers()
    ensures var once := Redirected([], SAMPLE_PAGES, Some(SAMPLE_PAGES), C_ON_DISK, []);
            Redirected(once, SAMPLE_PAGES, Some(SAMPLE_PAGES), C_ON_DISK, []) != once
  {
    var m := ("a.html", "b.html");
    SampleUrls();
    SampleMoves();
    SampleRow();
    SampleUnsettled();
    assert Repointed([], SAMPLE_PAGES, C_ON_DISK, []) == [];
    assert Adds([], SAMPLE_PAGES, SAMPLE_PAGES, C_ON_DISK, [], m);
    RepairIsIdempotent([], SAMPLE_PAGES, SAMPLE_PAGES, C_ON_DISK, []);
  }

  // ------------------------------------------------------------- a row the run should have re-aimed

  /** A row written from the site's root, towards the URL `c.md` had when it was `b.md`. */
  const ROOTED_ROW := Row("a.html", "/b.html", "")

  lemma RootedSplits()
    ensures SplitOn("/b.html", "/") == ["", "b.html"]
  {
    SplitWhole("", '/');
    SplitWhole("b.html", '/');
    SplitAppend("", "b.html", '/');
    assert "" + ['/'] + "b.html" == "/b.html";
  }

  lemma RootedPush()
    ensures PushAll([], ["", "b.html"], true) == ["b.html"]
  {
    assert ["", "b.html"][1..] == ["b.html"] && ["b.html"][1..] == [];
    assert Push([], "", true) == [] && Push([], "b.html", true) == [] + ["b.html"];
  }

  lemma RootedNormal()
    ensures Normpath("/b.html") == "/b.html"
  {
    RootedSplits();
    RootedPush();
    assert "/b.html"[0] == '/' && "/b.html"[1] == 'b';
    assert "/" + "b.html" == "/b.html";
  }

  lemma RootedNames()
    ensures NamedUrl("a.html", "/b.html") == "b.html"
  {
    RootedNormal();
    assert "/b.html"[0] == '/' && "/b.html"[1..] == "b.html" && "b.html"[0] == 'b';
  }

  lemma RootedFormer()
    ensures ByFormer([C_PAGE], "book/src/b.md") == Some(C_PAGE)
  {
    SampleUrls();
    assert C_PAGE.formers[0] in C_PAGE.formers && RelOf(C_PAGE.formers[0]) == "book/src/b.md";
  }

  lemma RootedMovedTo()
    ensures MovedTo([C_PAGE], C_ON_DISK, "b.html") == Some("c.html")
  {
    SampleUrls();
    SampleSource();
    RootedFormer();
  }

  lemma RootedUnsettled()
    ensures !LeadsSettled(ROOTED_ROW, [C_PAGE], C_ON_DISK)
  {
    RootedNames();
    RootedMovedTo();
    assert "c.html"[0] != "b.html"[0];
  }

  lemma RootedMoves()
    ensures Moves([C_PAGE]) == [("b.html", "c.html")]
  {
    SampleUrls();
    assert [C_PAGE][..0] == [];
    assert Moves([C_PAGE]) == [] + MovesOf(C_PAGE);
  }

  lemma RootedRowQuoted()
    ensures Mentioned([ROOTED_ROW], "b.html") && Repointed([ROOTED_ROW], [C_PAGE], C_ON_DISK, []) == [ROOTED_ROW]
  {
    assert "/" + "b.html" == "/b.html";
    assert Quotes([ROOTED_ROW][0], "b.html");
    assert "/" <= ROOTED_ROW.dst by { assert ROOTED_ROW.dst[0] == '/'; }
    ReaimedIff(ROOTED_ROW, [C_PAGE], C_ON_DISK);
  }

  /** It names a URL whose page has left it, and the run neither re-aims it nor, since it quotes that URL, writes a
      row for it: the file stays as it is. */
  lemma RootedRowIsLeft()
    ensures !LeadsSettled(ROOTED_ROW, [C_PAGE], C_ON_DISK)
    ensures Redirected([ROOTED_ROW], [C_PAGE], Some([C_PAGE]), C_ON_DISK, []) == [ROOTED_ROW]
    ensures ("b.html", "c.html") in Moves([C_PAGE])
  {
    RootedUnsettled();
    RootedMoves();
    RootedRowQuoted();
    FreshEmpty(Moves([C_PAGE]), [ROOTED_ROW], []);
  }
}
