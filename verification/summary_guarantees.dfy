/** What the generated table of contents keeps, part by part and over the whole document: every eligible page is
    listed once, under its own status or group heading or else its part's; within a part the pages come by rank, in
    map order among equals, and no group or status heading appears twice. Most of it rests on the sort being stable
    and on the two loop variables that remember the last heading of each kind. */
module SummaryGuarantees {
  import opened Text
  import opened BookSummary

  // ------------------------------------------------------------- the sort

  predicate Ascending(b: Book, part: Part, rows: seq<Row>) {
    forall i, j :: 0 <= i < j < |rows| ==> AtMost(RankOf(b, part, rows[i]), RankOf(b, part, rows[j]))
  }

  function OfRank(b: Book, part: Part, rows: seq<Row>, k: Rank): seq<Row> {
    if rows == [] then [] else
      OfRank(b, part, rows[..|rows| - 1], k) +
      if RankOf(b, part, rows[|rows| - 1]) == k then [rows[|rows| - 1]] else []
  }

  lemma {:induction false} InsertKeepsAll(b: Book, part: Part, rows: seq<Row>, r: Row)
    ensures multiset(InsertRow(b, part, rows, r)) == multiset(rows) + multiset{r}
  {
    if !(rows == [] || AtMost(RankOf(b, part, rows[|rows| - 1]), RankOf(b, part, r))) {
      InsertKeepsAll(b, part, rows[..|rows| - 1], r);
      assert rows == rows[..|rows| - 1] + [rows[|rows| - 1]];
    }
  }

  predicate Bounded(b: Book, part: Part, rows: seq<Row>, top: Rank) {
    forall i :: 0 <= i < |rows| ==> AtMost(RankOf(b, part, rows[i]), top)
  }

  /** Where the insertion stops, everything in front ranks at most as high. */
  lemma {:induction false} InsertBounded(b: Book, part: Part, rows: seq<Row>, r: Row, top: Rank)
    requires AtMost(RankOf(b, part, r), top) && Bounded(b, part, rows, top)
    ensures Bounded(b, part, InsertRow(b, part, rows, r), top)
  {
    if !(rows == [] || AtMost(RankOf(b, part, rows[|rows| - 1]), RankOf(b, part, r))) {
      var init, last := rows[..|rows| - 1], rows[|rows| - 1];
      InsertBounded(b, part, init, r, top);
      assert InsertRow(b, part, rows, r) == InsertRow(b, part, init, r) + [last];
    }
  }

  lemma AscendingSnoc(b: Book, part: Part, rows: seq<Row>, r: Row)
    requires Ascending(b, part, rows) && Bounded(b, part, rows, RankOf(b, part, r))
    ensures Ascending(b, part, rows + [r])
  {
  }

  lemma {:induction false} InsertKeepsOrder(b: Book, part: Part, rows: seq<Row>, r: Row)
    requires Ascending(b, part, rows)
    ensures Ascending(b, part, InsertRow(b, part, rows, r))
  {
    if rows == [] || AtMost(RankOf(b, part, rows[|rows| - 1]), RankOf(b, part, r)) {
      forall i | 0 <= i < |rows| ensures AtMost(RankOf(b, part, rows[i]), RankOf(b, part, r)) {
        assert i < |rows| - 1 ==> AtMost(RankOf(b, part, rows[i]), RankOf(b, part, rows[|rows| - 1]));
      }
      AscendingSnoc(b, part, rows, r);
    } else {
      var init, last := rows[..|rows| - 1], rows[|rows| - 1];
      InsertKeepsOrder(b, part, init, r);
      InsertBounded(b, part, init, r, RankOf(b, part, last));
      AscendingSnoc(b, part, InsertRow(b, part, init, r), last);
    }
  }

  lemma {:induction false} InsertIsStable(b: Book, part: Part, rows: seq<Row>, r: Row, k: Rank)
    requires Ascending(b, part, rows)
    ensures OfRank(b, part, InsertRow(b, part, rows, r), k)
            == OfRank(b, part, rows, k) + if RankOf(b, part, r) == k then [r] else []
  {
    if rows == [] || AtMost(RankOf(b, part, rows[|rows| - 1]), RankOf(b, part, r)) {
      assert (rows + [r])[..|rows|] == rows;
    } else {
      var init, last := rows[..|rows| - 1], rows[|rows| - 1];
      InsertIsStable(b, part, init, r, k);
      var out := InsertRow(b, part, init, r);
      assert (out + [last])[..|out|] == out;
      assert RankOf(b, part, r) != RankOf(b, part, last);
    }
  }

  /** The sort orders the rows, loses none, and keeps map order among equal ranks. */
  lemma {:induction false} SortIsStable(b: Book, part: Part, rows: seq<Row>, k: Rank)
    ensures Ascending(b, part, Sorted(b, part, rows))
    ensures multiset(Sorted(b, part, rows)) == multiset(rows)
    ensures OfRank(b, part, Sorted(b, part, rows), k) == OfRank(b, part, rows, k)
  {
    if rows != [] {
      var init, last := rows[..|rows| - 1], rows[|rows| - 1];
      SortIsStable(b, part, init, k);
      InsertKeepsOrder(b, part, Sorted(b, part, init), last);
      InsertKeepsAll(b, part, Sorted(b, part, init), last);
      InsertIsStable(b, part, Sorted(b, part, init), last, k);
      assert rows == init + [last];
    }
  }

  // ------------------------------------------------------------- each page once

  function PageFiles(lines: seq<Line>): seq<string> {
    if lines == [] then [] else
      PageFiles(lines[..|lines| - 1]) +
      if lines[|lines| - 1].PageLine? then [lines[|lines| - 1].file] else []
  }

  lemma {:induction false} PageFilesAppend(x: seq<Line>, y: seq<Line>)
    ensures PageFiles(x + y) == PageFiles(x) + PageFiles(y)
  {
    if y == [] {
      assert x + y == x;
    } else {
      assert (x + y)[..|x + y| - 1] == x + y[..|y| - 1];
      PageFilesAppend(x, y[..|y| - 1]);
    }
  }

  lemma {:induction false} NoPageFiles(lines: seq<Line>)
    requires forall i :: 0 <= i < |lines| ==> !lines[i].PageLine?
    ensures PageFiles(lines) == []
  {
    if lines != [] {
      NoPageFiles(lines[..|lines| - 1]);
    }
  }

  predicate AllMerged(lines: seq<Line>, depth: nat) {
    forall i :: 0 <= i < |lines| ==> lines[i].MergedLine? && lines[i].depth == depth
  }

  lemma {:induction false} MergedOnly(pages: seq<Page>, p: Page, depth: nat)
    ensures AllMerged(MergedLines(pages, p, depth), depth)
  {
    if pages != [] {
      MergedOnly(pages[..|pages| - 1], p, depth);
      var q := pages[|pages| - 1];
      var tail := if q.book == p.book && q.merges && q.into == Some(p.path) && q.cur.Some?
                  then [MergedLine(q.cur.value.file, depth)] else [];
      assert MergedLines(pages, p, depth) == MergedLines(pages[..|pages| - 1], p, depth) + tail;
    }
  }

  /** The files of the rows the loop does not skip. */
  function Visible(b: Book, rows: seq<Row>): seq<string> {
    if rows == [] then [] else
      Visible(b, rows[..|rows| - 1]) +
      if rows[|rows| - 1].cur.file in b.inRegion then [] else [rows[|rows| - 1].cur.file]
  }

  /** The loop lists the sorted rows, in order. */
  lemma {:induction false} EmitsEachRow(b: Book, part: Part, pages: seq<Page>, rows: seq<Row>)
    ensures PageFiles(Emit(b, part, pages, rows).body) == Visible(b, rows)
  {
    if rows != [] {
      var r := rows[|rows| - 1];
      var e := Emit(b, part, pages, rows[..|rows| - 1]);
      EmitsEachRow(b, part, pages, rows[..|rows| - 1]);
      if r.cur.file !in b.inRegion {
        var heads, line, merged := EmitParts(b, part, pages, e, r);
        NoPageFiles(heads);
        NoPageFiles(merged);
        PageFilesAppend(e.body, heads);
        PageFilesAppend(e.body + heads, [line]);
        PageFilesAppend(e.body + heads + [line], merged);
        assert PageFiles([line]) == [r.cur.file] by { assert [line][..0] == []; }
      }
    }
  }

  lemma EmitParts(b: Book, part: Part, pages: seq<Page>, e: Emission, r: Row)
    returns (heads: seq<Line>, line: Line, merged: seq<Line>)
    requires r.cur.file !in b.inRegion
    ensures EmitRow(b, part, pages, e, r).body == e.body + heads + [line] + merged
    ensures line == PageLine(r.cur.file, NestingOf(b, part, r))
    ensures AllMerged(merged, NestingOf(b, part, r) + 1)
    ensures heads == HeadsOf(GroupOf(r), StatusOf(b, part, r), e.lastGroup, e.lastStatus)
  {
    heads := HeadsOf(GroupOf(r), StatusOf(b, part, r), e.lastGroup, e.lastStatus);
    line := PageLine(r.cur.file, NestingOf(b, part, r));
    merged := MergedLines(pages, r.page, NestingOf(b, part, r) + 1);
    MergedOnly(pages, r.page, NestingOf(b, part, r) + 1);
  }

  predicate HasPage(b: Book, part: Part, pages: seq<Page>, file: string) {
    exists i :: 0 <= i < |pages| && Eligible(b, part, pages[i]) && pages[i].cur.value.file == file
  }

  function Occurrences(rows: seq<Row>, file: string): nat {
    if rows == [] then 0 else
      Occurrences(rows[..|rows| - 1], file) + if rows[|rows| - 1].cur.file == file then 1 else 0
  }

  lemma {:induction false} CollectOnce(b: Book, part: Part, pages: seq<Page>, placed: set<string>, file: string)
    ensures var rows := Collect(b, part, pages, placed);
            Occurrences(rows, file) == if HasPage(b, part, pages, file) && file !in placed then 1 else 0
  {
    if pages != [] {
      var init, p := pages[..|pages| - 1], pages[|pages| - 1];
      CollectOnce(b, part, init, placed, file);
      var before := Collect(b, part, init, placed);
      OccursIff(before, file);
      assert HasPage(b, part, pages, file) <==>
             HasPage(b, part, init, file) || (Eligible(b, part, p) && p.cur.value.file == file) by {
        if HasPage(b, part, init, file) {
          var i :| 0 <= i < |init| && Eligible(b, part, init[i]) && init[i].cur.value.file == file;
          assert pages[i] == init[i];
        }
      }
      if Eligible(b, part, p) && p.cur.value.file !in placed && p.cur.value.file !in Files(before) {
        assert (before + [Row(p, p.cur.value)])[..|before|] == before;
      }
    }
  }

  lemma {:induction false} OccursIff(rows: seq<Row>, file: string)
    ensures Occurrences(rows, file) > 0 <==> file in Files(rows)
  {
    if rows != [] {
      var init := rows[..|rows| - 1];
      OccursIff(init, file);
      assert rows == init + [rows[|rows| - 1]];
      assert rows[|rows| - 1] in rows;
    }
  }

  lemma {:induction false} VisibleCount(b: Book, rows: seq<Row>, file: string)
    ensures multiset(Visible(b, rows))[file] == if file in b.inRegion then 0 else Occurrences(rows, file)
  {
    if rows != [] {
      VisibleCount(b, rows[..|rows| - 1], file);
    }
  }

  lemma {:induction false} InsertOccurrences(b: Book, part: Part, rows: seq<Row>, r: Row, file: string)
    ensures Occurrences(InsertRow(b, part, rows, r), file)
            == Occurrences(rows, file) + if r.cur.file == file then 1 else 0
  {
    if rows == [] || AtMost(RankOf(b, part, rows[|rows| - 1]), RankOf(b, part, r)) {
      assert (rows + [r])[..|rows|] == rows;
    } else {
      var out := InsertRow(b, part, rows[..|rows| - 1], r);
      InsertOccurrences(b, part, rows[..|rows| - 1], r, file);
      assert (out + [rows[|rows| - 1]])[..|out|] == out;
    }
  }

  lemma {:induction false} SortOccurrences(b: Book, part: Part, rows: seq<Row>, file: string)
    ensures Occurrences(Sorted(b, part, rows), file) == Occurrences(rows, file)
  {
    if rows != [] {
      SortOccurrences(b, part, rows[..|rows| - 1], file);
      InsertOccurrences(b, part, Sorted(b, part, rows[..|rows| - 1]), rows[|rows| - 1], file);
    }
  }

  lemma PartListsOnce(b: Book, part: Part, pages: seq<Page>, placed: set<string>, file: string)
    ensures multiset(PageFiles(PartBody(b, part, pages, Collect(b, part, pages, placed))))[file]
            == if HasPage(b, part, pages, file) && file !in placed && file !in b.inRegion then 1 else 0
  {
    var rows := Collect(b, part, pages, placed);
    var sorted := Sorted(b, part, rows);
    EmitsEachRow(b, part, pages, sorted);
    VisibleCount(b, sorted, file);
    SortOccurrences(b, part, rows, file);
    CollectOnce(b, part, pages, placed, file);
    var tail := if part.dir == "reference" then RegionLines(b.region) else [];
    NoPageFiles(tail);
    PageFilesAppend(Emit(b, part, pages, sorted).body, tail);
  }

  predicate SomePart(b: Book, parts: seq<Part>, pages: seq<Page>, file: string) {
    exists i :: 0 <= i < |parts| && HasPage(b, parts[i], pages, file)
  }

  /** Over the whole table of contents each file is listed exactly once if some eligible page
      is in it and no generated region lists it, and never otherwise. */
  lemma {:induction false} EachPageListedOnce(b: Book, pages: seq<Page>, parts: seq<Part>, file: string)
    ensures multiset(PageFiles(Render(b, pages, parts).lines))[file]
            == if SomePart(b, parts, pages, file) && file !in b.inRegion then 1 else 0
    ensures file in Render(b, pages, parts).placed <==> SomePart(b, parts, pages, file)
  {
    if parts != [] {
      var init, part := parts[..|parts| - 1], parts[|parts| - 1];
      var before := Render(b, pages, init);
      EachPageListedOnce(b, pages, init, file);
      SomePartStep(b, parts, pages, file);
      PartLines(b, pages, before, part, file);
      assert Render(b, pages, parts) == RenderPart(b, pages, before, part);
    }
  }

  lemma SomePartStep(b: Book, parts: seq<Part>, pages: seq<Page>, file: string)
    requires parts != []
    ensures SomePart(b, parts, pages, file) <==>
            SomePart(b, parts[..|parts| - 1], pages, file) || HasPage(b, parts[|parts| - 1], pages, file)
  {
    var init := parts[..|parts| - 1];
    if SomePart(b, init, pages, file) {
      var i :| 0 <= i < |init| && HasPage(b, init[i], pages, file);
      assert parts[i] == init[i];
    }
    if SomePart(b, parts, pages, file) {
      var i :| 0 <= i < |parts| && HasPage(b, parts[i], pages, file);
      assert i < |init| ==> init[i] == parts[i];
    }
  }

  lemma PartLines(b: Book, pages: seq<Page>, before: Document, part: Part, file: string)
    ensures multiset(PageFiles(RenderPart(b, pages, before, part).lines))[file]
            == multiset(PageFiles(before.lines))[file] +
               (if HasPage(b, part, pages, file) && file !in before.placed && file !in b.inRegion then 1 else 0)
    ensures file in RenderPart(b, pages, before, part).placed <==>
            file in before.placed || HasPage(b, part, pages, file)
  {
    var rows := Collect(b, part, pages, before.placed);
    var body := PartBody(b, part, pages, rows);
    var added := if body == [] then [] else [PartHead(part.heading)] + body;
    PartListsOnce(b, part, pages, before.placed, file);
    PageFilesAppend(before.lines, added);
    if body != [] {
      PageFilesAppend([PartHead(part.heading)], body);
      assert PageFiles([PartHead(part.heading)]) == [] by { assert [PartHead(part.heading)][..0] == []; }
      assert [] + PageFiles(body) == PageFiles(body);
    }
    CollectOnce(b, part, pages, before.placed, file);
    OccursIff(rows, file);
  }

  // ------------------------------------------------------------- nesting

  /** The last line above that is nested less deep: the entry a line at `depth` hangs under. */
  function Enclosing(lines: seq<Line>, depth: int): Option<Line> {
    if lines == [] then None
    else if Depth(lines[|lines| - 1]) < depth then Some(lines[|lines| - 1])
    else Enclosing(lines[..|lines| - 1], depth)
  }

  lemma {:induction false} EnclosingSkips(lines: seq<Line>, more: seq<Line>, depth: int)
    requires forall i :: 0 <= i < |more| ==> Depth(more[i]) >= depth
    ensures Enclosing(lines + more, depth) == Enclosing(lines, depth)
  {
    if more == [] {
      assert lines + more == lines;
    } else {
      assert (lines + more)[..|lines + more| - 1] == lines + more[..|more| - 1];
      EnclosingSkips(lines, more[..|more| - 1], depth);
    }
  }

  lemma EnclosingTakes(lines: seq<Line>, l: Line, depth: int)
    requires Depth(l) < depth
    ensures Enclosing(lines + [l], depth) == Some(l)
  {
    assert (lines + [l])[..|lines|] == lines;
  }

  /** The heading a row's page belongs under. */
  function HeadFor(b: Book, part: Part, r: Row): Option<Line> {
    if StatusOf(b, part, r).Some? then Some(StatusHead(StatusOf(b, part, r).value))
    else if GroupOf(r).Some? then Some(GroupHead(GroupOf(r).value))
    else None
  }

  /** What the loop variables say about the lines so far. */
  predicate HeadsInForce(e: Emission) {
    (e.lastGroup.Some? ==> Enclosing(e.body, 1) == Some(GroupHead(e.lastGroup.value))) &&
    (e.lastStatus.Some? ==> Enclosing(e.body, 2) == Some(StatusHead(e.lastStatus.value)))
  }

  predicate Nested(b: Book, part: Part, rows: seq<Row>, body: seq<Line>, k: nat)
    requires k < |body|
  {
    match body[k]
    case PageLine(f, d) =>
      (exists r <- rows :: f == r.cur.file && d == NestingOf(b, part, r) &&
                           Enclosing(body[..k], d) == HeadFor(b, part, r))
    case StatusHead(_) => part.statusGroup.Some? && Enclosing(body[..k], 1) == Some(GroupHead(part.statusGroup.value))
    case _ => true
  }

  lemma {:induction false} NothingAboveZero(lines: seq<Line>)
    requires forall i :: 0 <= i < |lines| ==> Depth(lines[i]) >= 0
    ensures Enclosing(lines, 0) == None
  {
    if lines != [] {
      NothingAboveZero(lines[..|lines| - 1]);
    }
  }

  /** Every page line hangs under its own page's heading, every status heading under the
      status-grouped group, in whatever order the rows come. */
  lemma {:induction false} EachPageUnderItsHeading(b: Book, part: Part, pages: seq<Page>, rows: seq<Row>)
    ensures var e := Emit(b, part, pages, rows);
            HeadsInForce(e) &&
            (forall k :: 0 <= k < |e.body| ==> Depth(e.body[k]) >= 0) &&
            (forall k: nat :: k < |e.body| ==> Nested(b, part, rows, e.body, k))
  {
    if rows != [] {
      var init, r := rows[..|rows| - 1], rows[|rows| - 1];
      var e := Emit(b, part, pages, init);
      EachPageUnderItsHeading(b, part, pages, init);
      assert rows == init + [r];
      assert forall x <- init :: x in rows;
      if r.cur.file in b.inRegion {
        forall k: nat | k < |e.body| ensures Nested(b, part, rows, e.body, k) {
          assert Nested(b, part, init, e.body, k);
        }
      } else {
        var heads, line, merged := EmitParts(b, part, pages, e, r);
        HeadsCover(b, part, e, r, heads);
        AfterRow(b, part, r, e.body + heads, line, merged);
        NestedStep(b, part, init, r, e.body, heads, line, merged);
      }
    }
  }

  lemma NestedStep(b: Book, part: Part, init: seq<Row>, r: Row, body: seq<Line>, heads: seq<Line>,
                   line: Line, merged: seq<Line>)
    requires forall k: nat :: k < |body| ==> Nested(b, part, init, body, k)
    requires forall k :: 0 <= k < |body| ==> Depth(body[k]) >= 0
    requires line == PageLine(r.cur.file, NestingOf(b, part, r)) && AllMerged(merged, NestingOf(b, part, r) + 1)
    requires Headed(b, part, r, body, heads)
    ensures var out := body + heads + [line] + merged;
            (forall k :: 0 <= k < |out| ==> Depth(out[k]) >= 0) &&
            forall k: nat :: k < |out| ==> Nested(b, part, init + [r], out, k)
  {
    var upTo := body + heads;
    var out := upTo + [line] + merged;
    NothingAboveZero(upTo);
    forall k: nat | k < |out| ensures Nested(b, part, init + [r], out, k) {
      if k < |body| {
        assert Nested(b, part, init, body, k);
        assert out[..k] == body[..k] && out[k] == body[k];
        assert forall x <- init :: x in init + [r];
      } else if k < |upTo| {
        assert out[k] == heads[k - |body|];
        assert out[..k] == body + heads[..k - |body|];
      } else if k == |upTo| {
        assert out[..k] == upTo && out[k] == line;
        assert (init + [r])[|init|] == r;
      } else {
        assert out[k] == merged[k - |upTo| - 1];
      }
    }
  }

  /** The headings written for a row put its own entries in force. */
  predicate Headed(b: Book, part: Part, r: Row, body: seq<Line>, heads: seq<Line>) {
    && InForce(GroupOf(r), StatusOf(b, part, r), body + heads)
    && (StatusOf(b, part, r).Some? ==> GroupOf(r) == part.statusGroup && part.statusGroup.Some?)
    && (forall j :: 0 <= j < |heads| && heads[j].StatusHead? ==>
          part.statusGroup.Some? && Enclosing(body + heads[..j], 1) == Some(GroupHead(part.statusGroup.value)))
    && (forall j :: 0 <= j < |heads| ==> heads[j].GroupHead? || heads[j].StatusHead?)
  }

  predicate InForce(g: Option<string>, s: Option<string>, lines: seq<Line>) {
    (g.Some? ==> Enclosing(lines, 1) == Some(GroupHead(g.value))) &&
    (s.Some? ==> Enclosing(lines, 2) == Some(StatusHead(s.value)))
  }

  lemma GroupTakes(body: seq<Line>, g: Option<string>, last: Option<string>, first: seq<Line>)
    requires last.Some? ==> Enclosing(body, 1) == Some(GroupHead(last.value))
    requires first == if g.Some? && g != last then [GroupHead(g.value)] else []
    ensures g.Some? ==> Enclosing(body + first, 1) == Some(GroupHead(g.value))
  {
    if first == [] {
      assert body + first == body;
    } else {
      EnclosingTakes(body, GroupHead(g.value), 1);
    }
  }

  lemma StatusTakes(lines: seq<Line>, g: string, s: string)
    requires Enclosing(lines, 1) == Some(GroupHead(g))
    ensures InForce(Some(g), Some(s), lines + [StatusHead(s)])
  {
    EnclosingTakes(lines, StatusHead(s), 2);
    EnclosingSkips(lines, [StatusHead(s)], 1);
  }

  /** After the headings of a row, the entries in force are the row's own. */
  lemma HeadsCover(b: Book, part: Part, e: Emission, r: Row, heads: seq<Line>)
    requires HeadsInForce(e)
    requires heads == HeadsOf(GroupOf(r), StatusOf(b, part, r), e.lastGroup, e.lastStatus)
    ensures Headed(b, part, r, e.body, heads)
  {
    var g, s := GroupOf(r), StatusOf(b, part, r);
    var opens := g.Some? && g != e.lastGroup;
    var first := if opens then [GroupHead(g.value)] else [];
    GroupTakes(e.body, g, e.lastGroup, first);
    if s.Some? && s != (if opens then None else e.lastStatus) {
      StatusTakes(e.body + first, g.value, s.value);
      Assoc(e.body, first, [StatusHead(s.value)]);
      assert heads[..|first|] == first;
    } else {
      assert heads == first;
      assert e.body + [] == e.body;
    }
  }

  lemma AfterRow(b: Book, part: Part, r: Row, upTo: seq<Line>, line: Line, merged: seq<Line>)
    requires line == PageLine(r.cur.file, NestingOf(b, part, r))
    requires AllMerged(merged, NestingOf(b, part, r) + 1)
    requires InForce(GroupOf(r), StatusOf(b, part, r), upTo)
    ensures InForce(GroupOf(r), StatusOf(b, part, r), upTo + [line] + merged)
  {
    Assoc(upTo, [line], merged);
    if GroupOf(r).Some? {
      EnclosingSkips(upTo, [line] + merged, 1);
    }
    if StatusOf(b, part, r).Some? {
      EnclosingSkips(upTo, [line] + merged, 2);
    }
  }

  // ------------------------------------------------------------- each heading once

  /** The map and registry name only groups and statuses that have a place in the order; the
      script raises otherwise. */
  predicate Known(b: Book, part: Part, rows: seq<Row>) {
    forall i :: 0 <= i < |rows| ==>
      (GroupOf(rows[i]).Some? ==> GroupOf(rows[i]).value in part.groups) &&
      (StatusOf(b, part, rows[i]).Some? ==> StatusOf(b, part, rows[i]).value in b.statusOrder)
  }

  /** The rank of the last row emitted, read off the loop variables. */
  function StateRank(b: Book, part: Part, e: Emission): Rank {
    if e.lastGroup.None? then Rank(-1, 0)
    else Rank(IndexIn(part.groups, e.lastGroup.value),
              if e.lastStatus.Some? then IndexIn(b.statusOrder, e.lastStatus.value) else |b.statusOrder|)
  }

  predicate KnownState(b: Book, part: Part, e: Emission) {
    (e.lastGroup.Some? ==> e.lastGroup.value in part.groups) &&
    (e.lastStatus.Some? ==> e.lastStatus.value in b.statusOrder)
  }

  /** No heading written so far ranks above the current row. */
  ghost predicate GroupHeadsBelow(part: Part, body: seq<Line>, last: Option<string>) {
    forall g :: GroupHead(g) in body ==>
                  g in part.groups && last.Some? &&
                  IndexIn(part.groups, g) <= IndexIn(part.groups, last.value)
  }

  ghost predicate StatusHeadsBelow(b: Book, part: Part, body: seq<Line>, top: Rank) {
    forall s :: StatusHead(s) in body ==>
                  s in b.statusOrder && part.statusGroup.Some? && part.statusGroup.value in part.groups &&
                  AtMost(Rank(IndexIn(part.groups, part.statusGroup.value), IndexIn(b.statusOrder, s)), top)
  }

  ghost predicate NoHeadTwice(body: seq<Line>) {
    forall l: Line :: l.GroupHead? || l.StatusHead? ==> multiset(body)[l] <= 1
  }

  ghost predicate HeadsOnce(b: Book, part: Part, e: Emission) {
    && KnownState(b, part, e)
    && GroupHeadsBelow(part, e.body, e.lastGroup)
    && StatusHeadsBelow(b, part, e.body, StateRank(b, part, e))
    && NoHeadTwice(e.body)
  }

  lemma IndexInjective(names: seq<string>, x: string, y: string)
    requires x in names && y in names && IndexIn(names, x) == IndexIn(names, y)
    ensures x == y
  {
    assert names[IndexIn(names, x)] == x && names[IndexIn(names, y)] == y;
  }

  lemma NewHeadsAreNew(b: Book, part: Part, e: Emission, r: Row)
    requires HeadsOnce(b, part, e) && Known(b, part, [r])
    requires AtMost(StateRank(b, part, e), RankOf(b, part, r))
    ensures forall l <- HeadsOf(GroupOf(r), StatusOf(b, part, r), e.lastGroup, e.lastStatus) :: l !in e.body
  {
    assert [r][0] == r;
    var g, s := GroupOf(r), StatusOf(b, part, r);
    if g.Some? && GroupHead(g.value) in e.body {
      IndexInjective(part.groups, g.value, e.lastGroup.value);
    }
    if s.Some? && StatusHead(s.value) in e.body {
      IndexInjective(part.groups, g.value, e.lastGroup.value);
      if e.lastStatus.Some? {
        IndexInjective(b.statusOrder, s.value, e.lastStatus.value);
      }
    }
  }

  lemma HeadsOfShape(g: Option<string>, s: Option<string>, lastGroup: Option<string>, lastStatus: Option<string>)
    ensures var heads := HeadsOf(g, s, lastGroup, lastStatus);
            && |heads| <= 2
            && (forall i, j :: 0 <= i < j < |heads| ==> heads[i] != heads[j])
            && (forall x :: GroupHead(x) in heads ==> g == Some(x))
            && (forall x :: StatusHead(x) in heads ==> s == Some(x))
  {
  }

  lemma HeadsCount(body: seq<Line>, heads: seq<Line>, line: Line, merged: seq<Line>, l: Line)
    requires l.GroupHead? || l.StatusHead?
    requires line.PageLine? && forall i :: 0 <= i < |merged| ==> merged[i].MergedLine?
    ensures multiset(body + heads + [line] + merged)[l] == multiset(body)[l] + multiset(heads)[l]
    ensures l in body + heads + [line] + merged <==> l in body || l in heads
  {
    assert l !in merged && l != line;
    assert multiset(body + heads + [line] + merged) == multiset(body) + multiset(heads) + multiset([line]) + multiset(merged);
  }

  /** The lines of `out` that are headings: the old ones and the new row's. */
  ghost predicate AddsHeads(body: seq<Line>, heads: seq<Line>, out: seq<Line>) {
    forall l: Line :: l.GroupHead? || l.StatusHead? ==>
                        multiset(out)[l] == multiset(body)[l] + multiset(heads)[l] &&
                        (l in out <==> l in body || l in heads)
  }

  lemma NoHeadTwiceStep(body: seq<Line>, heads: seq<Line>, out: seq<Line>)
    requires NoHeadTwice(body) && AddsHeads(body, heads, out)
    requires forall l <- heads :: l !in body
    requires forall i, j :: 0 <= i < j < |heads| ==> heads[i] != heads[j]
    requires |heads| <= 2
    ensures NoHeadTwice(out)
  {
    forall l: Line | l.GroupHead? || l.StatusHead? ensures multiset(out)[l] <= 1 {
      if |heads| == 1 {
        assert heads == [heads[0]];
      } else if |heads| == 2 {
        assert heads == [heads[0], heads[1]];
      }
      if l in heads {
        assert multiset(body)[l] == 0;
      } else {
        assert multiset(heads)[l] == 0;
      }
    }
  }

  lemma RowAddsHeads(b: Book, part: Part, pages: seq<Page>, e: Emission, r: Row)
    requires r.cur.file !in b.inRegion
    ensures AddsHeads(e.body, HeadsOf(GroupOf(r), StatusOf(b, part, r), e.lastGroup, e.lastStatus),
                      EmitRow(b, part, pages, e, r).body)
  {
    var heads, line, merged := EmitParts(b, part, pages, e, r);
    forall l: Line | l.GroupHead? || l.StatusHead?
      ensures multiset(e.body + heads + [line] + merged)[l] == multiset(e.body)[l] + multiset(heads)[l]
      ensures l in e.body + heads + [line] + merged <==> l in e.body || l in heads
    {
      HeadsCount(e.body, heads, line, merged, l);
    }
  }

  lemma RowRank(b: Book, part: Part, pages: seq<Page>, e: Emission, r: Row)
    requires r.cur.file !in b.inRegion
    ensures StateRank(b, part, EmitRow(b, part, pages, e, r)) == RankOf(b, part, r)
    ensures EmitRow(b, part, pages, e, r).lastGroup == GroupOf(r)
    ensures EmitRow(b, part, pages, e, r).lastStatus == StatusOf(b, part, r)
  {
  }

  lemma EmitKeepsHeadsOnce(b: Book, part: Part, pages: seq<Page>, e: Emission, r: Row)
    requires HeadsOnce(b, part, e) && Known(b, part, [r]) && r.cur.file !in b.inRegion
    requires AtMost(StateRank(b, part, e), RankOf(b, part, r))
    ensures HeadsOnce(b, part, EmitRow(b, part, pages, e, r))
    ensures StateRank(b, part, EmitRow(b, part, pages, e, r)) == RankOf(b, part, r)
  {
    assert [r][0] == r;
    var heads := HeadsOf(GroupOf(r), StatusOf(b, part, r), e.lastGroup, e.lastStatus);
    var out := EmitRow(b, part, pages, e, r).body;
    HeadsOfShape(GroupOf(r), StatusOf(b, part, r), e.lastGroup, e.lastStatus);
    NewHeadsAreNew(b, part, e, r);
    RowAddsHeads(b, part, pages, e, r);
    RowRank(b, part, pages, e, r);
    NoHeadTwiceStep(e.body, heads, out);
    GroupHeadsStep(part, e.body, heads, out, e.lastGroup, GroupOf(r));
    StatusHeadsStep(b, part, e, r, heads, out);
  }

  lemma GroupHeadsStep(part: Part, body: seq<Line>, heads: seq<Line>, out: seq<Line>,
                       last: Option<string>, g: Option<string>)
    requires GroupHeadsBelow(part, body, last) && AddsHeads(body, heads, out)
    requires forall x :: GroupHead(x) in heads ==> g == Some(x)
    requires g.Some? ==> g.value in part.groups
    requires last.Some? ==> g.Some? && IndexIn(part.groups, last.value) <= IndexIn(part.groups, g.value)
    ensures GroupHeadsBelow(part, out, g)
  {
  }

  lemma StatusHeadsStep(b: Book, part: Part, e: Emission, r: Row, heads: seq<Line>, out: seq<Line>)
    requires StatusHeadsBelow(b, part, e.body, StateRank(b, part, e)) && AddsHeads(e.body, heads, out)
    requires forall x :: StatusHead(x) in heads ==> StatusOf(b, part, r) == Some(x)
    requires Known(b, part, [r]) && AtMost(StateRank(b, part, e), RankOf(b, part, r))
    ensures StatusHeadsBelow(b, part, out, RankOf(b, part, r))
  {
    assert [r][0] == r;
  }

  /** In rank order, each group heading and each status heading appears at most once. */
  lemma {:induction false} EachHeadingOnce(b: Book, part: Part, pages: seq<Page>, rows: seq<Row>)
    requires Ascending(b, part, rows) && Known(b, part, rows)
    ensures var e := Emit(b, part, pages, rows);
            HeadsOnce(b, part, e) &&
            (rows != [] ==> AtMost(StateRank(b, part, e), RankOf(b, part, rows[|rows| - 1])))
  {
    if rows != [] {
      var init, r := rows[..|rows| - 1], rows[|rows| - 1];
      EachHeadingOnce(b, part, pages, init);
      var e := Emit(b, part, pages, init);
      if init != [] {
        assert AtMost(RankOf(b, part, init[|init| - 1]), RankOf(b, part, r));
      }
      assert AtMost(StateRank(b, part, e), RankOf(b, part, r));
      if r.cur.file !in b.inRegion {
        EmitKeepsHeadsOnce(b, part, pages, e, r);
      }
    }
  }

  /** Loose pages come before every heading of their part. */
  lemma LoosePagesComeFirst(b: Book, part: Part, pages: seq<Page>, rows: seq<Row>)
    requires Ascending(b, part, rows) && Known(b, part, rows)
    requires rows != [] && GroupOf(rows[|rows| - 1]).None?
    ensures forall g :: GroupHead(g) !in Emit(b, part, pages, rows).body
    ensures forall s :: StatusHead(s) !in Emit(b, part, pages, rows).body
  {
    EachHeadingOnce(b, part, pages, rows);
    assert Emit(b, part, pages, rows).lastGroup.None?;
  }

  // ------------------------------------------------------------- the whole document

  /** The rows of the `i`-th part, as they come to be listed. */
  function RowsCollected(b: Book, pages: seq<Page>, parts: seq<Part>, i: nat): seq<Row>
    requires i < |parts|
  {
    Collect(b, parts[i], pages, Render(b, pages, parts[..i]).placed)
  }

  function BodyOf(b: Book, pages: seq<Page>, parts: seq<Part>, i: nat): seq<Line>
    requires i < |parts|
  {
    PartBody(b, parts[i], pages, RowsCollected(b, pages, parts, i))
  }

  /** The lines the `i`-th part adds to the document. */
  function SectionOf(b: Book, pages: seq<Page>, parts: seq<Part>, i: nat): seq<Line>
    requires i < |parts|
  {
    var body := BodyOf(b, pages, parts, i);
    if body == [] then [] else [PartHead(parts[i].heading)] + body
  }

  /** Where the `i`-th part's lines start. */
  function Start(b: Book, pages: seq<Page>, parts: seq<Part>, i: nat): nat
    requires i <= |parts|
  {
    |Render(b, pages, parts[..i]).lines|
  }

  lemma RenderStep(b: Book, pages: seq<Page>, parts: seq<Part>, i: nat)
    requires i < |parts|
    ensures Render(b, pages, parts[..i + 1]).lines
            == Render(b, pages, parts[..i]).lines + SectionOf(b, pages, parts, i)
  {
    assert parts[..i + 1][..i] == parts[..i];
  }

  lemma PrefixGrows(x: seq<Line>, y: seq<Line>, more: seq<Line>)
    requires x <= y
    ensures x <= y + more
  {
  }

  lemma {:induction false} RenderPrefix(b: Book, pages: seq<Page>, parts: seq<Part>, i: nat, j: nat)
    requires i <= j <= |parts|
    ensures Render(b, pages, parts[..i]).lines <= Render(b, pages, parts[..j]).lines
  {
    if i < j {
      RenderPrefix(b, pages, parts, i, j - 1);
      RenderStep(b, pages, parts, j - 1);
      PrefixGrows(Render(b, pages, parts[..i]).lines, Render(b, pages, parts[..j - 1]).lines,
                  SectionOf(b, pages, parts, j - 1));
    }
  }

  /** The document is the parts' sections, one after the other. */
  lemma {:induction false} DocumentIsSections(b: Book, pages: seq<Page>, parts: seq<Part>, i: nat)
    requires i < |parts|
    ensures Render(b, pages, parts[..i]).lines + SectionOf(b, pages, parts, i) <= Render(b, pages, parts).lines
  {
    RenderStep(b, pages, parts, i);
    RenderPrefix(b, pages, parts, i + 1, |parts|);
    assert parts[..|parts|] == parts;
  }

  /** Below a part's heading, what encloses a line is found in the part, or is that heading. */
  lemma {:induction false} EnclosingInPart(before: seq<Line>, head: Line, body: seq<Line>, d: nat)
    requires head.PartHead?
    ensures Enclosing(before + [head] + body, d) ==
            if Enclosing(body, d).Some? then Enclosing(body, d) else Some(head)
  {
    if body == [] {
      assert before + [head] + body == before + [head];
      EnclosingTakes(before, head, d);
    } else {
      var init, l := body[..|body| - 1], body[|body| - 1];
      EnclosingInPart(before, head, init, d);
      assert body == init + [l];
      Assoc(before + [head], init, [l]);
      EnclosingLast(before + [head] + init, l, d);
      EnclosingLast(init, l, d);
    }
  }

  lemma EnclosingLast(lines: seq<Line>, l: Line, d: int)
    ensures Enclosing(lines + [l], d) == if Depth(l) < d then Some(l) else Enclosing(lines, d)
  {
    assert (lines + [l])[..|lines|] == lines;
  }

  /** Line `k` of the document lists a row of the part, under the row's own heading or else the part's. */
  predicate ListedUnder(b: Book, part: Part, rows: seq<Row>, lines: seq<Line>, k: nat) {
    k < |lines| &&
    exists r <- rows ::
      lines[k] == PageLine(r.cur.file, NestingOf(b, part, r)) &&
      Enclosing(lines[..k], NestingOf(b, part, r)) ==
      Some(if HeadFor(b, part, r).Some? then HeadFor(b, part, r).value else PartHead(part.heading))
  }

  lemma ListedInPart(b: Book, part: Part, pages: seq<Page>, rows: seq<Row>, before: seq<Line>, lines: seq<Line>,
                     body: seq<Line>, j: nat)
    requires j < |body| && body[j].PageLine? && before + [PartHead(part.heading)] + body <= lines
    requires Emit(b, part, pages, rows).body <= body
    requires forall i :: |Emit(b, part, pages, rows).body| <= i < |body| ==> body[i].RegionLine?
    ensures ListedUnder(b, part, rows, lines, |before| + 1 + j)
  {
    var emitted := Emit(b, part, pages, rows).body;
    EachPageUnderItsHeading(b, part, pages, rows);
    assert emitted[j] == body[j] && emitted[..j] == body[..j];
    assert Nested(b, part, rows, emitted, j);
    var head := PartHead(part.heading);
    var k := |before| + 1 + j;
    assert lines[k] == body[j] && lines[..k] == before + [head] + body[..j];
    EnclosingInPart(before, head, body[..j], body[j].depth);
    var r :| r in rows && body[j].file == r.cur.file && body[j].depth == NestingOf(b, part, r) &&
             Enclosing(emitted[..j], body[j].depth) == HeadFor(b, part, r);
    assert lines[k] == PageLine(r.cur.file, NestingOf(b, part, r));
  }

  lemma ListedInSection(b: Book, part: Part, pages: seq<Page>, rows: seq<Row>, before: seq<Line>, body: seq<Line>,
                        lines: seq<Line>, j: nat)
    requires body == PartBody(b, part, pages, rows) && before + [PartHead(part.heading)] + body <= lines
    requires j < |body| && body[j].PageLine?
    ensures ListedUnder(b, part, Sorted(b, part, rows), lines, |before| + 1 + j)
  {
    ListedInPart(b, part, pages, Sorted(b, part, rows), before, lines, body, j);
  }

  /** In the whole table of contents, every page line of a part lists one of the part's rows, under the row's own
      status or group heading, or else under the part's. */
  lemma EachPageListedUnderItsHeading(b: Book, pages: seq<Page>, i: nat, k: nat)
    requires i < |b.parts| && k < |SectionOf(b, pages, b.parts, i)| && SectionOf(b, pages, b.parts, i)[k].PageLine?
    ensures ListedUnder(b, b.parts[i], Sorted(b, b.parts[i], RowsCollected(b, pages, b.parts, i)),
                        Render(b, pages, b.parts).lines, Start(b, pages, b.parts, i) + k)
  {
    var part := b.parts[i];
    var before, body := Render(b, pages, b.parts[..i]).lines, BodyOf(b, pages, b.parts, i);
    DocumentIsSections(b, pages, b.parts, i);
    Assoc(before, [PartHead(part.heading)], body);
    ListedInSection(b, part, pages, RowsCollected(b, pages, b.parts, i), before, body,
                    Render(b, pages, b.parts).lines, k - 1);
  }

  lemma KnownSorted(b: Book, part: Part, rows: seq<Row>)
    requires Known(b, part, rows)
    ensures Known(b, part, Sorted(b, part, rows))
  {
    SortIsStable(b, part, rows, Rank(0, 0));
    var sorted := Sorted(b, part, rows);
    forall i | 0 <= i < |sorted|
      ensures GroupOf(sorted[i]).Some? ==> GroupOf(sorted[i]).value in part.groups
      ensures StatusOf(b, part, sorted[i]).Some? ==> StatusOf(b, part, sorted[i]).value in b.statusOrder
    {
      assert sorted[i] in multiset(sorted);
      var j :| 0 <= j < |rows| && rows[j] == sorted[i];
    }
  }

  /** Each part's section lists its rows by rank, map order among equals, and has no group or status heading
      twice. */
  lemma EachSectionInOrder(b: Book, pages: seq<Page>, i: nat, k: Rank)
    requires i < |b.parts| && Known(b, b.parts[i], RowsCollected(b, pages, b.parts, i))
    ensures var rows := RowsCollected(b, pages, b.parts, i);
            var sorted := Sorted(b, b.parts[i], rows);
            && Ascending(b, b.parts[i], sorted)
            && OfRank(b, b.parts[i], sorted, k) == OfRank(b, b.parts[i], rows, k)
            && PageFiles(SectionOf(b, pages, b.parts, i)) == Visible(b, sorted)
            && NoHeadTwice(SectionOf(b, pages, b.parts, i))
  {
    var part, rows := b.parts[i], RowsCollected(b, pages, b.parts, i);
    var sorted := Sorted(b, part, rows);
    var tail := if part.dir == "reference" then RegionLines(b.region) else [];
    var emitted := Emit(b, part, pages, sorted).body;
    SortIsStable(b, part, rows, k);
    KnownSorted(b, part, rows);
    EachHeadingOnce(b, part, pages, sorted);
    EmitsEachRow(b, part, pages, sorted);
    NoPageFiles(tail);
    SectionFiles(part, emitted, tail);
    SectionHeads(part, emitted, tail);
  }

  lemma SectionFiles(part: Part, emitted: seq<Line>, tail: seq<Line>)
    requires PageFiles(tail) == []
    ensures PageFiles([PartHead(part.heading)] + (emitted + tail)) == PageFiles(emitted)
    ensures PageFiles(emitted + tail) == PageFiles(emitted)
  {
    PageFilesAppend(emitted, tail);
    PageFilesAppend([PartHead(part.heading)], emitted + tail);
    NoPageFiles([PartHead(part.heading)]);
  }

  lemma SectionHeads(part: Part, emitted: seq<Line>, tail: seq<Line>)
    requires NoHeadTwice(emitted) && forall i :: 0 <= i < |tail| ==> tail[i].RegionLine?
    ensures NoHeadTwice([PartHead(part.heading)] + (emitted + tail)) && NoHeadTwice([])
  {
    var all := [PartHead(part.heading)] + (emitted + tail);
    forall l: Line | l.GroupHead? || l.StatusHead? ensures multiset(all)[l] <= 1 {
      assert l !in tail && l != PartHead(part.heading);
      assert multiset(all) == multiset([PartHead(part.heading)]) + multiset(emitted) + multiset(tail);
    }
  }
}
