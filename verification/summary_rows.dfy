/** What stands in a part of the generated table of contents, in the page map's own terms: the generated region, the
    pages waiting to be merged, the heading each page belongs under, and the order of groups and statuses. */
module SummaryRows {
  import opened Text
  import opened BookSummary
  import opened SummaryGuarantees

  // ------------------------------------------------------------- which files are listed

  /** A page of this book that is not waiting to be merged, in one of its parts, whose file is in the book's sources. */
  predicate Listable(b: Book, p: Page) {
    p.book == b.name && !p.merges && (exists part <- b.parts :: p.part == part.dir) &&
    p.cur.Some? && p.cur.value.inBook
  }

  /** The file of a listable page is listed once, unless the generated region lists it; no other file is listed. */
  lemma ListedIffListable(b: Book, pages: seq<Page>, file: string)
    ensures multiset(PageFiles(Render(b, pages, b.parts).lines))[file] ==
            if file !in b.inRegion && exists p <- pages :: Listable(b, p) && p.cur.value.file == file then 1 else 0
  {
    EachPageListedOnce(b, pages, b.parts, file);
    if p :| p in pages && Listable(b, p) && p.cur.value.file == file {
      var part :| part in b.parts && p.part == part.dir;
      assert HasPage(b, part, pages, file);
    }
    if part :| part in b.parts && HasPage(b, part, pages, file) {
      var p :| p in pages && Eligible(b, part, p) && p.cur.value.file == file;
      assert Listable(b, p);
    }
  }

  // ------------------------------------------------------------- the generated region

  predicate NoRegion(lines: seq<Line>) { forall i :: 0 <= i < |lines| ==> !lines[i].RegionLine? }

  lemma RowHasNoRegion(b: Book, part: Part, pages: seq<Page>, e: Emission, r: Row)
    requires NoRegion(e.body)
    ensures NoRegion(EmitRow(b, part, pages, e, r).body)
  {
    if r.cur.file !in b.inRegion {
      var heads, line, merged := EmitParts(b, part, pages, e, r);
      assert NoRegion(heads) && NoRegion(merged);
    }
  }

  lemma {:induction false} RowsHaveNoRegion(b: Book, part: Part, pages: seq<Page>, rows: seq<Row>)
    ensures NoRegion(Emit(b, part, pages, rows).body)
  {
    if rows != [] {
      RowsHaveNoRegion(b, part, pages, rows[..|rows| - 1]);
      RowHasNoRegion(b, part, pages, Emit(b, part, pages, rows[..|rows| - 1]), rows[|rows| - 1]);
    }
  }

  /** The reference part's section ends with the lines of the region; nowhere else is there one. */
  lemma RegionEndsReference(b: Book, pages: seq<Page>, i: nat) returns (own: seq<Line>)
    requires i < |b.parts|
    ensures NoRegion(own)
    ensures SectionOf(b, pages, b.parts, i) ==
            own + if b.parts[i].dir == "reference" then RegionLines(b.region) else []
  {
    var part := b.parts[i];
    var sorted := Sorted(b, part, RowsCollected(b, pages, b.parts, i));
    var emitted := Emit(b, part, pages, sorted).body;
    RowsHaveNoRegion(b, part, pages, sorted);
    var body := BodyOf(b, pages, b.parts, i);
    own := if body == [] then [] else [PartHead(part.heading)] + emitted;
    if body != [] && part.dir == "reference" {
      Assoc([PartHead(part.heading)], emitted, RegionLines(b.region));
    }
  }

  // ------------------------------------------------------------- pages waiting to be merged

  /** `q` is folded into `p` one day, and is somewhere until then. */
  predicate Waits(q: Page, p: Page) { q.book == p.book && q.merges && q.into == Some(p.path) && q.cur.Some? }

  lemma {:induction false} EachWaitingPageHasALine(a: seq<Page>, q: Page, c: seq<Page>, p: Page, depth: nat)
    ensures MergedLines(a + [q] + c, p, depth) ==
            MergedLines(a, p, depth) + (if Waits(q, p) then [MergedLine(q.cur.value.file, depth)] else []) +
            MergedLines(c, p, depth)
    ensures MergedLines([], p, depth) == []
  {
    var all := a + [q] + c;
    if c == [] {
      assert all[..|all| - 1] == a && all[|all| - 1] == q;
    } else {
      var init, l := c[..|c| - 1], c[|c| - 1];
      assert all[..|all| - 1] == a + [q] + init && all[|all| - 1] == l;
      EachWaitingPageHasALine(a, q, init, p, depth);
    }
  }

  /** Every row the region does not list has its line, and right below it the lines of the pages waiting for it. */
  lemma {:induction false} RowIsListed(b: Book, part: Part, pages: seq<Page>, rows: seq<Row>, i: nat) returns (k: nat)
    requires i < |rows| && rows[i].cur.file !in b.inRegion
    ensures var body, d := Emit(b, part, pages, rows).body, NestingOf(b, part, rows[i]);
            k < |body| && body[k] == PageLine(rows[i].cur.file, d) &&
            MergedLines(pages, rows[i].page, d + 1) <= body[k + 1..]
  {
    var init, r := rows[..|rows| - 1], rows[|rows| - 1];
    var e := Emit(b, part, pages, init);
    if i < |init| {
      k := RowIsListed(b, part, pages, init, i);
      RowExtends(b, part, pages, e, r);
      ListedFurther(e.body, EmitRow(b, part, pages, e, r).body, k, MergedLines(pages, rows[i].page, NestingOf(b, part, rows[i]) + 1));
    } else {
      k := LastRowListed(b, part, pages, e, r);
    }
  }

  lemma LastRowListed(b: Book, part: Part, pages: seq<Page>, e: Emission, r: Row) returns (k: nat)
    requires r.cur.file !in b.inRegion
    ensures var body, d := EmitRow(b, part, pages, e, r).body, NestingOf(b, part, r);
            k < |body| && body[k] == PageLine(r.cur.file, d) && body[k + 1..] == MergedLines(pages, r.page, d + 1)
  {
    var d := NestingOf(b, part, r);
    var heads := HeadsOf(GroupOf(r), StatusOf(b, part, r), e.lastGroup, e.lastStatus);
    k := |e.body + heads|;
    PageThenMerged(e.body + heads, PageLine(r.cur.file, d), MergedLines(pages, r.page, d + 1));
  }

  lemma PageThenMerged(x: seq<Line>, l: Line, m: seq<Line>)
    ensures (x + [l] + m)[|x|] == l && (x + [l] + m)[|x| + 1..] == m
  {
  }

  lemma RowExtends(b: Book, part: Part, pages: seq<Page>, e: Emission, r: Row)
    ensures e.body <= EmitRow(b, part, pages, e, r).body
  {
  }

  lemma ListedFurther(x: seq<Line>, y: seq<Line>, k: nat, m: seq<Line>)
    requires x <= y && k < |x| && m <= x[k + 1..]
    ensures y[k] == x[k] && m <= y[k + 1..]
  {
    assert y[k + 1..][..|m|] == x[k + 1..][..|m|];
  }

  // ------------------------------------------------------------- headings and order

  /** A page at its target belongs under its group, or its status in the status-grouped group; any other page belongs
      under the part alone. */
  lemma HeadingOfRow(b: Book, part: Part, r: Row)
    ensures !r.cur.home || r.page.group.None? ==> HeadFor(b, part, r) == None
    ensures r.cur.home && r.page.group.Some? ==>
              HeadFor(b, part, r) ==
              if r.page.group == part.statusGroup && r.cur.rel in b.statuses then Some(StatusHead(b.statuses[r.cur.rel]))
              else Some(GroupHead(r.page.group.value))
  {
  }

  /** Ungrouped pages come first, then the groups in their order. */
  lemma GroupsInOrder(b: Book, part: Part, rows: seq<Row>, i: nat, j: nat)
    requires i < j < |rows| && Ascending(b, part, rows) && GroupOf(rows[i]).Some?
    ensures GroupOf(rows[j]).Some? &&
            IndexIn(part.groups, GroupOf(rows[i]).value) <= IndexIn(part.groups, GroupOf(rows[j]).value)
  {
    assert AtMost(RankOf(b, part, rows[i]), RankOf(b, part, rows[j]));
  }

  /** In a group the pages with a status come first, the statuses in their order. */
  lemma StatusesInOrder(b: Book, part: Part, rows: seq<Row>, i: nat, j: nat)
    requires i < j < |rows| && Ascending(b, part, rows) && Known(b, part, rows)
    requires GroupOf(rows[i]).Some? && GroupOf(rows[i]) == GroupOf(rows[j]) && StatusOf(b, part, rows[j]).Some?
    ensures StatusOf(b, part, rows[i]).Some? &&
            IndexIn(b.statusOrder, StatusOf(b, part, rows[i]).value) <=
            IndexIn(b.statusOrder, StatusOf(b, part, rows[j]).value)
  {
    assert AtMost(RankOf(b, part, rows[i]), RankOf(b, part, rows[j]));
  }
}
