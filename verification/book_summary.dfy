/** The generated table of contents (`render_summary` in scripts/book-move.py). For each part of a book the pages
    that belong to it are collected in map order, sorted by group and status, and listed under heading entries that
    are opened as the group and the status change. The loops are methods; what they compute is the function
    `Render`, whose guarantees are elsewhere. */
module BookSummary {
  import opened Text

  // ------------------------------------------------------------- the page map

  /** Where a page's file is now: the file, its path in the book, whether it is inside this
      book's sources, and whether it is already at its target. */
  datatype Cur = Cur(file: string, rel: string, inBook: bool, home: bool)

  datatype Page = Page(book: string, path: string, part: string, merges: bool, into: Option<string>,
                       group: Option<string>, cur: Option<Cur>)

  /** A part of a book: its directory, heading, group directories in order, and the group
      whose pages are nested by status, if any. */
  datatype Part = Part(dir: string, heading: string, groups: seq<string>, statusGroup: Option<string>)

  datatype Book = Book(name: string, parts: seq<Part>, statuses: map<string, string>,
                       statusOrder: seq<string>, region: seq<string>, inRegion: set<string>)

  datatype Row = Row(page: Page, cur: Cur)

  function GroupOf(r: Row): Option<string> { if r.cur.home then r.page.group else None }

  function StatusOf(b: Book, part: Part, r: Row): Option<string> {
    if GroupOf(r) != part.statusGroup || part.statusGroup.None? || r.cur.rel !in b.statuses then None
    else Some(b.statuses[r.cur.rel])
  }

  // ------------------------------------------------------------- which pages

  predicate Eligible(b: Book, part: Part, p: Page) {
    p.book == b.name && p.part == part.dir && !p.merges && p.cur.Some? && p.cur.value.inBook
  }

  /** The part's rows in map order, each file once and none already placed. */
  function Collect(b: Book, part: Part, pages: seq<Page>, placed: set<string>): seq<Row> {
    if pages == [] then [] else
      var p := pages[|pages| - 1];
      var rows := Collect(b, part, pages[..|pages| - 1], placed);
      if Eligible(b, part, p) && p.cur.value.file !in placed && p.cur.value.file !in Files(rows)
      then rows + [Row(p, p.cur.value)] else rows
  }

  function Files(rows: seq<Row>): set<string> { set r | r in rows :: r.cur.file }

  // ------------------------------------------------------------- the stable sort

  function IndexIn(names: seq<string>, n: string): (i: nat)
    ensures i <= |names| && (i < |names| ==> names[i] == n) && (n in names ==> i < |names|)
  {
    if names == [] || names[0] == n then 0 else 1 + IndexIn(names[1..], n)
  }

  datatype Rank = Rank(major: int, minor: int)

  function RankOf(b: Book, part: Part, r: Row): Rank {
    var g, s := GroupOf(r), StatusOf(b, part, r);
    if g.None? then Rank(-1, 0)
    else Rank(IndexIn(part.groups, g.value), if s.Some? then IndexIn(b.statusOrder, s.value) else |b.statusOrder|)
  }

  predicate AtMost(x: Rank, y: Rank) { x.major < y.major || (x.major == y.major && x.minor <= y.minor) }

  function InsertRow(b: Book, part: Part, rows: seq<Row>, r: Row): seq<Row> {
    if rows == [] || AtMost(RankOf(b, part, rows[|rows| - 1]), RankOf(b, part, r)) then rows + [r]
    else InsertRow(b, part, rows[..|rows| - 1], r) + [rows[|rows| - 1]]
  }

  /** `rows.sort(key=rank)`: stable. */
  function Sorted(b: Book, part: Part, rows: seq<Row>): seq<Row> {
    if rows == [] then [] else InsertRow(b, part, Sorted(b, part, rows[..|rows| - 1]), rows[|rows| - 1])
  }

  // ------------------------------------------------------------- the emission loop

  /** A line of the table of contents; `depth` is its nesting, two spaces each. */
  datatype Line =
    | PartHead(heading: string)
    | GroupHead(group: string)
    | StatusHead(status: string)
    | PageLine(file: string, depth: nat)
    | MergedLine(file: string, depth: nat)
    | RegionLine(text: string)

  function Depth(l: Line): int {
    match l
    case PartHead(_) => -1
    case GroupHead(_) => 0
    case StatusHead(_) => 1
    case PageLine(_, d) => d
    case MergedLine(_, d) => d
    case RegionLine(_) => 0
  }

  /** Pages waiting to be merged into `p`, nested under it. */
  function MergedLines(pages: seq<Page>, p: Page, depth: nat): seq<Line> {
    if pages == [] then [] else
      var q := pages[|pages| - 1];
      MergedLines(pages[..|pages| - 1], p, depth) +
      if q.book == p.book && q.merges && q.into == Some(p.path) && q.cur.Some?
      then [MergedLine(q.cur.value.file, depth)] else []
  }

  datatype Emission = Emission(body: seq<Line>, lastGroup: Option<string>, lastStatus: Option<string>)

  function NestingOf(b: Book, part: Part, r: Row): nat {
    if StatusOf(b, part, r).Some? then 2 else if GroupOf(r).Some? then 1 else 0
  }

  /** The heading entries opened in front of a page of group `g` and status `s`. */
  function HeadsOf(g: Option<string>, s: Option<string>, lastGroup: Option<string>, lastStatus: Option<string>): seq<Line> {
    var newGroup := g.Some? && g != lastGroup;
    var status := if newGroup then None else lastStatus;
    (if newGroup then [GroupHead(g.value)] else []) +
    (if s.Some? && s != status then [StatusHead(s.value)] else [])
  }

  function EmitRow(b: Book, part: Part, pages: seq<Page>, e: Emission, r: Row): Emission {
    if r.cur.file in b.inRegion then e else
      var g, s := GroupOf(r), StatusOf(b, part, r);
      Emission(e.body + HeadsOf(g, s, e.lastGroup, e.lastStatus) + [PageLine(r.cur.file, NestingOf(b, part, r))] +
               MergedLines(pages, r.page, NestingOf(b, part, r) + 1), g, s)
  }

  function Emit(b: Book, part: Part, pages: seq<Page>, rows: seq<Row>): Emission {
    if rows == [] then Emission([], None, None) else
      EmitRow(b, part, pages, Emit(b, part, pages, rows[..|rows| - 1]), rows[|rows| - 1])
  }

  function RegionLines(text: seq<string>): seq<Line> {
    seq(|text|, i requires 0 <= i < |text| => RegionLine(text[i]))
  }

  function PartBody(b: Book, part: Part, pages: seq<Page>, rows: seq<Row>): seq<Line> {
    Emit(b, part, pages, Sorted(b, part, rows)).body +
    if part.dir == "reference" then RegionLines(b.region) else []
  }

  datatype Document = Document(lines: seq<Line>, placed: set<string>)

  function RenderPart(b: Book, pages: seq<Page>, before: Document, part: Part): Document {
    var rows := Collect(b, part, pages, before.placed);
    var body := PartBody(b, part, pages, rows);
    Document(before.lines + (if body == [] then [] else [PartHead(part.heading)] + body),
             before.placed + Files(rows))
  }

  function Render(b: Book, pages: seq<Page>, parts: seq<Part>): Document {
    if parts == [] then Document([], {}) else
      RenderPart(b, pages, Render(b, pages, parts[..|parts| - 1]), parts[|parts| - 1])
  }

  // ------------------------------------------------------------- the loops

  method CollectRows(b: Book, part: Part, pages: seq<Page>, placed: set<string>)
    returns (rows: seq<Row>, placed': set<string>)
    ensures rows == Collect(b, part, pages, placed)
    ensures placed' == placed + Files(rows)
  {
    rows, placed' := [], placed;
    for i := 0 to |pages|
      invariant rows == Collect(b, part, pages[..i], placed)
      invariant placed' == placed + Files(rows)
    {
      var p := pages[i];
      assert pages[..i + 1][..i] == pages[..i];
      if p.book != b.name || p.part != part.dir || p.merges {
        continue;
      }
      if p.cur.None? || p.cur.value.file in placed' {
        continue;
      }
      if !p.cur.value.inBook {
        continue;
      }
      assert Files(rows + [Row(p, p.cur.value)]) == Files(rows) + {p.cur.value.file} by {
        assert (rows + [Row(p, p.cur.value)])[|rows|] == Row(p, p.cur.value);
        assert forall r <- rows :: r in rows + [Row(p, p.cur.value)];
      }
      placed' := placed' + {p.cur.value.file};
      rows := rows + [Row(p, p.cur.value)];
    }
    assert pages[..|pages|] == pages;
  }

  method CollectMerged(pages: seq<Page>, p: Page, depth: nat) returns (lines: seq<Line>)
    ensures lines == MergedLines(pages, p, depth)
  {
    lines := [];
    for i := 0 to |pages|
      invariant lines == MergedLines(pages[..i], p, depth)
    {
      var q := pages[i];
      assert pages[..i + 1][..i] == pages[..i];
      if q.book == p.book && q.merges && q.into == Some(p.path) {
        if q.cur.Some? {
          lines := lines + [MergedLine(q.cur.value.file, depth)];
        }
      }
    }
    assert pages[..|pages|] == pages;
  }

  method EmitRows(b: Book, part: Part, pages: seq<Page>, rows: seq<Row>) returns (body: seq<Line>)
    ensures body == Emit(b, part, pages, rows).body
  {
    body := [];
    var lastGroup: Option<string>, lastStatus: Option<string> := None, None;
    for i := 0 to |rows|
      invariant Emission(body, lastGroup, lastStatus) == Emit(b, part, pages, rows[..i])
    {
      var r := rows[i];
      assert rows[..i + 1][..i] == rows[..i];
      if r.cur.file in b.inRegion {
        continue;
      }
      var g, s := GroupOf(r), StatusOf(b, part, r);
      var indent := if s.Some? then 2 else if g.Some? then 1 else 0;
      ghost var before := body;
      if g.Some? && g != lastGroup {
        body := body + [GroupHead(g.value)];
        lastStatus := None;
      }
      if s.Some? && s != lastStatus {
        body := body + [StatusHead(s.value)];
      }
      assert body == before + HeadsOf(g, s, Emit(b, part, pages, rows[..i]).lastGroup,
                                      Emit(b, part, pages, rows[..i]).lastStatus);
      lastGroup, lastStatus := g, s;
      var merged := CollectMerged(pages, r.page, indent + 1);
      body := body + [PageLine(r.cur.file, indent)] + merged;
    }
    assert rows[..|rows|] == rows;
  }

  method AddPart(b: Book, pages: seq<Page>, part: Part, lines: seq<Line>, placed: set<string>)
    returns (lines': seq<Line>, placed': set<string>)
    ensures Document(lines', placed') == RenderPart(b, pages, Document(lines, placed), part)
  {
    var rows;
    rows, placed' := CollectRows(b, part, pages, placed);
    var body := EmitRows(b, part, pages, Sorted(b, part, rows));
    if part.dir == "reference" {
      body := body + RegionLines(b.region);
    }
    assert body == PartBody(b, part, pages, rows);
    lines' := lines;
    if body != [] {
      lines' := lines + ([PartHead(part.heading)] + body);
    }
  }

  method RenderSummary(b: Book, pages: seq<Page>) returns (lines: seq<Line>)
    ensures lines == Render(b, pages, b.parts).lines
  {
    lines := [];
    var placed: set<string> := {};
    for i := 0 to |b.parts|
      invariant Document(lines, placed) == Render(b, pages, b.parts[..i])
    {
      assert b.parts[..i + 1][..i] == b.parts[..i];
      lines, placed := AddPart(b, pages, b.parts[i], lines, placed);
    }
    assert b.parts[..|b.parts|] == b.parts;
  }
}
