/** Redirect rows for pages that moved (`add_redirects` and what it calls in scripts/book-move.py). A run over the
    user book's `book.toml` re-aims, in place, each row whose page has left the URL the row leads to, and then adds
    a row for each former URL of a moved page that the text does not mention yet, right below the table header. The
    loops are methods; what the whole edit computes is the function `Redirected`, whose guarantees are elsewhere. */
module Redirects {
  import opened Text
  import opened PosixPaths
  import opened BookLinks

  // ------------------------------------------------------------- the page map

  /** One row of the page map: where the page belongs, every user-book path it had before
      (oldest first), the user page a `merge-into` folds it into, and whether a generator
      writes it. */
  datatype Mapped = Mapped(target: Page, formers: seq<Page>, mergeInto: Option<Page>, generated: bool)

  predicate WellMapped(p: Mapped) {
    IsPage(p.target) && forall f <- p.formers :: IsPage(f) && f.book.User?
  }

  predicate WellMappedAll(pages: seq<Mapped>) { forall i :: 0 <= i < |pages| ==> WellMapped(pages[i]) }

  /** `url_for` */
  function UrlFor(p: Mapped): string { Url(p.target) }

  /** The first row that once had the file `rel`. */
  function ByFormer(pages: seq<Mapped>, rel: string): (p: Option<Mapped>)
    ensures p.Some? ==> p.value in pages
  {
    if pages == [] then None
    else if exists f <- pages[0].formers :: RelOf(f) == rel then Some(pages[0])
    else ByFormer(pages[1..], rel)
  }

  /** The row that owns the user page another row merges into. */
  function MergeOwner(pages: seq<Mapped>, into: Page): (p: Option<Mapped>)
    ensures p.Some? ==> p.value in pages
  {
    if pages == [] then None
    else if pages[0].target == into && pages[0].mergeInto.None? then Some(pages[0])
    else MergeOwner(pages[1..], into)
  }

  /** The source file that serves a deploy URL: the first candidate that exists, else the last one. A rooted URL
      joined to the books' directories names a file outside both of them. */
  function SourceOfUrl(url: string, fs: set<string>): Option<string> {
    if !EndsWith(url, ".html") || ".." <= url || "/" <= url then None
    else FirstExisting(Candidates(url, DEPLOY), fs)
  }

  function FirstExisting(cands: seq<string>, fs: set<string>): Option<string> {
    if cands == [] then None
    else if |cands| == 1 || cands[0] in fs then Some(cands[0])
    else FirstExisting(cands[1..], fs)
  }

  /** Where a URL's page is served now, if the page has left it. */
  function MovedTo(pages: seq<Mapped>, fs: set<string>, url: string): Option<string> {
    var source := SourceOfUrl(url, fs);
    if source.None? || source.value in fs then None else
      var row := ByFormer(pages, source.value);
      if row.None? then None else
        var owner := if row.value.mergeInto.Some? then MergeOwner(pages, row.value.mergeInto.value) else row;
        if owner.None? || !(RelOf(owner.value.target) in fs || owner.value.generated) then None
        else Some(UrlFor(owner.value))
  }

  /** The URL a redirect row sends its source to. */
  function Resolved(src: string, dst: string): string { Normpath(JoinPath(Dirname(src), dst)) }

  function StaleRedirect(pages: seq<Mapped>, fs: set<string>, src: string, dst: string): Option<string> {
    MovedTo(pages, fs, Resolved(src, dst))
  }

  // ------------------------------------------------------------- the TOML file

  /** A line of `book.toml`. `Other` keeps the URLs `u` for which `"/u"` stands on the line. */
  datatype Line =
    | Row(src: string, dst: string, anchor: string)
    | Header
    | Blank
    | Other(quoted: set<string>)

  /** `"/url"` occurs on the line: as a row's source, or as an absolute destination. */
  predicate Quotes(l: Line, url: string) {
    match l
    case Row(src, dst, anchor) => url == src || (anchor == "" && dst == "/" + url)
    case Other(quoted) => url in quoted
    case _ => false
  }

  predicate Mentioned(lines: seq<Line>, url: string) {
    exists i :: 0 <= i < |lines| && Quotes(lines[i], url)
  }

  predicate HasSource(lines: seq<Line>, url: string) {
    exists i :: 0 <= i < |lines| && lines[i].Row? && lines[i].src == url
  }

  function DirOf(src: string): string { if Dirname(src) == "" then "." else Dirname(src) }

  function RepointLine(l: Line, pages: seq<Mapped>, fs: set<string>, cwd: seq<string>): Line {
    if !l.Row? then l else
      var url := StaleRedirect(pages, fs, l.src, l.dst);
      if url.None? then l else l.(dst := Relpath(url.value, DirOf(l.src), cwd))
  }

  function Repointed(lines: seq<Line>, pages: seq<Mapped>, fs: set<string>, cwd: seq<string>): (r: seq<Line>)
    ensures |r| == |lines|
    ensures forall i :: 0 <= i < |lines| ==> r[i] == RepointLine(lines[i], pages, fs, cwd)
  {
    seq(|lines|, i requires 0 <= i < |lines| => RepointLine(lines[i], pages, fs, cwd))
  }

  /** A former URL of a moved page with its current one. */
  type Move = (string, string)

  function MovesOf(p: Mapped): seq<Move> {
    seq(|p.formers|, i requires 0 <= i < |p.formers| => (Url(p.formers[i]), UrlFor(p)))
  }

  function Moves(moved: seq<Mapped>): seq<Move> {
    if moved == [] then [] else Moves(moved[..|moved| - 1]) + MovesOf(moved[|moved| - 1])
  }

  predicate Skipped(m: Move, existing: seq<Line>, rows: seq<Line>) {
    m.0 == m.1 || Mentioned(existing, m.0) || HasSource(rows, m.0)
  }

  function NewRow(m: Move, cwd: seq<string>): Line { Row(m.0, Relpath(m.1, DirOf(m.0), cwd), "") }

  function Fresh(moves: seq<Move>, existing: seq<Line>, cwd: seq<string>): seq<Line> {
    if moves == [] then [] else
      var m := moves[|moves| - 1];
      var rows := Fresh(moves[..|moves| - 1], existing, cwd);
      if Skipped(m, existing, rows) then rows else rows + [NewRow(m, cwd)]
  }

  function HeaderAt(lines: seq<Line>): (i: nat)
    ensures i <= |lines| && (i < |lines| ==> lines[i] == Header)
    ensures i == |lines| ==> Header !in lines
  {
    if lines == [] || lines[0] == Header then 0 else 1 + HeaderAt(lines[1..])
  }

  function DropBlanks(lines: seq<Line>): seq<Line> {
    if lines != [] && lines[|lines| - 1] == Blank then DropBlanks(lines[..|lines| - 1]) else lines
  }

  function WithHeader(lines: seq<Line>): (r: seq<Line>)
    ensures Header in r
  {
    if Header in lines then lines else DropBlanks(lines) + [Blank, Other({}), Header]
  }

  /** New rows go right after the table header. */
  function Inserted(lines: seq<Line>, rows: seq<Line>): seq<Line> {
    if rows == [] then lines else
      var text := WithHeader(lines);
      var h := HeaderAt(text);
      text[..h + 1] + rows + text[h + 1..]
  }

  /** The whole edit, as a function. */
  function Redirected(lines: seq<Line>, moved: seq<Mapped>, pages: Option<seq<Mapped>>,
                      fs: set<string>, cwd: seq<string>): seq<Line> {
    var existing := if pages.Some? then Repointed(lines, pages.value, fs, cwd) else lines;
    Inserted(existing, Fresh(Moves(moved), existing, cwd))
  }

  method RepointLines(toml: seq<Line>, pages: seq<Mapped>, fs: set<string>, cwd: seq<string>)
    returns (lines: seq<Line>)
    ensures lines == Repointed(toml, pages, fs, cwd)
  {
    lines := toml;
    for i := 0 to |lines|
      invariant |lines| == |toml|
      invariant forall j :: 0 <= j < i ==> lines[j] == RepointLine(toml[j], pages, fs, cwd)
      invariant forall j :: i <= j < |toml| ==> lines[j] == toml[j]
    {
      var l := RepointOne(lines[i], pages, fs, cwd);
      lines := lines[i := l];
    }
  }

  method RepointOne(l: Line, pages: seq<Mapped>, fs: set<string>, cwd: seq<string>) returns (r: Line)
    ensures r == RepointLine(l, pages, fs, cwd)
  {
    if !l.Row? {
      return l;
    }
    var url := StaleRedirect(pages, fs, l.src, l.dst);
    if url.None? {
      return l;
    }
    r := Row(l.src, Relpath(url.value, DirOf(l.src), cwd), l.anchor);
  }

  method AddRedirects(toml: seq<Line>, moved: seq<Mapped>, pages: Option<seq<Mapped>>,
                      fs: set<string>, cwd: seq<string>) returns (text: seq<Line>)
    ensures text == Redirected(toml, moved, pages, fs, cwd)
  {
    text := toml;
    if pages.Some? {
      text := RepointLines(toml, pages.value, fs, cwd);
    }
    var rows := CollectRows(moved, text, cwd);
    text := InsertRows(text, rows);
  }

  method InsertRows(lines: seq<Line>, rows: seq<Line>) returns (text: seq<Line>)
    ensures text == Inserted(lines, rows)
  {
    text := lines;
    if rows == [] {
      return;
    }
    if Header !in text {
      text := DropBlanks(text) + [Blank, Other({}), Header];
    }
    var h := HeaderAt(text);
    text := text[..h + 1] + rows + text[h + 1..];
  }

  method CollectRows(moved: seq<Mapped>, existing: seq<Line>, cwd: seq<string>) returns (rows: seq<Line>)
    ensures rows == Fresh(Moves(moved), existing, cwd)
  {
    rows := [];
    for i := 0 to |moved|
      invariant rows == Fresh(Moves(moved[..i]), existing, cwd)
    {
      assert moved[..i + 1][..i] == moved[..i];
      rows := CollectPage(moved[i], rows, existing, cwd, Moves(moved[..i]));
    }
    assert moved[..|moved|] == moved;
  }

  lemma FreshStep(moves: seq<Move>, m: Move, existing: seq<Line>, cwd: seq<string>)
    ensures Fresh(moves + [m], existing, cwd) ==
            var rows := Fresh(moves, existing, cwd);
            if Skipped(m, existing, rows) then rows else rows + [NewRow(m, cwd)]
  {
    assert (moves + [m])[..|moves|] == moves;
  }

  method CollectPage(p: Mapped, before: seq<Line>, existing: seq<Line>, cwd: seq<string>,
                     ghost moves: seq<Move>) returns (rows: seq<Line>)
    requires before == Fresh(moves, existing, cwd)
    ensures rows == Fresh(moves + MovesOf(p), existing, cwd)
  {
    rows := before;
    ghost var own := MovesOf(p);
    assert moves + own[..0] == moves;
    for j := 0 to |p.formers|
      invariant rows == Fresh(moves + own[..j], existing, cwd)
    {
      var former, url := Url(p.formers[j]), UrlFor(p);
      assert moves + own[..j + 1] == (moves + own[..j]) + [(former, url)];
      FreshStep(moves + own[..j], (former, url), existing, cwd);
      if former == url || Mentioned(existing, former) || HasSource(rows, former) {
        continue;
      }
      rows := rows + [NewRow((former, url), cwd)];
    }
    assert own[..|p.formers|] == own;
  }
}
