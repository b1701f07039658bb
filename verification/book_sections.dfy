/** The sections of a Markdown page, as scripts/check-book-board-run-sections.py cuts them. */
module BookSections {
  import opened Text

  /** A line as the two line patterns see it. A heading carries the id its text normalises to. */
  datatype Line =
    | Fence
    | Heading(level: nat, text: string, id: string)
    | Prose(text: string)

  datatype Head = Head(line: nat, level: nat, text: string, id: string)

  /** The body is the lines from `from` up to, not including, `to`. */
  datatype Section = Section(text: string, from: nat, to: nat)

  // ---- Headings outside fences

  /** `tabs` holds the lines that are a tab group's own structure; they are passed over. */
  function InFence(lines: seq<Line>, tabs: set<nat>): bool {
    if lines == [] then false
    else
      var n := |lines| - 1;
      InFence(lines[..n], tabs) != (n !in tabs && lines[n].Fence?)
  }

  predicate IsHead(lines: seq<Line>, tabs: set<nat>, n: nat)
    requires n < |lines|
  {
    n !in tabs && lines[n].Heading? && !InFence(lines[..n], tabs)
  }

  function HeadAt(lines: seq<Line>, n: nat): Head
    requires n < |lines| && lines[n].Heading?
  {
    Head(n, lines[n].level, lines[n].text, lines[n].id)
  }

  /** The headings outside fences, in page order. */
  function HeadsOf(lines: seq<Line>, tabs: set<nat>): seq<Head> {
    if lines == [] then []
    else
      var n := |lines| - 1;
      HeadsOf(lines[..n], tabs) + if IsHead(lines, tabs, n) then [HeadAt(lines, n)] else []
  }

  predicate Genuine(h: Head, lines: seq<Line>, tabs: set<nat>) {
    h.line < |lines| && IsHead(lines, tabs, h.line) && h == HeadAt(lines, h.line)
  }

  /** Every such heading is among them, nothing else is, and their lines ascend. */
  lemma {:induction false} HeadsAreThese(lines: seq<Line>, tabs: set<nat>)
    ensures forall h :: h in HeadsOf(lines, tabs) <==> Genuine(h, lines, tabs)
    ensures InOrder(HeadsOf(lines, tabs), |lines|)
  {
    if lines != [] {
      var n := |lines| - 1;
      HeadsAreThese(lines[..n], tabs);
      forall h ensures Genuine(h, lines, tabs) <==>
                         Genuine(h, lines[..n], tabs) || (IsHead(lines, tabs, n) && h == HeadAt(lines, n))
      {
        if h.line < n {
          assert lines[..n][..h.line] == lines[..h.line];
        }
      }
    }
  }

  predicate InOrder(heads: seq<Head>, total: nat) {
    && (forall i, j | 0 <= i < j < |heads| :: heads[i].line < heads[j].line)
    && (forall i | 0 <= i < |heads| :: heads[i].line < total)
  }

  method FindHeads(lines: seq<Line>, tabs: set<nat>) returns (heads: seq<Head>)
    ensures heads == HeadsOf(lines, tabs)
  {
    heads := [];
    var inFence := false;
    for n := 0 to |lines|
      invariant inFence == InFence(lines[..n], tabs) && heads == HeadsOf(lines[..n], tabs)
    {
      assert lines[..n + 1][..n] == lines[..n];
      if n in tabs {
        continue;
      }
      if lines[n].Fence? {
        inFence := !inFence;
        continue;
      }
      if !inFence && lines[n].Heading? {
        heads := heads + [HeadAt(lines, n)];
      }
    }
    assert lines[..|lines|] == lines;
  }

  // ---- Fenced blocks

  function FenceLines(lines: seq<Line>, tabs: set<nat>): set<nat> {
    set n: nat | n < |lines| && lines[n].Fence? && n !in tabs
  }

  lemma FenceLinesSnoc(lines: seq<Line>, l: Line, tabs: set<nat>)
    ensures FenceLines(lines + [l], tabs) ==
            FenceLines(lines, tabs) + if l.Fence? && |lines| !in tabs then {|lines|} else {}
  {
    var all := lines + [l];
    assert forall n: nat :: n < |lines| ==> all[n] == lines[n];
  }

  lemma Snoc(lines: seq<Line>, l: Line, tabs: set<nat>)
    ensures InFence(lines + [l], tabs) <==> InFence(lines, tabs) != (|lines| !in tabs && l.Fence?)
    ensures HeadsOf(lines + [l], tabs) ==
            HeadsOf(lines, tabs) +
            if |lines| !in tabs && l.Heading? && !InFence(lines, tabs) then [Head(|lines|, l.level, l.text, l.id)] else []
  {
    assert (lines + [l])[..|lines|] == lines;
  }

  /** A line is inside a fence iff an odd number of fence lines stand above it. */
  lemma {:induction false} InFenceIffOdd(lines: seq<Line>, tabs: set<nat>)
    ensures InFence(lines, tabs) <==> |FenceLines(lines, tabs)| % 2 == 1
  {
    if lines == [] {
      assert FenceLines(lines, tabs) == {};
    } else {
      var init, l := lines[..|lines| - 1], lines[|lines| - 1];
      assert lines == init + [l];
      InFenceIffOdd(init, tabs);
      FenceLinesSnoc(init, l, tabs);
      Snoc(init, l, tabs);
    }
  }

  /** In a text without fence lines every heading outside tab structure counts. */
  lemma UnfencedHeads(lines: seq<Line>, tabs: set<nat>, n: nat)
    requires n < |lines| && FenceLines(lines, tabs) == {}
    ensures IsHead(lines, tabs, n) <==> n !in tabs && lines[n].Heading?
  {
    InFenceIffOdd(lines[..n], tabs);
    assert FenceLines(lines[..n], tabs) <= FenceLines(lines, tabs);
  }

  /** The tab lines of what follows `n` lines, counted from there. */
  function TabsBelow(tabs: set<nat>, n: nat): set<nat> { set t | t in tabs && t >= n :: t - n }

  function Down(h: Head, n: nat): Head { h.(line := h.line + n) }

  function MovedDown(heads: seq<Head>, n: nat): seq<Head> {
    seq(|heads|, i requires 0 <= i < |heads| => Down(heads[i], n))
  }

  lemma MovedDownSnoc(heads: seq<Head>, h: Head, n: nat)
    ensures MovedDown(heads + [h], n) == MovedDown(heads, n) + [Down(h, n)]
  {
  }

  lemma BelowIff(tabs: set<nat>, n: nat, m: nat)
    ensures m in TabsBelow(tabs, n) <==> n + m in tabs
  {
    if n + m in tabs {
      assert (n + m) - n == m;
    }
  }

  /** Behind a text whose fences are closed the heads are those of what follows, moved down. */
  lemma {:induction false} HeadsAppend(a: seq<Line>, c: seq<Line>, tabs: set<nat>)
    requires !InFence(a, tabs)
    ensures InFence(a + c, tabs) <==> InFence(c, TabsBelow(tabs, |a|))
    ensures HeadsOf(a + c, tabs) == HeadsOf(a, tabs) + MovedDown(HeadsOf(c, TabsBelow(tabs, |a|)), |a|)
  {
    if c == [] {
      assert a + c == a && MovedDown([], |a|) == [];
    } else {
      var init, l := c[..|c| - 1], c[|c| - 1];
      assert c == init + [l];
      HeadsAppend(a, init, tabs);
      AppendLine(a, init, l, tabs);
    }
  }

  lemma AppendLine(a: seq<Line>, init: seq<Line>, l: Line, tabs: set<nat>)
    requires var below := TabsBelow(tabs, |a|);
             (InFence(a + init, tabs) <==> InFence(init, below)) &&
             HeadsOf(a + init, tabs) == HeadsOf(a, tabs) + MovedDown(HeadsOf(init, below), |a|)
    ensures var below, c := TabsBelow(tabs, |a|), init + [l];
            (InFence(a + c, tabs) <==> InFence(c, below)) &&
            HeadsOf(a + c, tabs) == HeadsOf(a, tabs) + MovedDown(HeadsOf(c, below), |a|)
  {
    var below := TabsBelow(tabs, |a|);
    BelowIff(tabs, |a|, |init|);
    Assoc(a, init, [l]);
    Snoc(a + init, l, tabs);
    Snoc(init, l, below);
    if |init| !in below && l.Heading? && !InFence(init, below) {
      var h := Head(|init|, l.level, l.text, l.id);
      MovedDownSnoc(HeadsOf(init, below), h, |a|);
      Assoc(HeadsOf(a, tabs), MovedDown(HeadsOf(init, below), |a|), [Down(h, |a|)]);
    }
  }

  /** Inside a fence that stays open nothing is a head. */
  lemma {:induction false} FencedHeads(a: seq<Line>, b: seq<Line>, tabs: set<nat>)
    requires InFence(a, tabs) && forall n: nat :: n < |b| && b[n].Fence? ==> |a| + n in tabs
    ensures InFence(a + b, tabs) && HeadsOf(a + b, tabs) == HeadsOf(a, tabs)
  {
    if b == [] {
      assert a + b == a;
    } else {
      var init, l := b[..|b| - 1], b[|b| - 1];
      assert b == init + [l];
      FencedHeads(a, init, tabs);
      Assoc(a, init, [l]);
      Snoc(a + init, l, tabs);
    }
  }

  /** A fenced block hides the headings in it and no others: the heads of the page are those above it, and those of
      what stands below it, moved down. */
  lemma BlockHidesItsHeadings(a: seq<Line>, b: seq<Line>, c: seq<Line>, tabs: set<nat>)
    requires !InFence(a, tabs) && |a| !in tabs && |a| + 1 + |b| !in tabs
    requires forall n: nat :: n < |b| && b[n].Fence? ==> |a| + 1 + n in tabs
    ensures var top := |a| + |b| + 2;
            HeadsOf(a + [Fence] + b + [Fence] + c, tabs) ==
            HeadsOf(a, tabs) + MovedDown(HeadsOf(c, TabsBelow(tabs, top)), top)
  {
    Snoc(a, Fence, tabs);
    FencedHeads(a + [Fence], b, tabs);
    Snoc(a + [Fence] + b, Fence, tabs);
    HeadsAppend(a + [Fence] + b + [Fence], c, tabs);
  }

  // ---- Where a section ends

  /** The first later heading that is no deeper, or the end of the page. */
  predicate EndsAt(heads: seq<Head>, total: nat, i: nat, end: nat)
    requires i < |heads|
  {
    || (end == total && forall j | i < j < |heads| :: heads[j].level > heads[i].level)
    || (exists k | i < k < |heads| :: EndsAtHead(heads, i, k, end))
  }

  predicate EndsAtHead(heads: seq<Head>, i: nat, k: nat, end: nat)
    requires i < k < |heads|
  {
    end == heads[k].line && heads[k].level <= heads[i].level && forall j | i < j < k :: heads[j].level > heads[i].level
  }

  function EndFrom(heads: seq<Head>, total: nat, level: nat, k: nat): nat
    requires k <= |heads|
    decreases |heads| - k
  {
    if k == |heads| then total
    else if heads[k].level <= level then heads[k].line
    else EndFrom(heads, total, level, k + 1)
  }

  function EndOf(heads: seq<Head>, total: nat, i: nat): nat
    requires i < |heads|
  {
    EndFrom(heads, total, heads[i].level, i + 1)
  }

  lemma {:induction false} EndFromEnds(heads: seq<Head>, total: nat, i: nat, k: nat)
    requires i < k <= |heads|
    requires forall j | i < j < k :: heads[j].level > heads[i].level
    ensures EndsAt(heads, total, i, EndFrom(heads, total, heads[i].level, k))
    decreases |heads| - k
  {
    if k < |heads| {
      if heads[k].level <= heads[i].level {
        assert EndsAtHead(heads, i, k, heads[k].line);
      } else {
        EndFromEnds(heads, total, i, k + 1);
      }
    }
  }

  method FindEnd(heads: seq<Head>, total: nat, i: nat) returns (end: nat)
    requires i < |heads|
    ensures end == EndOf(heads, total, i)
  {
    end := total;
    var k := i + 1;
    while k < |heads|
      invariant i < k <= |heads|
      invariant EndOf(heads, total, i) == EndFrom(heads, total, heads[i].level, k)
    {
      if heads[k].level <= heads[i].level {
        end := heads[k].line;
        return;
      }
      k := k + 1;
    }
  }

  // ---- Section ids

  /** How many of `heads` normalise to `id`. */
  function Uses(heads: seq<Head>, id: string): nat {
    if heads == [] then 0
    else Uses(heads[..|heads| - 1], id) + if heads[|heads| - 1].id == id then 1 else 0
  }

  function Suffixed(id: string, k: nat): string {
    if k == 0 then id else id + "-" + Decimal(k)
  }

  function IdOf(heads: seq<Head>, i: nat): string
    requires i < |heads|
  {
    Suffixed(heads[i].id, Uses(heads[..i], heads[i].id))
  }

  function SectionAt(heads: seq<Head>, total: nat, i: nat): Section
    requires i < |heads|
  {
    Section(heads[i].text, heads[i].line + 1, EndOf(heads, total, i))
  }

  /** Every heading's id has a section; where headings share one, the last of them wins. */
  predicate Outlines(out: map<string, Section>, heads: seq<Head>, total: nat, n: nat)
    requires n <= |heads|
  {
    && (forall i | 0 <= i < n :: IdOf(heads, i) in out)
    && (forall id <- out :: exists i | 0 <= i < n :: LastWith(heads, n, i, id) && out[id] == SectionAt(heads, total, i))
  }

  predicate LastWith(heads: seq<Head>, n: nat, i: nat, id: string)
    requires i < n <= |heads|
  {
    IdOf(heads, i) == id && forall j | i < j < n :: IdOf(heads, j) != id
  }

  lemma OutlinesStep(out: map<string, Section>, heads: seq<Head>, total: nat, n: nat)
    requires n < |heads| && Outlines(out, heads, total, n)
    ensures Outlines(out[IdOf(heads, n) := SectionAt(heads, total, n)], heads, total, n + 1)
  {
    var key := IdOf(heads, n);
    var next := out[key := SectionAt(heads, total, n)];
    assert LastWith(heads, n + 1, n, key);
    forall id <- next
      ensures exists i | 0 <= i < n + 1 :: LastWith(heads, n + 1, i, id) && next[id] == SectionAt(heads, total, i)
    {
      if id != key {
        var i :| 0 <= i < n && LastWith(heads, n, i, id) && out[id] == SectionAt(heads, total, i);
        StillLast(heads, n, i, id);
      }
    }
  }

  lemma StillLast(heads: seq<Head>, n: nat, i: nat, id: string)
    requires i < n < |heads| && LastWith(heads, n, i, id) && id != IdOf(heads, n)
    ensures LastWith(heads, n + 1, i, id)
  {
  }

  /** `seen` holds how often each id has been used. */
  ghost predicate Counts(seen: map<string, nat>, heads: seq<Head>) {
    forall id :: (if id in seen then seen[id] else 0) == Uses(heads, id)
  }

  lemma CountsStep(seen: map<string, nat>, heads: seq<Head>, n: nat)
    requires n < |heads| && Counts(seen, heads[..n])
    ensures Counts(seen[heads[n].id := Uses(heads[..n], heads[n].id) + 1], heads[..n + 1])
  {
    assert heads[..n + 1][..n] == heads[..n];
  }

  method Sections(lines: seq<Line>, tabs: set<nat>) returns (out: map<string, Section>)
    ensures var heads := HeadsOf(lines, tabs); Outlines(out, heads, |lines|, |heads|)
  {
    var found := FindHeads(lines, tabs);
    out := map[];
    var seen: map<string, nat> := map[];
    for i := 0 to |found|
      invariant Counts(seen, found[..i])
      invariant Outlines(out, found, |lines|, i)
    {
      var h := found[i];
      var end := FindEnd(found, |lines|, i);
      var k := if h.id in seen then seen[h.id] else 0;
      assert k == Uses(found[..i], h.id);
      CountsStep(seen, found, i);
      OutlinesStep(out, found, |lines|, i);
      assert IdOf(found, i) == Suffixed(h.id, k) && SectionAt(found, |lines|, i) == Section(h.text, h.line + 1, end);
      seen := seen[h.id := k + 1];
      out := out[Suffixed(h.id, k) := Section(h.text, h.line + 1, end)];
    }
  }

  // ---- Sections nest

  /** The lines of a section together with its heading. */
  predicate Covers(heads: seq<Head>, total: nat, i: nat, n: nat)
    requires i < |heads|
  {
    heads[i].line <= n < EndOf(heads, total, i)
  }

  /** A section's body is what it covers but its heading. */
  lemma BodyIsBelowHeading(heads: seq<Head>, total: nat, i: nat, n: nat)
    requires i < |heads|
    ensures var s := SectionAt(heads, total, i); s.from <= n < s.to <==> Covers(heads, total, i, n) && n != heads[i].line
  {
  }

  /** Every section ends after its heading starts, no later than the page. */
  lemma EndBounds(heads: seq<Head>, total: nat, i: nat)
    requires InOrder(heads, total) && i < |heads|
    ensures heads[i].line < EndOf(heads, total, i) <= total
  {
    EndFromEnds(heads, total, i, i + 1);
  }

  /** A later heading lies inside an earlier section exactly when every heading after the earlier one,
      up to it, is deeper. */
  lemma StartsInside(heads: seq<Head>, total: nat, i: nat, j: nat)
    requires InOrder(heads, total) && i < j < |heads|
    ensures heads[j].line < EndOf(heads, total, i) <==> forall m | i < m <= j :: heads[m].level > heads[i].level
  {
    EndFromEnds(heads, total, i, i + 1);
  }

  /** Any two sections are nested or apart, and they nest exactly when the later heading is deeper and
      starts before the earlier section ends. */
  lemma Laminar(heads: seq<Head>, total: nat, i: nat, j: nat)
    requires InOrder(heads, total) && i < j < |heads|
    ensures var nested := heads[j].level > heads[i].level && heads[j].line < EndOf(heads, total, i);
            (nested <==> forall n | Covers(heads, total, j, n) :: Covers(heads, total, i, n)) &&
            (!nested <==> forall n | Covers(heads, total, j, n) :: !Covers(heads, total, i, n))
  {
    StartsInside(heads, total, i, j);
    EndBounds(heads, total, i);
    EndBounds(heads, total, j);
    assert Covers(heads, total, j, heads[j].line);
    if heads[j].line < EndOf(heads, total, i) {
      EndFromEnds(heads, total, i, i + 1);
      EndFromEnds(heads, total, j, j + 1);
      assert EndOf(heads, total, j) <= EndOf(heads, total, i);
    }
  }

  /** A fence line in the section's body, whoever's subsection it is in. */
  predicate HasFence(lines: seq<Line>, s: Section) {
    exists n | s.from <= n < s.to && n < |lines| :: lines[n].Fence?
  }

  /** A fence in a subsection counts for every section that encloses it. */
  lemma FenceCountsForEnclosing(heads: seq<Head>, lines: seq<Line>, i: nat, j: nat)
    requires InOrder(heads, |lines|) && i < j < |heads|
    requires heads[j].line < EndOf(heads, |lines|, i)
    requires HasFence(lines, SectionAt(heads, |lines|, j))
    ensures HasFence(lines, SectionAt(heads, |lines|, i))
  {
    Laminar(heads, |lines|, i, j);
    StartsInside(heads, |lines|, i, j);
    var n :| SectionAt(heads, |lines|, j).from <= n < SectionAt(heads, |lines|, j).to && n < |lines| && lines[n].Fence?;
    assert Covers(heads, |lines|, j, n);
    assert Covers(heads, |lines|, i, n);
  }

  /** The deepest enclosing section of a line is that of the last heading at or before it. */
  lemma LastHeadCovers(heads: seq<Head>, total: nat, j: nat, n: nat)
    requires InOrder(heads, total) && j < |heads| && heads[j].line <= n < total
    requires j + 1 < |heads| ==> n < heads[j + 1].line
    ensures Covers(heads, total, j, n)
    ensures forall i | 0 <= i < |heads| && Covers(heads, total, i, n) :: i <= j && heads[j].level >= heads[i].level
  {
    EndFromEnds(heads, total, j, j + 1);
    forall i | 0 <= i < |heads| && Covers(heads, total, i, n)
      ensures i <= j && heads[j].level >= heads[i].level
    {
      if i < j {
        StartsInside(heads, total, i, j);
      }
    }
  }

  // ---- When every heading keeps its own section

  predicate EachHasItsOwn(out: map<string, Section>, heads: seq<Head>, total: nat) {
    forall i | 0 <= i < |heads| :: IdOf(heads, i) in out && out[IdOf(heads, i)] == SectionAt(heads, total, i)
  }

  /** Some heading's plain id is another heading's numbered id. */
  predicate Clash(heads: seq<Head>) {
    exists i, j | 0 <= i < |heads| && 0 <= j < |heads| :: Clashes(heads, i, j)
  }

  predicate Clashes(heads: seq<Head>, i: nat, j: nat)
    requires i < |heads| && j < |heads|
  {
    Uses(heads[..i], heads[i].id) > 0 && heads[j].id == IdOf(heads, i)
  }

  lemma {:induction false} UsesGrow(heads: seq<Head>, id: string, i: nat, j: nat)
    requires i <= j <= |heads|
    ensures Uses(heads[..i], id) <= Uses(heads[..j], id)
    ensures i < j && heads[i].id == id ==> Uses(heads[..i], id) < Uses(heads[..j], id)
  {
    if i < j {
      assert heads[..j][..j - 1] == heads[..j - 1];
      UsesGrow(heads, id, i, j - 1);
    }
  }

  lemma {:induction false} FirstUse(heads: seq<Head>, j: nat) returns (f: nat)
    requires j < |heads|
    ensures f <= j && heads[f].id == heads[j].id && Uses(heads[..f], heads[f].id) == 0
  {
    if Uses(heads[..j], heads[j].id) == 0 {
      f := j;
    } else {
      var e := Used(heads[..j], heads[j].id);
      f := FirstUse(heads, e);
    }
  }

  lemma {:induction false} Used(heads: seq<Head>, id: string) returns (e: nat)
    requires Uses(heads, id) > 0
    ensures e < |heads| && heads[e].id == id
  {
    var n := |heads| - 1;
    if heads[n].id == id { e := n; } else { e := Used(heads[..n], id); }
  }

  lemma SuffixedInjective(a: string, k: nat, b: string, l: nat)
    requires Suffixed(a, k) == Suffixed(b, l) && k > 0 && l > 0
    ensures a == b && k == l
  {
    DecimalDigits(k);
    DecimalDigits(l);
    var s := Suffixed(a, k);
    assert s[|a|] == '-' && s[|b|] == '-';
    assert '-' !in "0123456789";
    assert forall n | |a| < n < |s| :: s[n] == Decimal(k)[n - |a| - 1] && s[n] != '-';
    assert forall n | |b| < n < |s| :: s[n] == Decimal(l)[n - |b| - 1] && s[n] != '-';
    assert |a| == |b|;
    assert a == s[..|a|] && b == s[..|b|];
    assert Decimal(k) == s[|a| + 1..] && Decimal(l) == s[|b| + 1..];
    DecimalInjective(k, l);
  }

  /** Two headings get different ids, unless one's plain id is the other's numbered one. */
  lemma IdsDiffer(heads: seq<Head>, i: nat, j: nat)
    requires i < j < |heads| && IdOf(heads, i) == IdOf(heads, j)
    ensures Clash(heads)
  {
    var k, l := Uses(heads[..i], heads[i].id), Uses(heads[..j], heads[j].id);
    if heads[i].id == heads[j].id {
      UsesGrow(heads, heads[i].id, i, j);
      SameBaseDiffer(heads[i].id, k, l);
      assert false;
    } else if k > 0 && l > 0 {
      SuffixedInjective(heads[i].id, k, heads[j].id, l);
      assert false;
    } else if k > 0 {
      assert Clashes(heads, i, j);
    } else {
      assert Clashes(heads, j, i);
    }
  }

  lemma SameBaseDiffer(a: string, k: nat, l: nat)
    requires k < l
    ensures Suffixed(a, k) != Suffixed(a, l)
  {
    if k > 0 && Suffixed(a, k) == Suffixed(a, l) {
      SuffixedInjective(a, k, a, l);
    }
  }

  lemma OwnSectionWithoutClash(out: map<string, Section>, heads: seq<Head>, total: nat, i: nat)
    requires Outlines(out, heads, total, |heads|) && !Clash(heads) && i < |heads|
    ensures IdOf(heads, i) in out && out[IdOf(heads, i)] == SectionAt(heads, total, i)
  {
    var id := IdOf(heads, i);
    var m :| 0 <= m < |heads| && LastWith(heads, |heads|, m, id) && out[id] == SectionAt(heads, total, m);
    if i < m {
      IdsDiffer(heads, i, m);
    }
  }

  lemma ClashLosesSection(out: map<string, Section>, heads: seq<Head>, total: nat, i: nat, j: nat)
    requires InOrder(heads, total) && i < |heads| && j < |heads| && Clashes(heads, i, j)
    ensures !EachHasItsOwn(out, heads, total)
  {
    var f := FirstUse(heads, j);
    assert IdOf(heads, f) == IdOf(heads, i) && f != i;
    assert SectionAt(heads, total, f).from != SectionAt(heads, total, i).from;
  }

  /** Every heading keeps its own section exactly when no plain id equals a numbered one. */
  lemma OwnSectionIffNoClash(out: map<string, Section>, heads: seq<Head>, total: nat)
    requires InOrder(heads, total) && Outlines(out, heads, total, |heads|)
    ensures EachHasItsOwn(out, heads, total) <==> !Clash(heads)
  {
    if !Clash(heads) {
      forall i | 0 <= i < |heads|
        ensures IdOf(heads, i) in out && out[IdOf(heads, i)] == SectionAt(heads, total, i)
      {
        OwnSectionWithoutClash(out, heads, total, i);
      }
    } else {
      var i, j :| 0 <= i < |heads| && 0 <= j < |heads| && Clashes(heads, i, j);
      ClashLosesSection(out, heads, total, i, j);
    }
  }

  /** Three headings, two ids: the repeated `a` is lost to the one spelled `a-1`. */
  lemma ClashExample()
    ensures Clash([Head(0, 1, "a", "a"), Head(1, 1, "a", "a"), Head(2, 1, "a-1", "a-1")])
  {
    var heads := [Head(0, 1, "a", "a"), Head(1, 1, "a", "a"), Head(2, 1, "a-1", "a-1")];
    assert heads[..1] == [heads[0]];
    assert Uses([heads[0]], "a") == Uses([heads[0]][..0], "a") + 1;
    assert Uses(heads[..1], "a") == 1;
    assert Decimal(1) == "1";
    assert "a" + "-" + "1" == "a-1";
    assert Clashes(heads, 1, 2);
  }
}
