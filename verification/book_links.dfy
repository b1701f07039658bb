/** Links between the two books' deployed pages (scripts/check-book-links.py). */
module BookLinks {
  import opened Text
  import opened PosixPaths

  // ------------------------------------------------------------- deploy URLs

  /** Where each book's pages are served, and the directory of their sources. */
  const DEPLOY: seq<(string, string)> := [("internals/", "book-internals/src"), ("", "book/src")]

  /** Index of the last dot, or -1. */
  function LastDot(name: string): (i: int)
    ensures -1 <= i < |name|
    ensures i >= 0 ==> name[i] == '.'
  {
    if name == "" then -1
    else if name[|name| - 1] == '.' then |name| - 1
    else LastDot(name[..|name| - 1])
  }

  /** `PurePosixPath(name).with_suffix(suffix)` on a file name. */
  function SuffixName(name: string, suffix: string): string {
    var i := LastDot(name);
    if 0 < i < |name| - 1 then name[..i] + suffix else name + suffix
  }

  /** A dot at either end of a name starts no suffix. */
  lemma {:induction false} NoSuffix(name: string, suffix: string)
    requires '.' !in name
    ensures SuffixName(name + ".", suffix) == name + "." + suffix
    ensures SuffixName("." + name, suffix) == "." + name + suffix
  {
    LastDotOf("", name);
    assert "" + "." + name == "." + name;
  }

  lemma {:induction false} LastDotOf(stem: string, ext: string)
    requires '.' !in ext
    ensures LastDot(stem + "." + ext) == |stem|
  {
    var name := stem + "." + ext;
    if ext != "" {
      assert name[..|name| - 1] == stem + "." + ext[..|ext| - 1];
      LastDotOf(stem, ext[..|ext| - 1]);
    }
  }

  function Kept(cs: seq<string>): seq<string> {
    if cs == [] then []
    else (if cs[0] == "" || cs[0] == "." then [] else [cs[0]]) + Kept(cs[1..])
  }

  function WithSuffix(p: string, suffix: string): string {
    var cs := Kept(SplitOn(p, "/"));
    RootOf(p) + if cs == [] then "" else Join(cs[..|cs| - 1] + [SuffixName(cs[|cs| - 1], suffix)], "/")
  }

  function DeployIn(rel: string, table: seq<(string, string)>): Option<string> {
    if table == [] then None
    else if table[0].1 + "/" <= rel then
      Some(table[0].0 + WithSuffix(rel[|table[0].1| + 1..], ".html"))
    else DeployIn(rel, table[1..])
  }

  /** None where the script raises. */
  function DeployUrl(rel: string): Option<string> { DeployIn(rel, DEPLOY) }

  method ComputeDeployUrl(rel: string) returns (url: Option<string>)
    ensures url == DeployUrl(rel)
  {
    for i := 0 to |DEPLOY|
      invariant DeployIn(rel, DEPLOY[i..]) == DeployUrl(rel)
    {
      var (prefix, src) := DEPLOY[i];
      if src + "/" <= rel {
        return Some(prefix + WithSuffix(rel[|src| + 1..], ".html"));
      }
      assert DEPLOY[i..][1..] == DEPLOY[i + 1..];
    }
    return None;
  }

  function Candidates(url: string, table: seq<(string, string)>): seq<string> {
    if table == [] then [] else
      Candidates(url, table[..|table| - 1]) +
      var (prefix, src) := table[|table| - 1];
      if prefix <= url then [src + "/" + WithSuffix(url[|prefix|..], ".md")] else []
  }

  /** The URL a link written on page `rel` names. */
  function LinkedUrl(rel: string, link: string): string
    requires DeployUrl(rel).Some?
  {
    Normpath(JoinPath(Dirname(DeployUrl(rel).value), link))
  }

  method CrossBookSources(rel: string, link: string) returns (out: seq<string>)
    requires DeployUrl(rel).Some?
    ensures out == if EndsWith(link, ".html") then Candidates(LinkedUrl(rel, link), DEPLOY) else []
  {
    if !EndsWith(link, ".html") {
      return [];
    }
    var here := ComputeDeployUrl(rel);
    var url := NormalizePath(JoinPath(Dirname(here.value), link));
    out := CollectCandidates(url, DEPLOY);
  }

  method CollectCandidates(url: string, table: seq<(string, string)>) returns (out: seq<string>)
    ensures out == Candidates(url, table)
  {
    out := [];
    for i := 0 to |table|
      invariant out == Candidates(url, table[..i])
    {
      assert table[..i + 1][..i] == table[..i];
      var (prefix, src) := table[i];
      if prefix <= url {
        out := out + [src + "/" + WithSuffix(url[|prefix|..], ".md")];
      }
    }
    assert table[..|table|] == table;
  }

  // ------------------------------------------------------------- pages

  datatype Book = User | Internals

  /** A page of a book: directories, then a file name without its `.md`. */
  datatype Page = Page(book: Book, dirs: seq<string>, stem: string)

  predicate IsPage(p: Page) { AllOrdinary(p.dirs) && p.stem != "" && '/' !in p.stem }

  function Source(b: Book): string { if b.User? then "book/src" else "book-internals/src" }
  function Prefix(b: Book): string { if b.User? then "" else "internals/" }

  function RelOf(p: Page): string { Source(p.book) + "/" + Join(p.dirs + [p.stem + ".md"], "/") }

  function UrlDirs(p: Page): seq<string> { (if p.book.User? then [] else ["internals"]) + p.dirs }
  function UrlComps(p: Page): seq<string> { UrlDirs(p) + [p.stem + ".html"] }
  function Url(p: Page): string { Join(UrlComps(p), "/") }

  lemma SuffixSwaps(stem: string, ext: string, suffix: string)
    requires stem != "" && ext != "" && '.' !in ext
    ensures SuffixName(stem + "." + ext, suffix) == stem + suffix
  {
    LastDotOf(stem, ext);
    assert (stem + "." + ext)[..|stem|] == stem;
  }

  lemma {:induction false} KeptOrdinary(cs: seq<string>)
    requires AllOrdinary(cs)
    ensures Kept(cs) == cs
  {
    if cs != [] {
      assert Ordinary(cs[0]);
      KeptOrdinary(cs[1..]);
    }
  }

  predicate FileExt(ext: string) { ext != "" && '.' !in ext && '/' !in ext }

  lemma NameIsOrdinary(stem: string, ext: string)
    requires stem != "" && '/' !in stem && FileExt(ext)
    ensures Ordinary(stem + "." + ext)
  {
    var name := stem + "." + ext;
    assert |name| >= 3;
    assert |name| > 2 && name != ".." && name != ".";
  }

  /** `with_suffix` on a path of ordinary directories and a named file. */
  lemma WithSuffixSwaps(dirs: seq<string>, stem: string, ext: string, suffix: string)
    requires AllOrdinary(dirs) && stem != "" && '/' !in stem && FileExt(ext)
    ensures WithSuffix(Join(dirs + [stem + "." + ext], "/"), suffix) == Join(dirs + [stem + suffix], "/")
  {
    var cs := dirs + [stem + "." + ext];
    NameIsOrdinary(stem, ext);
    SplitJoin(cs, '/');
    KeptOrdinary(cs);
    SuffixSwaps(stem, ext, suffix);
    JoinOrdinaryIsRelative(cs);
    assert cs[..|cs| - 1] == dirs;
  }

  lemma UrlPrefix(p: Page)
    ensures Url(p) == Prefix(p.book) + Join(p.dirs + [p.stem + ".html"], "/")
  {
    var inner := p.dirs + [p.stem + ".html"];
    if p.book.Internals? {
      assert UrlComps(p) == ["internals"] + inner;
      assert UrlComps(p)[1..] == inner;
      assert "internals" + "/" == "internals/";
    } else {
      assert UrlComps(p) == inner;
    }
  }

  lemma SourcesDiffer(tail: string)
    ensures !("book-internals/src" + "/" <= "book/src" + "/" + tail)
  {
    assert ("book/src" + "/" + tail)[4] == '/' && ("book-internals/src" + "/")[4] == '-';
  }

  lemma DeployOfPage(p: Page)
    requires IsPage(p)
    ensures DeployUrl(RelOf(p)) == Some(Url(p))
  {
    var tail := Join(p.dirs + [p.stem + ".md"], "/");
    assert ".md" == "." + "md" && ".html" == "." + "html";
    assert p.stem + ".md" == p.stem + "." + "md";
    WithSuffixSwaps(p.dirs, p.stem, "md", ".html");
    UrlPrefix(p);
    assert RelOf(p)[|Source(p.book)| + 1..] == tail;
    var made := Some(Prefix(p.book) + WithSuffix(tail, ".html"));
    if p.book.User? {
      SourcesDiffer(tail);
      assert DeployUrl(RelOf(p)) == DeployIn(RelOf(p), DEPLOY[1..]);
      assert DEPLOY[1..][0] == ("", "book/src");
      assert DeployIn(RelOf(p), DEPLOY[1..]) == made;
    } else {
      assert DeployIn(RelOf(p), DEPLOY) == made;
    }
  }

  lemma UrlIsOrdinary(p: Page)
    requires IsPage(p)
    ensures AllOrdinary(UrlComps(p)) && AllOrdinary(UrlDirs(p))
  {
    assert p.stem + ".html" == p.stem + "." + "html";
    NameIsOrdinary(p.stem, "html");
    assert Ordinary("internals");
  }

  // ------------------------------------------------------------- the directory of a URL

  lemma {:induction false} HeadOfFile(dir: string, name: string)
    requires '/' !in name
    ensures HeadOf(dir + "/" + name) == dir + "/"
  {
    var p := dir + "/" + name;
    if name == "" {
      assert p == dir + "/";
    } else {
      assert p[..|p| - 1] == dir + "/" + name[..|name| - 1];
      HeadOfFile(dir, name[..|name| - 1]);
    }
  }

  lemma {:induction false} HeadOfBare(name: string)
    requires '/' !in name
    ensures HeadOf(name) == ""
  {
    if name != "" {
      HeadOfBare(name[..|name| - 1]);
    }
  }

  lemma JoinEnds(cs: seq<string>)
    requires cs != [] && AllOrdinary(cs)
    ensures Join(cs, "/") != "" && Join(cs, "/")[|Join(cs, "/")| - 1] != '/'
  {
    var init, last := cs[..|cs| - 1], cs[|cs| - 1];
    assert Ordinary(last);
    if init != [] {
      JoinLast(init, last, "/");
      assert cs == init + [last];
    }
  }

  /** The directory of a joined path is the join of its directories. */
  lemma DirnameOfJoin(dirs: seq<string>, name: string)
    requires AllOrdinary(dirs) && '/' !in name
    ensures Dirname(Join(dirs + [name], "/")) == Join(dirs, "/")
  {
    if dirs == [] {
      HeadOfBare(name);
      assert dirs + [name] == [name];
    } else {
      var dir := Join(dirs, "/");
      JoinLast(dirs, name, "/");
      HeadOfFile(dir, name);
      JoinEnds(dirs);
      assert (dir + "/")[|dir| - 1] != '/' && (dir + "/")[|dir| - 1] in dir + "/";
      StripRightPadding(dir, "/", {'/'});
    }
  }

  lemma DirInSite(dirs: seq<string>)
    requires AllOrdinary(dirs)
    ensures InSite(Join(dirs, "/")) && SiteComps(Join(dirs, "/")) == dirs
    ensures Join(dirs, "/") != "" ==> !EndsWith(Join(dirs, "/"), "/")
  {
    if dirs == [] {
      assert SplitOn("", "/") == [""];
      assert PushAll([], [""], false) == PushAll(Push([], "", false), [], false);
    } else {
      SplitJoin(dirs, '/');
      PushOrdinary([], dirs, false);
      assert [] + dirs == dirs;
      assert Ordinary(dirs[0]);
      JoinOrdinaryIsRelative(dirs);
      JoinEnds(dirs);
    }
  }

  // ------------------------------------------------------------- links between pages

  /** The link the generators write from page `q` to page `p`. */
  function LinkTo(p: Page, q: Page, cwd: seq<string>): string { Relpath(Url(p), Dirname(Url(q)), cwd) }

  /** Page `p`'s file is, as a URL, a directory above page `q`: `a.md` beside `a.html/b.md`. */
  predicate Above(p: Page, q: Page) { UrlComps(p) <= UrlDirs(q) }

  lemma {:induction false} CommonIsPrefix(start: seq<string>, target: seq<string>)
    ensures Common(start, target) == |target| <==> target <= start
  {
    if start != [] && target != [] && start[0] == target[0] {
      CommonIsPrefix(start[1..], target[1..]);
      assert start == [start[0]] + start[1..] && target == [target[0]] + target[1..];
    }
  }

  lemma LinkDirectory(q: Page)
    requires IsPage(q)
    ensures Dirname(Url(q)) == Join(UrlDirs(q), "/")
    ensures InSite(Dirname(Url(q))) && SiteComps(Dirname(Url(q))) == UrlDirs(q)
    ensures Dirname(Url(q)) != "" ==> !EndsWith(Dirname(Url(q)), "/")
  {
    UrlIsOrdinary(q);
    DirnameOfJoin(UrlDirs(q), q.stem + ".html");
    DirInSite(UrlDirs(q));
  }

  lemma RelCompsEnd(target: seq<string>, start: seq<string>)
    requires Common(start, target) < |target|
    ensures var rel := RelComps(target, start);
            rel != [] && rel == rel[..|rel| - 1] + [target[|target| - 1]]
  {
  }

  lemma EndsWithHtml(stem: string)
    ensures EndsWith(stem + ".html", ".html")
  {
  }

  lemma LinkEndsInHtml(p: Page, q: Page, cwd: seq<string>)
    requires IsPage(p) && IsPage(q)
    ensures EndsWith(LinkTo(p, q, cwd), ".html") <==> !Above(p, q)
  {
    var target, start := UrlComps(p), UrlDirs(q);
    UrlIsOrdinary(p);
    UrlIsOrdinary(q);
    LinkDirectory(q);
    RelpathInSite(target, Dirname(Url(q)), cwd);
    CommonIsPrefix(start, target);
    var n := Common(start, target);
    var rel := RelComps(target, start);
    if n == |target| {
      assert rel == Ups(|start| - n);
      UpsEnd(|start| - n);
    } else {
      var last := p.stem + ".html";
      RelCompsEnd(target, start);
      EndsWithHtml(p.stem);
      JoinSuffix(rel[..|rel| - 1], last, ".html");
    }
  }

  lemma SuffixOfLonger(head: string, last: string, suffix: string)
    requires EndsWith(last, suffix)
    ensures EndsWith(head + last, suffix)
  {
    var j := head + last;
    assert j[|j| - |suffix|..] == last[|last| - |suffix|..];
  }

  lemma JoinSuffix(init: seq<string>, last: string, suffix: string)
    requires EndsWith(last, suffix)
    ensures EndsWith(Join(init + [last], "/"), suffix)
  {
    if init == [] {
      assert init + [last] == [last];
    } else {
      JoinLast(init, last, "/");
      SuffixOfLonger(Join(init, "/") + "/", last, suffix);
    }
  }

  lemma UpsEnd(n: nat)
    ensures !EndsWith(if Ups(n) == [] then "." else Join(Ups(n), "/"), ".html")
  {
    if n > 0 {
      var init := Ups(n - 1);
      assert Ups(n) == init + [UP];
      if n > 1 {
        JoinLast(init, UP, "/");
      }
      var j := Join(Ups(n), "/");
      assert j[|j| - 1] == '.';
    }
  }

  lemma UrlCandidates(p: Page)
    requires IsPage(p)
    ensures RelOf(p) in Candidates(Url(p), DEPLOY)
  {
    UrlPrefix(p);
    assert p.stem + ".html" == p.stem + "." + "html";
    WithSuffixSwaps(p.dirs, p.stem, "html", ".md");
    var inner := Join(p.dirs + [p.stem + ".html"], "/");
    assert Url(p)[|Prefix(p.book)|..] == inner;
    var cand := Source(p.book) + "/" + WithSuffix(inner, ".md");
    assert cand == RelOf(p);
    assert DEPLOY[..1] == [("internals/", "book-internals/src")];
    assert DEPLOY[..1][..0] == [];
    if p.book.Internals? {
      assert cand in Candidates(Url(p), DEPLOY[..1]);
    }
  }

  /** A generated link read back from its page finds its target among the candidate sources,
      for every pair of pages, unless the target's URL is a directory of the reader's: then
      `relpath` yields no `.html` name and the checker looks nowhere. */
  lemma LinkFindsItsPage(p: Page, q: Page, cwd: seq<string>)
    requires IsPage(p) && IsPage(q)
    ensures DeployUrl(RelOf(q)) == Some(Url(q))
    ensures var link := LinkTo(p, q, cwd);
            (EndsWith(link, ".html") && RelOf(p) in Candidates(LinkedUrl(RelOf(q), link), DEPLOY)) <==> !Above(p, q)
  {
    DeployOfPage(q);
    LinkEndsInHtml(p, q, cwd);
    LinkDirectory(q);
    UrlIsOrdinary(p);
    NormalisedJoinUndoesRelpath(UrlComps(p), Dirname(Url(q)), cwd);
    UrlCandidates(p);
  }

  /** Two pages share a deploy URL exactly when they are one page, or a user page under
      `internals/` and the Internals page of the same path: the overlap the audience gate
      forbids is the only one there is. */
  lemma UrlsCollideIff(p: Page, q: Page)
    requires IsPage(p) && IsPage(q)
    ensures Url(p) == Url(q) <==>
            || p == q
            || (p.book.User? && q.book.Internals? && p.dirs == ["internals"] + q.dirs && p.stem == q.stem)
            || (q.book.User? && p.book.Internals? && q.dirs == ["internals"] + p.dirs && p.stem == q.stem)
  {
    UrlIsOrdinary(p);
    UrlIsOrdinary(q);
    SplitJoin(UrlComps(p), '/');
    SplitJoin(UrlComps(q), '/');
    if Url(p) == Url(q) {
      SameComps(p, q);
    }
    var under := p.book.User? && q.book.Internals? && p.dirs == ["internals"] + q.dirs && p.stem == q.stem;
    var over := q.book.User? && p.book.Internals? && q.dirs == ["internals"] + p.dirs && p.stem == q.stem;
    if p == q || under || over {
      assert UrlDirs(p) == UrlDirs(q);
    }
  }

  lemma SameComps(p: Page, q: Page)
    requires UrlComps(p) == UrlComps(q)
    ensures UrlDirs(p) == UrlDirs(q) && p.stem == q.stem
    ensures p.book == q.book ==> p.dirs == q.dirs
    ensures p.book.User? && q.book.Internals? ==> p.dirs == ["internals"] + q.dirs
    ensures p.book.Internals? && q.book.User? ==> q.dirs == ["internals"] + p.dirs
  {
    var n := |UrlDirs(p)|;
    assert UrlComps(p)[..n] == UrlDirs(p) && UrlComps(q)[..n] == UrlDirs(q);
    assert UrlComps(p)[n] == p.stem + ".html" && UrlComps(q)[n] == q.stem + ".html";
    assert (p.stem + ".html")[..|p.stem|] == p.stem && (q.stem + ".html")[..|q.stem|] == q.stem;
    assert p.book.Internals? ==> UrlDirs(p)[1..] == p.dirs;
    assert q.book.Internals? ==> UrlDirs(q)[1..] == q.dirs;
    assert p.book.User? ==> UrlDirs(p) == p.dirs;
    assert q.book.User? ==> UrlDirs(q) == q.dirs;
  }

  /** Hence with no user page under `book/src/internals/` a URL names one page. */
  lemma UrlIsInjective(p: Page, q: Page)
    requires IsPage(p) && IsPage(q) && Url(p) == Url(q)
    requires p.book.User? ==> p.dirs == [] || p.dirs[0] != "internals"
    requires q.book.User? ==> q.dirs == [] || q.dirs[0] != "internals"
    ensures p == q
  {
    UrlsCollideIff(p, q);
  }
}
