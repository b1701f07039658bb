/** The order rule on headers: files that are one include guard around their text. */
module GuardedFiles {
  import opened Text
  import opened Preprocessor
  import opened GuardOrder
  import opened Conditionals
  import opened IncludedHeaders
  import GuardGaps

  function File(h: Guard, text: seq<Line>): seq<Line> { Wrapped(Some(h), text) }

  lemma FileAt(h: Guard, text: seq<Line>, i: nat)
    requires i <= |text|
    ensures |File(h, text)| == |text| + 3 && File(h, text)[..i + 2] == Opening(h) + text[..i]
    ensures i < |text| ==> File(h, text)[i + 2] == text[i]
    ensures File(h, text)[|text| + 2] == Line(Endif, true)
  {
  }

  /** A file behind an include guard that is not set runs as its text does with the guard's name set. */
  lemma FileRun(h: Guard, text: seq<Line>, cmd: Macros, i: nat)
    requires NoStray(text) && i <= |text| && h.name !in cmd
    ensures |File(h, text)| == |text| + 3
    ensures var top := Run(text, cmd[h.name := h.value], i);
            Run(File(h, text), cmd, i + 2) == State(top.macros, [Frame(true, true)] + top.stack)
  {
    var st := State(cmd, []);
    FileAt(h, text, i);
    RunIsRunFrom(File(h, text), cmd, i + 2);
    RunFromAppend(st, Opening(h), text[..i]);
    OpeningRun(st, h);
    EnteredStack(st, h);
    assert [] + [Frame(true, true)] == [Frame(true, true)];
    TextLifts(text, cmd[h.name := h.value], [Frame(true, true)], i);
  }

  lemma OpeningRun(st: State, h: Guard)
    ensures RunFrom(st, Opening(h)) == Entered(st, h)
  {
    var a, b := Line(Ifndef(h.name), true), Line(Define(h.name, h.value), true);
    assert Opening(h) == [] + [a] + [b];
    RunFromSnoc(st, [] + [a], b);
    RunFromSnoc(st, [], a);
  }

  /** What a compile of the file prints is what one of its text prints, two lines down. */
  lemma FilePrints(h: Guard, text: seq<Line>, cmd: Macros, i: nat)
    requires NoStray(text) && h.name !in cmd
    ensures i + 2 in Diagnostics(File(h, text), cmd) <==> i in Diagnostics(text, cmd[h.name := h.value])
  {
    FileAt(h, text, 0);
    if i < |text| {
      FileAt(h, text, i);
      FileRun(h, text, cmd, i);
      ActiveAbove([Frame(true, true)], Run(text, cmd[h.name := h.value], i).stack);
    }
  }

  lemma FilePrintsNoFurther(h: Guard, text: seq<Line>, cmd: Macros, i: nat)
    requires i in Diagnostics(File(h, text), cmd)
    ensures 2 <= i < |text| + 2 && File(h, text)[i] == text[i - 2]
  {
    FileAt(h, text, 0);
    if 2 <= i < |text| + 2 {
      FileAt(h, text, i - 2);
    }
  }

  lemma FileFires(h: Guard, text: seq<Line>, cmd: Macros, g: nat)
    requires NoStray(text) && h.name !in cmd && g < |text|
    ensures |File(h, text)| == |text| + 3
    ensures Fires(File(h, text), cmd, g + 2) <==> Fires(text, cmd[h.name := h.value], g)
  {
    FileAt(h, text, 0);
    FilePrints(h, text, cmd, g + 1);
  }

  // ------------------------------------------- the rule reads the file as it reads its text

  function Shifted(n: Option<nat>): Option<nat> { if n.Some? then Some(n.value + 2) else None }

  lemma FirstIs(lines: seq<Line>, f: Line -> Option<Name>, k: Name, n: nat)
    requires n < |lines| && f(lines[n]) == Some(k) && forall j :: 0 <= j < n ==> f(lines[j]) != Some(k)
    ensures First(lines, f, k) == Some(n + 1)
  {
  }

  predicate Unread(h: Guard, f: Line -> Option<Name>, k: Name) {
    f(Opening(h)[0]) != Some(k) && f(Opening(h)[1]) != Some(k) && f(Line(Endif, true)) != Some(k)
  }

  /** Line `j` of the file is read as `k` only where it is a line of the text that is. */
  lemma ReadInText(h: Guard, text: seq<Line>, f: Line -> Option<Name>, k: Name, j: nat)
    requires Unread(h, f, k) && j < |File(h, text)|
    ensures f(File(h, text)[j]) == Some(k) <==> 2 <= j < |text| + 2 && f(text[j - 2]) == Some(k)
  {
    FileAt(h, text, if 2 <= j < |text| + 2 then j - 2 else 0);
    if j < 2 {
      assert File(h, text)[j] == Opening(h)[j];
    }
  }

  lemma FirstShifts(h: Guard, text: seq<Line>, f: Line -> Option<Name>, k: Name)
    requires Unread(h, f, k)
    ensures First(File(h, text), f, k) == Shifted(First(text, f, k))
  {
    var all, m := File(h, text), First(text, f, k);
    forall j: nat | j < |all| ensures f(all[j]) == Some(k) <==> 2 <= j < |text| + 2 && f(text[j - 2]) == Some(k) {
      ReadInText(h, text, f, k, j);
    }
    FileAt(h, text, 0);
    if m.Some? {
      FirstIs(all, f, k, m.value + 1);
    }
  }

  lemma RuleReadsText(h: Guard, text: seq<Line>, headers: map<Name, set<string>>, rel: Option<string>, k: Name)
    requires k != h.name
    ensures FirstGuard(File(h, text), k) == Shifted(FirstGuard(text, k))
    ensures FirstDef(File(h, text), k) == Shifted(FirstDef(text, k))
    ensures Offends(File(h, text), headers, rel, k) <==> Offends(text, headers, rel, k)
    ensures Excused(File(h, text), headers, rel, k) <==> Excused(text, headers, rel, k)
  {
    FirstShifts(h, text, GuardOf, k);
    FirstShifts(h, text, DefOf, k);
  }

  /** An excused guard in a header: what is said of a file's own guard holds of one behind the file's include guard. */
  lemma ExcusedGuardInHeaderFiresIff(h: Guard, t: Source, headers: map<Name, set<string>>, rel: Option<string>,
                                     ctx: Macros, k: Name, keys: set<Name>, g: nat)
    requires Excused(File(h, OwnLines(t)), headers, rel, k) && FirstGuard(OwnLines(t), k) == Some(g + 1)
    requires GuardAtOwnTop(t, k, g) && Tidy(t, g, k, keys) && Closed(t, g) && Acyclic(t, g, {}) && NoStray(Unit(t))
    requires k !in ctx && k != h.name && h.name !in ctx && keys !! ctx.Keys + {h.name}
    requires forall i: nat :: GuardGaps.DefinesAt(OwnLines(t), k, i) ==> OwnLines(t)[i].plain
    ensures |Lines(t, g)| + 2 < |File(h, Unit(t))|
    ensures Fires(File(h, Unit(t)), ctx, |Lines(t, g)| + 2) <==>
            !HeaderAbove(t, k, g) || LowAt(t, ctx[h.name := h.value], k, g)
  {
    RuleReadsText(h, OwnLines(t), headers, rel, k);
    ExcusedGuardFiresIff(t, headers, rel, ctx[h.name := h.value], k, keys, g);
    FileFires(h, Unit(t), ctx, |Lines(t, g)|);
  }

  /** The static rule decides the question for headers as well: over all `-D` maps that leave the include guard alone
      a disciplined knob's guards are exact iff the rule is silent about the file, or at each guard above the default
      the default reads below 1 in every such compile that does not set the knob. */
  lemma RuleDecidesExactnessInHeader(h: Guard, text: seq<Line>, k: Name)
    requires Disciplined(text, k) && FirstGuard(text, k).Some? && NoStray(text) && k != h.name
    ensures ExactInFile(h, text, k) <==>
            !Offends(File(h, text), map[], None, k) ||
            forall cmd: Macros, g: nat | h.name !in cmd && k !in cmd && Early(text, k, g) ::
              BelowOne(text, cmd[h.name := h.value], k, g)
  {
    RuleReadsText(h, text, map[], None, k);
    if ExactInFile(h, text, k) {
      forall cmd: Macros, g: nat | h.name !in cmd && k !in cmd && Early(text, k, g)
        ensures BelowOne(text, cmd[h.name := h.value], k, g)
      {
        assert GuardExact(h, text, cmd, k, g);
        FileFires(h, text, cmd, g);
        EarlyGuardAlwaysFires(text, cmd[h.name := h.value], k, g);
      }
    } else {
      var cmd: Macros, g: nat :| h.name !in cmd && g < |text| && GuardOf(text[g]) == Some(k) &&
                                 !GuardExact(h, text, cmd, k, g);
      FileFires(h, text, cmd, g);
      InexactIsEarly(text, cmd[h.name := h.value], k, g);
      EarlyGuardAlwaysFires(text, cmd[h.name := h.value], k, g);
    }
  }

  predicate GuardExact(h: Guard, text: seq<Line>, cmd: Macros, k: Name, g: nat) {
    g < |text| && |File(h, text)| == |text| + 3 &&
    (Fires(File(h, text), cmd, g + 2) <==> BelowOne(text, cmd[h.name := h.value], k, g))
  }

  ghost predicate ExactInFile(h: Guard, text: seq<Line>, k: Name) {
    forall cmd: Macros, g: nat :: h.name !in cmd && g < |text| && GuardOf(text[g]) == Some(k) ==>
                                    GuardExact(h, text, cmd, k, g)
  }

  // ------------------------------------------- the probes

  lemma SilentInFile(h: Guard, text: seq<Line>, ctx: Macros)
    requires NoStray(text) && h.name !in ctx
    ensures SilentAtDefaults(File(h, text), ctx) <==> SilentAtDefaults(text, ctx[h.name := h.value])
  {
    if Diagnostics(text, ctx[h.name := h.value]) != {} {
      var i :| i in Diagnostics(text, ctx[h.name := h.value]);
      FilePrints(h, text, ctx, i);
    }
    if Diagnostics(File(h, text), ctx) != {} {
      var i :| i in Diagnostics(File(h, text), ctx);
      FilePrintsNoFurther(h, text, ctx, i);
      FilePrints(h, text, ctx, i - 2);
    }
  }

  lemma NamedInText(h: Guard, text: seq<Line>, cmd: Macros, k: Name)
    requires NoStray(text) && h.name !in cmd && Blames(text, cmd[h.name := h.value], k)
    ensures Blames(File(h, text), cmd, k)
  {
    var i :| i in Diagnostics(text, cmd[h.name := h.value]) && Names(text[i].dir, k);
    FilePrints(h, text, cmd, i);
    FileAt(h, text, i);
    assert i + 2 in Diagnostics(File(h, text), cmd) && Names(File(h, text)[i + 2].dir, k);
  }

  lemma BlamedInText(h: Guard, text: seq<Line>, cmd: Macros, k: Name, i: nat)
    requires NoStray(text) && h.name !in cmd && i in Diagnostics(File(h, text), cmd) && Names(File(h, text)[i].dir, k)
    ensures Blames(text, cmd[h.name := h.value], k)
  {
    FilePrintsNoFurther(h, text, cmd, i);
    FilePrints(h, text, cmd, i - 2);
    assert i - 2 in Diagnostics(text, cmd[h.name := h.value]) && Names(text[i - 2].dir, k);
  }

  lemma NamedInFile(h: Guard, text: seq<Line>, cmd: Macros, k: Name)
    requires NoStray(text) && h.name !in cmd && Blames(File(h, text), cmd, k)
    ensures Blames(text, cmd[h.name := h.value], k)
  {
    var i :| i in Diagnostics(File(h, text), cmd) && Names(File(h, text)[i].dir, k);
    BlamedInText(h, text, cmd, k, i);
  }

  lemma ZeroInFile(h: Guard, text: seq<Line>, ctx: Macros, k: Name)
    requires NoStray(text) && h.name !in ctx && k != h.name
    ensures FiresAtZero(File(h, text), ctx, k) <==> FiresAtZero(text, ctx[h.name := h.value], k)
  {
    assert ctx[k := Num(0)][h.name := h.value] == ctx[h.name := h.value][k := Num(0)];
    var cmd := ctx[k := Num(0)];
    if Blames(File(h, text), cmd, k) {
      NamedInFile(h, text, cmd, k);
    }
    if Blames(text, cmd[h.name := h.value], k) {
      NamedInText(h, text, cmd, k);
    }
  }

  lemma SameKnobs(h: Guard, text: seq<Line>)
    ensures GuardedKnobs(File(h, text)) == GuardedKnobs(text)
  {
    var all := File(h, text);
    FileAt(h, text, 0);
    assert forall i :: 0 <= i < |text| ==> all[i + 2] == text[i];
    forall k ensures k in GuardedKnobs(all) <==> k in GuardedKnobs(text) {
      if k in GuardedKnobs(all) {
        var i: nat :| i < |all| && GuardOf(all[i]) == Some(k);
        assert GuardOf(text[i - 2]) == Some(k);
      }
      if k in GuardedKnobs(text) {
        var i: nat :| i < |text| && GuardOf(text[i]) == Some(k);
        assert GuardOf(all[i + 2]) == Some(k);
      }
    }
  }

  /** The rule reports no knob of the file, and every default, read at its guards, is at least 1. */
  predicate RuleSilentOnFile(h: Guard, text: seq<Line>, ctx: Macros) {
    && (forall k <- GuardedKnobs(File(h, text)) :: !Offends(File(h, text), map[], None, k))
    && (forall g: nat :: g < |text| && GuardOf(text[g]).Some? ==>
                           !BelowOne(text, ctx[h.name := h.value], GuardOf(text[g]).value, g))
  }

  /** For a header whose text is disciplined the two probes pass iff the rule is silent about the file and every
      default, read at its guards, is at least 1. */
  lemma ProbeAgreesWithRuleInHeader(h: Guard, text: seq<Line>, ctx: Macros)
    requires NoStray(text) && h.name !in ctx && h.name !in GuardedKnobs(text)
    requires AllDisciplined(text, ctx[h.name := h.value])
    ensures ProbePasses(File(h, text), ctx) <==> RuleSilentOnFile(h, text, ctx)
  {
    SameKnobs(h, text);
    SilentInFile(h, text, ctx);
    forall k <- GuardedKnobs(text)
      ensures FiresAtZero(File(h, text), ctx, k) <==> FiresAtZero(text, ctx[h.name := h.value], k)
      ensures Offends(File(h, text), map[], None, k) <==> Offends(text, map[], None, k)
    {
      ZeroInFile(h, text, ctx, k);
      RuleReadsText(h, text, map[], None, k);
    }
    ProbeAgreesWithRule(text, ctx[h.name := h.value]);
  }
}
