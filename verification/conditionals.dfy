/** Conditionals, group by group (section 6.10.1 of ISO/IEC 9899:2011). */
module Conditionals {
  import opened Text
  import opened Preprocessor
  import GuardOrder
  import GuardGaps

  // ------------------------------------------- texts that close what they open

  predicate Ends(d: Directive) { d.Else? || d.Elif? || d.Endif? }

  predicate EndsOwn(text: seq<Line>, i: nat)
    requires i < |text|
  {
    Ends(text[i].dir) ==> Depth(text, i) > 0
  }

  /** The text ends no conditional that it does not open. */
  predicate NoStray(text: seq<Line>) {
    forall i: nat :: i < |text| ==> EndsOwn(text, i)
  }

  /** And it closes those it opens. */
  predicate Whole(text: seq<Line>) { NoStray(text) && Depth(text, |text|) == 0 }

  /** The stack is that of `base` with `n` more frames on top. */
  predicate Above(st: State, base: State, n: nat) {
    |st.stack| == |base.stack| + n && st.stack[..|base.stack|] == base.stack
  }

  lemma StepAbove(st: State, base: State, n: nat, d: Directive)
    requires Above(st, base, n) && (Ends(d) ==> n > 0)
    ensures Above(Step(st, d), base, Height(n, d))
  {
  }

  lemma AboveNone(st: State, base: State)
    requires Above(st, base, 0)
    ensures st.stack == base.stack
  {
  }

  lemma AboveSkipped(st: State, base: State, n: nat)
    requires Above(st, base, n) && !Active(base.stack)
    ensures !Active(st.stack)
  {
    var i :| 0 <= i < |base.stack| && !base.stack[i].live;
    assert st.stack[i] == base.stack[i];
  }

  lemma StepSkipped(st: State, d: Directive)
    requires !Active(st.stack)
    ensures Step(st, d).macros == st.macros
  {
  }

  lemma PrefixRun(st: State, text: seq<Line>, i: nat)
    requires i < |text|
    ensures RunFrom(st, text[..i + 1]) == Step(RunFrom(st, text[..i]), text[i].dir)
  {
    assert text[..i + 1] == text[..i] + [text[i]];
    RunFromSnoc(st, text[..i], text[i]);
  }

  lemma AboveNext(text: seq<Line>, st: State, i: nat)
    requires i < |text| && Above(RunFrom(st, text[..i]), st, Depth(text, i)) && EndsOwn(text, i)
    ensures Above(RunFrom(st, text[..i + 1]), st, Depth(text, i + 1))
  {
    PrefixRun(st, text, i);
    StepAbove(RunFrom(st, text[..i]), st, Depth(text, i), text[i].dir);
  }

  lemma {:induction false} TextKeeps(text: seq<Line>, st: State, i: nat)
    requires NoStray(text) && i <= |text|
    ensures Above(RunFrom(st, text[..i]), st, Depth(text, i))
  {
    if i > 0 {
      TextKeeps(text, st, i - 1);
      assert EndsOwn(text, i - 1);
      AboveNext(text, st, i - 1);
    }
  }

  /** In a skipped group nothing is processed. */
  lemma SkippedAt(text: seq<Line>, st: State, i: nat)
    requires NoStray(text) && i <= |text| && !Active(st.stack)
    ensures !Active(RunFrom(st, text[..i]).stack)
  {
    TextKeeps(text, st, i);
    AboveSkipped(RunFrom(st, text[..i]), st, Depth(text, i));
  }

  lemma {:induction false} SkippedMacros(text: seq<Line>, st: State, i: nat)
    requires NoStray(text) && i <= |text| && !Active(st.stack)
    ensures RunFrom(st, text[..i]).macros == st.macros
  {
    if i > 0 {
      SkippedMacros(text, st, i - 1);
      SkippedAt(text, st, i - 1);
      NothingDefined(text, st, i - 1);
    }
  }

  lemma NothingDefined(text: seq<Line>, st: State, i: nat)
    requires i < |text| && !Active(RunFrom(st, text[..i]).stack)
    ensures RunFrom(st, text[..i + 1]).macros == RunFrom(st, text[..i]).macros
  {
    PrefixRun(st, text, i);
    StepSkipped(RunFrom(st, text[..i]), text[i].dir);
  }

  lemma {:induction false} SkippedPrints(text: seq<Line>, st: State, i: nat)
    requires NoStray(text) && i <= |text| && !Active(st.stack)
    ensures Printed(st, text[..i]) == []
  {
    if i > 0 {
      SkippedPrints(text, st, i - 1);
      SkippedAt(text, st, i - 1);
      SkippedLine(text, st, i - 1);
    }
  }

  lemma SkippedLine(text: seq<Line>, st: State, i: nat)
    requires i < |text| && !Active(RunFrom(st, text[..i]).stack)
    ensures Printed(st, text[..i + 1]) == Printed(st, text[..i])
  {
    PrefixPrinted(st, text, i);
    NothingAdded(Printed(st, text[..i]), RunFrom(st, text[..i]), text[i].dir);
  }

  lemma NothingAdded(printed: seq<Name>, st: State, d: Directive)
    requires !Active(st.stack)
    ensures printed + Message(st, d) == printed
  {
  }

  // ------------------------------------------- the messages of a run

  /** What a line prints, in state `st`. */
  function Message(st: State, d: Directive): seq<Name> {
    if d.Error? && Active(st.stack) then [d.floor] else []
  }

  /** The messages that processing `lines` prints, in order. */
  function Printed(st: State, lines: seq<Line>): seq<Name> {
    if lines == [] then [] else
      var init, l := lines[..|lines| - 1], lines[|lines| - 1];
      Printed(st, init) + Message(RunFrom(st, init), l.dir)
  }

  lemma PrintedSnoc(st: State, lines: seq<Line>, l: Line)
    ensures Printed(st, lines + [l]) == Printed(st, lines) + Message(RunFrom(st, lines), l.dir)
  {
    assert (lines + [l])[..|lines|] == lines;
  }

  lemma PrefixPrinted(st: State, text: seq<Line>, i: nat)
    requires i < |text|
    ensures Printed(st, text[..i + 1]) == Printed(st, text[..i]) + Message(RunFrom(st, text[..i]), text[i].dir)
  {
    assert text[..i + 1] == text[..i] + [text[i]];
    PrintedSnoc(st, text[..i], text[i]);
  }

  lemma {:induction false} PrintedAppend(st: State, a: seq<Line>, b: seq<Line>)
    ensures Printed(st, a + b) == Printed(st, a) + Printed(RunFrom(st, a), b)
  {
    if b == [] {
      assert a + b == a;
    } else {
      var init, l := b[..|b| - 1], b[|b| - 1];
      PrintedAppend(st, a, init);
      AppendLine(st, a, init, l);
      assert b == init + [l];
    }
  }

  lemma AppendLine(st: State, a: seq<Line>, init: seq<Line>, l: Line)
    requires Printed(st, a + init) == Printed(st, a) + Printed(RunFrom(st, a), init)
    ensures Printed(st, a + (init + [l])) == Printed(st, a) + Printed(RunFrom(st, a), init + [l])
  {
    RunFromAppend(st, a, init);
    Assoc(a, init, [l]);
    PrintedSnoc(st, a + init, l);
    PrintedSnoc(RunFrom(st, a), init, l);
    Assoc(Printed(st, a), Printed(RunFrom(st, a), init), Message(RunFrom(RunFrom(st, a), init), l.dir));
  }

  predicate PrintsAt(lines: seq<Line>, cmd: Macros, k: Name, i: nat) {
    i in Diagnostics(lines, cmd) && lines[i].dir == Error(k)
  }

  predicate PrintsBelow(lines: seq<Line>, cmd: Macros, k: Name, n: nat) {
    exists i: nat :: i < n && PrintsAt(lines, cmd, k, i)
  }

  lemma BelowStep(lines: seq<Line>, cmd: Macros, k: Name, n: nat)
    ensures PrintsBelow(lines, cmd, k, n + 1) <==> PrintsBelow(lines, cmd, k, n) || PrintsAt(lines, cmd, k, n)
  {
  }

  /** These are the messages of the diagnostics, line by line. */
  lemma {:induction false} PrintedIffDiagnosed(lines: seq<Line>, cmd: Macros, k: Name, n: nat)
    requires n <= |lines|
    ensures k in Printed(State(cmd, []), lines[..n]) <==> PrintsBelow(lines, cmd, k, n)
  {
    if n > 0 {
      PrintedIffDiagnosed(lines, cmd, k, n - 1);
      PrefixPrinted(State(cmd, []), lines, n - 1);
      MessageIffDiagnosed(lines, cmd, k, n - 1);
      BelowStep(lines, cmd, k, n - 1);
      InEither(k, Printed(State(cmd, []), lines[..n - 1]), Message(RunFrom(State(cmd, []), lines[..n - 1]), lines[n - 1].dir));
    }
  }

  lemma InEither(k: Name, a: seq<Name>, b: seq<Name>)
    ensures k in a + b <==> k in a || k in b
  {
  }

  lemma MessageIffDiagnosed(lines: seq<Line>, cmd: Macros, k: Name, i: nat)
    requires i < |lines|
    ensures k in Message(RunFrom(State(cmd, []), lines[..i]), lines[i].dir) <==> PrintsAt(lines, cmd, k, i)
  {
    RunIsRunFrom(lines, cmd, i);
  }

  // ------------------------------------------- live frames below a text

  lemma ActiveAbove(base: seq<Frame>, s: seq<Frame>)
    requires Active(base)
    ensures Active(base + s) <==> Active(s)
  {
    var all := base + s;
    assert forall i :: 0 <= i < |s| ==> all[|base| + i] == s[i];
  }

  lemma ActiveSnoc(s: seq<Frame>, f: Frame)
    ensures Active(s + [f]) <==> Active(s) && f.live
  {
    assert (s + [f])[|s|] == f;
    assert forall i :: 0 <= i < |s| ==> (s + [f])[i] == s[i];
  }

  /** Live frames below change nothing. */
  lemma StepLifts(st: State, base: seq<Frame>, d: Directive)
    requires Active(base) && (Ends(d) ==> st.stack != [])
    ensures Step(State(st.macros, base + st.stack), d) == State(Step(st, d).macros, base + Step(st, d).stack)
  {
    ActiveAbove(base, st.stack);
    var all := base + st.stack;
    match d
    case If(_) => Assoc(base, st.stack, [Step(st, d).stack[|st.stack|]]);
    case Ifdef(_) => Assoc(base, st.stack, [Step(st, d).stack[|st.stack|]]);
    case Ifndef(_) => Assoc(base, st.stack, [Step(st, d).stack[|st.stack|]]);
    case Elif(_) => TopLifts(st.stack, base);
    case Else => TopLifts(st.stack, base);
    case Endif => TopLifts(st.stack, base);
    case _ =>
  }

  lemma TopLifts(s: seq<Frame>, base: seq<Frame>)
    requires s != []
    ensures var all := base + s; all[..|all| - 1] == base + s[..|s| - 1] && all[|all| - 1] == s[|s| - 1]
    ensures forall f: Frame :: (base + s[..|s| - 1]) + [f] == base + (s[..|s| - 1] + [f])
  {
  }

  lemma {:induction false} TextLifts(text: seq<Line>, m: Macros, base: seq<Frame>, i: nat)
    requires Active(base) && NoStray(text) && i <= |text|
    ensures RunFrom(State(m, base), text[..i]) == State(Run(text, m, i).macros, base + Run(text, m, i).stack)
  {
    if i == 0 {
      assert base + [] == base;
    } else {
      TextLifts(text, m, base, i - 1);
      assert EndsOwn(text, i - 1);
      LineLifts(text, m, base, i - 1);
    }
  }

  lemma LineLifts(text: seq<Line>, m: Macros, base: seq<Frame>, i: nat)
    requires Active(base) && i < |text| && EndsOwn(text, i)
    requires RunFrom(State(m, base), text[..i]) == State(Run(text, m, i).macros, base + Run(text, m, i).stack)
    ensures RunFrom(State(m, base), text[..i + 1]) == State(Run(text, m, i + 1).macros, base + Run(text, m, i + 1).stack)
  {
    PrefixRun(State(m, base), text, i);
    DepthIsStackHeight(text, m, i);
    StepLifts(Run(text, m, i), base, text[i].dir);
  }

  lemma {:induction false} PrintedLifts(text: seq<Line>, m: Macros, base: seq<Frame>, i: nat)
    requires Active(base) && NoStray(text) && i <= |text|
    ensures Printed(State(m, base), text[..i]) == Printed(State(m, []), text[..i])
  {
    if i > 0 {
      PrintedLifts(text, m, base, i - 1);
      PrefixPrinted(State(m, base), text, i - 1);
      PrefixPrinted(State(m, []), text, i - 1);
      MessageLifts(text, m, base, i - 1);
    }
  }

  lemma MessageLifts(text: seq<Line>, m: Macros, base: seq<Frame>, i: nat)
    requires Active(base) && NoStray(text) && i < |text|
    ensures Message(RunFrom(State(m, base), text[..i]), text[i].dir) ==
            Message(RunFrom(State(m, []), text[..i]), text[i].dir)
  {
    RunIsRunFrom(text, m, i);
    TextLifts(text, m, base, i);
    ActiveAbove(base, Run(text, m, i).stack);
  }

  /** What a whole text does in a live state does not depend on the conditionals around it. */
  lemma WholeRun(text: seq<Line>, m: Macros, base: seq<Frame>)
    requires Whole(text) && Active(base)
    ensures RunFrom(State(m, base), text) == State(Run(text, m, |text|).macros, base)
    ensures Printed(State(m, base), text) == Printed(State(m, []), text)
  {
    assert text[..|text|] == text;
    TextLifts(text, m, base, |text|);
    PrintedLifts(text, m, base, |text|);
    DepthIsStackHeight(text, m, |text|);
    assert base + [] == base;
  }

  lemma WholeSkipped(text: seq<Line>, st: State)
    requires Whole(text) && !Active(st.stack)
    ensures RunFrom(st, text) == st && Printed(st, text) == []
  {
    assert text[..|text|] == text;
    SkippedMacros(text, st, |text|);
    SkippedPrints(text, st, |text|);
    TextKeeps(text, st, |text|);
    AboveNone(RunFrom(st, text), st);
  }

  // ------------------------------------------- one conditional

  /** A directive and the group it controls. */
  datatype Group = Group(head: Line, lines: seq<Line>)

  predicate Opens(d: Directive) { d.If? || d.Ifdef? || d.Ifndef? }

  /** What a group's directive asks; `#else` asks nothing. */
  predicate Asks(d: Directive, m: Macros) {
    match d
    case If(c) => Holds(c, m)
    case Elif(c) => Holds(c, m)
    case Ifdef(k) => k in m
    case Ifndef(k) => k !in m
    case _ => true
  }

  /** The groups behind the first, each begun by an `#elif` or the `#else`. */
  predicate Follow(groups: seq<Group>) {
    forall g <- groups :: (g.head.dir.Elif? || g.head.dir.Else?) && Whole(g.lines)
  }

  predicate Conditional(groups: seq<Group>) {
    groups != [] && Opens(groups[0].head.dir) && Whole(groups[0].lines) && Follow(groups[1..])
  }

  /** The conditional as written, down to its `#endif`. */
  function Written(groups: seq<Group>): seq<Line> {
    if groups == [] then [Line(Endif, true)]
    else [groups[0].head] + groups[0].lines + Written(groups[1..])
  }

  /** The lines of the first group whose question is answered yes, if there is one. */
  function Chosen(groups: seq<Group>, m: Macros): seq<Line> {
    if groups == [] then []
    else if Asks(groups[0].head.dir, m) then groups[0].lines
    else Chosen(groups[1..], m)
  }

  /** `a` run in `s` does what `b` does in `t`. */
  predicate SameEffect(s: State, a: seq<Line>, t: State, b: seq<Line>) {
    RunFrom(s, a) == RunFrom(t, b) && Printed(s, a) == Printed(t, b)
  }

  lemma OneLine(st: State, l: Line)
    ensures RunFrom(st, [l]) == Step(st, l.dir) && Printed(st, [l]) == Message(st, l.dir)
  {
    assert [] + [l] == [l];
    RunFromSnoc(st, [], l);
    PrintedSnoc(st, [], l);
  }

  lemma EffectAppend(st: State, a: seq<Line>, b: seq<Line>)
    ensures RunFrom(st, a + b) == RunFrom(RunFrom(st, a), b)
    ensures Printed(st, a + b) == Printed(st, a) + Printed(RunFrom(st, a), b)
  {
    RunFromAppend(st, a, b);
    PrintedAppend(st, a, b);
  }

  /** A group's directive, its lines, and what comes behind it. */
  lemma GroupRun(st: State, g: Group, rest: seq<Group>)
    requires !g.head.dir.Error?
    ensures var in1 := Step(st, g.head.dir); var in2 := RunFrom(in1, g.lines);
            RunFrom(st, Written([g] + rest)) == RunFrom(in2, Written(rest)) &&
            Printed(st, Written([g] + rest)) == Printed(in1, g.lines) + Printed(in2, Written(rest))
  {
    assert ([g] + rest)[1..] == rest;
    var in1 := Step(st, g.head.dir);
    OneLine(st, g.head);
    EffectAppend(st, [g.head], g.lines);
    EffectAppend(st, [g.head] + g.lines, Written(rest));
    assert [] + Printed(in1, g.lines) == Printed(in1, g.lines);
  }

  lemma EndifRun(m: Macros, base: seq<Frame>, f: Frame)
    ensures RunFrom(State(m, base + [f]), [Line(Endif, true)]) == State(m, base)
    ensures Printed(State(m, base + [f]), [Line(Endif, true)]) == []
  {
    var st := State(m, base + [f]);
    OneLine(st, Line(Endif, true));
    assert (base + [f])[..|base|] == base;
  }

  lemma FollowStep(m: Macros, base: seq<Frame>, f: Frame, d: Directive)
    requires d.Elif? || d.Else?
    ensures var live := !f.taken && Asks(d, m);
            Step(State(m, base + [f]), d) == State(m, base + [Frame(live, f.taken || live)])
  {
    assert (base + [f])[..|base|] == base;
  }

  /** A skipped group in front of others. */
  lemma GroupSkipped(st: State, g: Group, rest: seq<Group>)
    requires !g.head.dir.Error? && Whole(g.lines) && !Active(Step(st, g.head.dir).stack)
    ensures SameEffect(st, Written([g] + rest), Step(st, g.head.dir), Written(rest))
  {
    WholeSkipped(g.lines, Step(st, g.head.dir));
    GroupRun(st, g, rest);
    var p := Printed(Step(st, g.head.dir), Written(rest));
    assert [] + p == p;
  }

  /** Once a group has been processed the rest does nothing, and in a skipped conditional no group does anything. */
  lemma {:induction false} RestSkipped(groups: seq<Group>, m: Macros, base: seq<Frame>, f: Frame)
    requires Follow(groups) && (f.taken || !Active(base))
    ensures SameEffect(State(m, base + [f]), Written(groups), State(m, base), [])
  {
    if groups == [] {
      EndifRun(m, base, f);
    } else {
      var g, live := groups[0], !f.taken && Asks(groups[0].head.dir, m);
      var next := Frame(live, f.taken || live);
      assert groups == [g] + groups[1..];
      FollowStep(m, base, f, g.head.dir);
      ActiveSnoc(base, next);
      GroupSkipped(State(m, base + [f]), g, groups[1..]);
      RestSkipped(groups[1..], m, base, next);
    }
  }

  /** A group that is processed, and the groups behind it. */
  lemma GroupTaken(st: State, g: Group, rest: seq<Group>, m: Macros, base: seq<Frame>)
    requires !g.head.dir.Error? && Whole(g.lines) && Follow(rest) && Active(base)
    requires Step(st, g.head.dir) == State(m, base + [Frame(true, true)])
    ensures SameEffect(st, Written([g] + rest), State(m, base), g.lines)
  {
    ActiveSnoc(base, Frame(true, true));
    WholeRun(g.lines, m, base);
    WholeRun(g.lines, m, base + [Frame(true, true)]);
    RestSkipped(rest, Run(g.lines, m, |g.lines|).macros, base, Frame(true, true));
    GroupRun(st, g, rest);
    var p := Printed(State(m, base), g.lines);
    assert p + [] == p;
  }

  lemma {:induction false} FollowResolves(groups: seq<Group>, m: Macros, base: seq<Frame>)
    requires Follow(groups) && Active(base)
    ensures SameEffect(State(m, base + [Frame(false, false)]), Written(groups), State(m, base), Chosen(groups, m))
  {
    if groups == [] {
      EndifRun(m, base, Frame(false, false));
    } else {
      var g, st := groups[0], State(m, base + [Frame(false, false)]);
      assert groups == [g] + groups[1..];
      FollowStep(m, base, Frame(false, false), g.head.dir);
      if Asks(g.head.dir, m) {
        GroupTaken(st, g, groups[1..], m, base);
      } else {
        ActiveSnoc(base, Frame(false, false));
        GroupSkipped(st, g, groups[1..]);
        FollowResolves(groups[1..], m, base);
      }
    }
  }

  lemma OpenStep(st: State, d: Directive)
    requires Opens(d)
    ensures var live := Active(st.stack) && Asks(d, st.macros);
            Step(st, d) == State(st.macros, st.stack + [Frame(live, live)])
  {
  }

  /** In a live state a conditional does what its first group does whose question is answered yes in the macros in front
      of it, `#else` included: to the macros, to the stack, and in the messages printed. */
  lemma ConditionalResolves(groups: seq<Group>, st: State)
    requires Conditional(groups) && Active(st.stack)
    ensures SameEffect(st, Written(groups), st, Chosen(groups, st.macros))
  {
    var g := groups[0];
    assert groups == [g] + groups[1..];
    OpenStep(st, g.head.dir);
    if Asks(g.head.dir, st.macros) {
      GroupTaken(st, g, groups[1..], st.macros, st.stack);
    } else {
      ActiveSnoc(st.stack, Frame(false, false));
      GroupSkipped(st, g, groups[1..]);
      FollowResolves(groups[1..], st.macros, st.stack);
    }
  }

  /** In a skipped group it does nothing, whatever it asks. */
  lemma ConditionalSkipped(groups: seq<Group>, st: State)
    requires Conditional(groups) && !Active(st.stack)
    ensures SameEffect(st, Written(groups), st, [])
  {
    var g := groups[0];
    assert groups == [g] + groups[1..];
    OpenStep(st, g.head.dir);
    ActiveSnoc(st.stack, Frame(false, false));
    GroupSkipped(st, g, groups[1..]);
    RestSkipped(groups[1..], st.macros, st.stack, Frame(false, false));
  }

  /** What is left of a conditional in state `st`. */
  function Resolved(groups: seq<Group>, st: State): seq<Line> {
    if Active(st.stack) then Chosen(groups, st.macros) else []
  }

  lemma SameInContext(st: State, a: seq<Line>, x: seq<Line>, y: seq<Line>, b: seq<Line>)
    requires SameEffect(RunFrom(st, a), x, RunFrom(st, a), y)
    ensures SameEffect(st, a + x + b, st, a + y + b)
  {
    EffectOf(st, a, x, b);
    EffectOf(st, a, y, b);
  }

  lemma EffectOf(st: State, a: seq<Line>, z: seq<Line>, b: seq<Line>)
    ensures var in1 := RunFrom(st, a); var in2 := RunFrom(in1, z);
            RunFrom(st, a + z + b) == RunFrom(in2, b) &&
            Printed(st, a + z + b) == Printed(st, a) + Printed(in1, z) + Printed(in2, b)
  {
    EffectAppend(st, a, z);
    EffectAppend(st, a + z, b);
  }

  lemma PrintedNone(lines: seq<Line>, cmd: Macros)
    ensures Printed(State(cmd, []), lines) == [] <==> GuardOrder.SilentAtDefaults(lines, cmd)
  {
    assert lines[..|lines|] == lines;
    var all := Printed(State(cmd, []), lines);
    if all != [] {
      PrintedIffDiagnosed(lines, cmd, all[0], |lines|);
    }
    if Diagnostics(lines, cmd) != {} {
      var i :| i in Diagnostics(lines, cmd);
      PrintedIffDiagnosed(lines, cmd, lines[i].dir.floor, |lines|);
      assert PrintsAt(lines, cmd, lines[i].dir.floor, i);
    }
  }

  /** A message printed names `k`. */
  predicate Blames(lines: seq<Line>, cmd: Macros, k: Name) {
    exists i <- Diagnostics(lines, cmd) :: GuardOrder.Names(lines[i].dir, k)
  }

  lemma NamesPrinted(lines: seq<Line>, cmd: Macros, k: Name)
    ensures (exists n <- Printed(State(cmd, []), lines) :: GuardOrder.Names(Error(n), k)) <==> Blames(lines, cmd, k)
  {
    assert lines[..|lines|] == lines;
    if n :| n in Printed(State(cmd, []), lines) && GuardOrder.Names(Error(n), k) {
      PrintedIffDiagnosed(lines, cmd, n, |lines|);
    }
    if i :| i in Diagnostics(lines, cmd) && GuardOrder.Names(lines[i].dir, k) {
      assert PrintsAt(lines, cmd, lines[i].dir.floor, i);
      PrintedIffDiagnosed(lines, cmd, lines[i].dir.floor, |lines|);
    }
  }

  lemma SameProbes(x: seq<Line>, y: seq<Line>, cmd: Macros, k: Name)
    requires SameEffect(State(cmd, []), x, State(cmd, []), y)
    ensures GuardOrder.SilentAtDefaults(x, cmd) <==> GuardOrder.SilentAtDefaults(y, cmd)
    ensures Blames(x, cmd, k) <==> Blames(y, cmd, k)
  {
    PrintedNone(x, cmd);
    PrintedNone(y, cmd);
    NamesPrinted(x, cmd, k);
    NamesPrinted(y, cmd, k);
  }

  /** A file with one of its conditionals replaced by the group chosen there. */
  function Reduced(a: seq<Line>, groups: seq<Group>, b: seq<Line>, cmd: Macros): seq<Line> {
    a + Resolved(groups, RunFrom(State(cmd, []), a)) + b
  }

  lemma ReducedRuns(a: seq<Line>, groups: seq<Group>, b: seq<Line>, cmd: Macros)
    requires Conditional(groups)
    ensures SameEffect(State(cmd, []), a + Written(groups) + b, State(cmd, []), Reduced(a, groups, b, cmd))
  {
    var st := RunFrom(State(cmd, []), a);
    if Active(st.stack) {
      ConditionalResolves(groups, st);
    } else {
      ConditionalSkipped(groups, st);
    }
    SameInContext(State(cmd, []), a, Written(groups), Resolved(groups, st), b);
  }

  /** Both probes answer for a file as they do for the reduced one. */
  lemma ProbesReadChosenGroup(a: seq<Line>, groups: seq<Group>, b: seq<Line>, cmd: Macros, k: Name)
    requires Conditional(groups)
    ensures GuardOrder.SilentAtDefaults(a + Written(groups) + b, cmd) <==>
            GuardOrder.SilentAtDefaults(Reduced(a, groups, b, cmd), cmd)
    ensures GuardOrder.FiresAtZero(a + Written(groups) + b, cmd, k) <==>
            GuardOrder.FiresAtZero(Reduced(a, groups, b, cmd[k := Num(0)]), cmd, k)
  {
    var zero := cmd[k := Num(0)];
    ReducedRuns(a, groups, b, cmd);
    ReducedRuns(a, groups, b, zero);
    SameProbes(a + Written(groups) + b, Reduced(a, groups, b, cmd), cmd, k);
    SameProbes(a + Written(groups) + b, Reduced(a, groups, b, zero), zero, k);
  }

  // ------------------------------------------- conditions and definitions

  /** Conditions read as their connectives do, and answer 0 or 1; sums and products are those of the numbers. */
  lemma ConditionsCompose(a: Expr, b: Expr, i: int, j: int, m: Macros)
    ensures Holds(And(a, b), m) <==> Holds(a, m) && Holds(b, m)
    ensures Holds(Or(a, b), m) <==> Holds(a, m) || Holds(b, m)
    ensures Holds(Not(a), m) <==> !Holds(a, m)
    ensures Holds(Eq(a, b), m) <==> !Holds(Lt(a, b), m) && !Holds(Lt(b, a), m)
    ensures Holds(Lt(a, b), m) ==> Holds(Eq(Lt(a, b), Num(1)), m)
    ensures Eval(Add(Num(i), Num(j)), m, {}) == i + j && Eval(Mul(Num(i), Num(j)), m, {}) == i * j
  {
  }

  /** `e` with the number `n` written for the name `k`; `defined` asks for the name itself. */
  function Valued(e: Expr, k: Name, n: int): Expr {
    match e
    case Id(x) => if x == k then Num(n) else e
    case Add(a, b) => Add(Valued(a, k, n), Valued(b, k, n))
    case Mul(a, b) => Mul(Valued(a, k, n), Valued(b, k, n))
    case Lt(a, b) => Lt(Valued(a, k, n), Valued(b, k, n))
    case Eq(a, b) => Eq(Valued(a, k, n), Valued(b, k, n))
    case And(a, b) => And(Valued(a, k, n), Valued(b, k, n))
    case Or(a, b) => Or(Valued(a, k, n), Valued(b, k, n))
    case Not(a) => Not(Valued(a, k, n))
    case _ => e
  }

  /** A name reads as the value of its body, without itself; a name that is no macro reads as 0. */
  function ValueOf(k: Name, m: Macros): int { if k in m then Eval(m[k], m, {k}) else 0 }

  /** A condition holds iff it does with a name's value written for the name. */
  lemma {:induction false} ValueForName(e: Expr, k: Name, m: Macros)
    ensures Eval(e, m, {}) == Eval(Valued(e, k, ValueOf(k, m)), m, {})
  {
    match e
    case Id(x) => assert {} + {x} == {x};
    case Add(a, b) => ValueForName(a, k, m); ValueForName(b, k, m);
    case Mul(a, b) => ValueForName(a, k, m); ValueForName(b, k, m);
    case Lt(a, b) => ValueForName(a, k, m); ValueForName(b, k, m);
    case Eq(a, b) => ValueForName(a, k, m); ValueForName(b, k, m);
    case And(a, b) => ValueForName(a, k, m); ValueForName(b, k, m);
    case Or(a, b) => ValueForName(a, k, m); ValueForName(b, k, m);
    case Not(a) => ValueForName(a, k, m);
    case _ =>
  }

  /** A macro whose body is a number stands for it, and one whose body is its own name reads as 0. */
  lemma PlainValues(k: Name, n: int, m: Macros)
    ensures ValueOf(k, m[k := Num(n)]) == n && ValueOf(k, m[k := Id(k)]) == 0 && ValueOf(k, m - {k}) == 0
  {
  }

  lemma {:induction false} Quiet(lines: seq<Line>, st: State, n: Name)
    requires forall i :: 0 <= i < |lines| ==> GuardGaps.Leaves(lines[i].dir, n)
    ensures GuardOrder.MacroOf(RunFrom(st, lines).macros, n) == GuardOrder.MacroOf(st.macros, n)
  {
    if lines != [] {
      Quiet(lines[..|lines| - 1], st, n);
      GuardGaps.StepLeaves(RunFrom(st, lines[..|lines| - 1]), lines[|lines| - 1].dir, n);
    }
  }

  /** The last line of a live text that says anything about a name decides it. */
  lemma LastLineDecides(st: State, d: Directive, plain: bool, quiet: seq<Line>, k: Name)
    requires Active(st.stack) && (d == Undef(k) || (d.Define? && d.name == k))
    requires forall i :: 0 <= i < |quiet| ==> GuardGaps.Leaves(quiet[i].dir, k)
    ensures var m := RunFrom(st, [Line(d, plain)] + quiet).macros;
            if d.Undef? then k !in m else k in m && m[k] == d.body
  {
    RunFromAppend(st, [Line(d, plain)], quiet);
    OneLine(st, Line(d, plain));
    Quiet(quiet, Step(st, d), k);
  }
}
