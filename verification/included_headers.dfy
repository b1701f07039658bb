/** Excused guards, once included headers are read too. */
module IncludedHeaders {
  import opened Text
  import opened Preprocessor
  import opened GuardOrder
  import opened GuardGaps
  import opened Conditionals

  // ------------------------------------------- a file and what it includes

  /** A file's text, with the text of every header at the place that includes it. */
  datatype Source = Source(chunks: seq<Chunk>)

  /** A header is read once: its include guard is an `#ifndef` around all of it whose name its second line defines,
      and a `#pragma once` acts as a guard of a name of its own. */
  datatype Chunk = Own(line: Line) | Include(guard: Option<Guard>, text: Source)

  datatype Guard = Guard(name: Name, value: Expr)

  function Opening(g: Guard): seq<Line> { [Line(Ifndef(g.name), true), Line(Define(g.name, g.value), true)] }

  function Wrapped(guard: Option<Guard>, lines: seq<Line>): seq<Line> {
    match guard
    case None => lines
    case Some(g) => Opening(g) + lines + [Line(Endif, true)]
  }

  /** The lines the compiler reads for the first `i` chunks. */
  function Lines(t: Source, i: nat): seq<Line>
    requires i <= |t.chunks|
    decreases t, i
  {
    if i == 0 then []
    else
      Lines(t, i - 1) +
      match t.chunks[i - 1]
      case Own(l) => [l]
      case Include(g, u) => Wrapped(g, Lines(u, |u.chunks|))
  }

  function Unit(t: Source): seq<Line> { Lines(t, |t.chunks|) }

  /** The file as the order rule reads it: an include says nothing to it. */
  function OwnLines(t: Source): seq<Line> {
    seq(|t.chunks|, i requires 0 <= i < |t.chunks| => if t.chunks[i].Own? then t.chunks[i].line else Line(Other, true))
  }

  /** How many conditionals of the text's own are open in front of chunk `i`. */
  function DepthIn(t: Source, i: nat): nat
    requires i <= |t.chunks|
  {
    if i == 0 then 0
    else match t.chunks[i - 1]
      case Own(l) => Height(DepthIn(t, i - 1), l.dir)
      case Include(_, _) => DepthIn(t, i - 1)
  }

  /** The first `i` chunks define `k`, themselves or in a header. */
  predicate Mentions(t: Source, i: nat, k: Name)
    requires i <= |t.chunks|
    decreases t, i
  {
    i > 0 &&
    (Mentions(t, i - 1, k) ||
     match t.chunks[i - 1]
     case Own(l) => l.dir.Define? && l.dir.name == k
     case Include(_, u) => Mentions(u, |u.chunks|, k))
  }

  /** Every header closes the conditionals it opens, and no others. */
  predicate Closed(t: Source, i: nat)
    requires i <= |t.chunks|
    decreases t, i
  {
    i == 0 ||
    (Closed(t, i - 1) &&
     match t.chunks[i - 1]
     case Own(l) => Ends(l.dir) ==> DepthIn(t, i - 1) > 0
     case Include(_, u) => Closed(u, |u.chunks|) && DepthIn(u, |u.chunks|) == 0)
  }

  /** The chunk before `i` opens a block `#ifndef k` outside any other conditional of its text. */
  predicate BlockOpen(t: Source, i: nat, k: Name) {
    0 < i <= |t.chunks| && t.chunks[i - 1].Own? && t.chunks[i - 1].line.dir == Ifndef(k) && DepthIn(t, i - 1) == 0
  }

  /** Every definition of `k`, in the file or in a header, is unconditional in its own text or in its own `#ifndef`
      block there; `keys` are the include guards of the headers that define it, and nothing else defines those. */
  predicate Tidy(t: Source, i: nat, k: Name, keys: set<Name>)
    requires i <= |t.chunks|
    decreases t, i
  {
    i == 0 ||
    (Tidy(t, i - 1, k, keys) &&
     match t.chunks[i - 1]
     case Own(l) =>
       && l.dir != Undef(k)
       && (forall n <- keys :: Leaves(l.dir, n))
       && (l.dir.Define? && l.dir.name == k ==> DepthIn(t, i - 1) == 0 || BlockOpen(t, i - 1, k))
     case Include(g, u) =>
       && Tidy(u, |u.chunks|, k, keys)
       && (Mentions(u, |u.chunks|, k) ==> DepthIn(t, i - 1) == 0)
       && (g.Some? ==> g.value.name != k && (g.value.name in keys <==> Mentions(u, |u.chunks|, k))))
  }

  // ------------------------------------------- conditionals of a text stay in it

  /** A header behind its include guard: the guard's two lines, the text, the `#endif`. */
  lemma WrappedRun(st: State, g: Guard, lines: seq<Line>)
    ensures RunFrom(st, Wrapped(Some(g), lines)) ==
            Step(RunFrom(Step(Step(st, Ifndef(g.name)), Define(g.name, g.value)), lines), Endif)
  {
    var a := Line(Ifndef(g.name), true);
    var b := Line(Define(g.name, g.value), true);
    RunFromAppend(st, Opening(g), lines);
    RunFromSnoc(st, Opening(g) + lines, Line(Endif, true));
    assert Opening(g) == [] + [a] + [b];
    RunFromSnoc(st, [] + [a], b);
    RunFromSnoc(st, [], a);
  }

  /** The state in which a guarded header's text is entered. */
  function Entered(st: State, g: Guard): State { Step(Step(st, Ifndef(g.name)), Define(g.name, g.value)) }

  lemma EnteredStack(st: State, g: Guard)
    ensures var live := Active(st.stack) && g.name !in st.macros;
            Entered(st, g).stack == st.stack + [Frame(live, live)] &&
            Entered(st, g).macros == if live then st.macros[g.name := g.value] else st.macros
    ensures Active(Entered(st, g).stack) <==> Active(st.stack) && g.name !in st.macros
  {
    var live := Active(st.stack) && g.name !in st.macros;
    ActiveSnoc(st.stack, Frame(live, live));
  }

  lemma LeftStack(st: State, base: State, f: Frame)
    requires st.stack == base.stack + [f]
    ensures Step(st, Endif).stack == base.stack && Step(st, Endif).macros == st.macros
  {
  }

  lemma {:induction false} StackKeeps(t: Source, i: nat, base: State)
    requires i <= |t.chunks| && Closed(t, i)
    ensures Above(RunFrom(base, Lines(t, i)), base, DepthIn(t, i))
    decreases t, i
  {
    if i > 0 {
      StackKeeps(t, i - 1, base);
      var st := RunFrom(base, Lines(t, i - 1));
      match t.chunks[i - 1]
      case Own(l) =>
        RunFromSnoc(base, Lines(t, i - 1), l);
        StepAbove(st, base, DepthIn(t, i - 1), l.dir);
      case Include(g, u) =>
        RunFromAppend(base, Lines(t, i - 1), Wrapped(g, Lines(u, |u.chunks|)));
        StackKeepsHeader(g, u, st);
    }
  }

  /** An included header leaves the stack as it was. */
  lemma {:induction false} StackKeepsHeader(guard: Option<Guard>, u: Source, st: State)
    requires Closed(u, |u.chunks|) && DepthIn(u, |u.chunks|) == 0
    ensures RunFrom(st, Wrapped(guard, Lines(u, |u.chunks|))).stack == st.stack
    decreases u, |u.chunks| + 1
  {
    match guard
    case None =>
      StackKeeps(u, |u.chunks|, st);
      AboveNone(RunFrom(st, Unit(u)), st);
    case Some(g) =>
      WrappedRun(st, g, Unit(u));
      EnteredStack(st, g);
      StackKeeps(u, |u.chunks|, Entered(st, g));
      AboveNone(RunFrom(Entered(st, g), Unit(u)), Entered(st, g));
      LeftStack(RunFrom(Entered(st, g), Unit(u)), st, Entered(st, g).stack[|st.stack|]);
  }

  // ------------------------------------------- a text in a skipped group does nothing

  lemma {:induction false} Skipped(t: Source, i: nat, base: State)
    requires i <= |t.chunks| && Closed(t, i) && !Active(base.stack)
    ensures RunFrom(base, Lines(t, i)).macros == base.macros
    decreases t, i
  {
    if i > 0 {
      Skipped(t, i - 1, base);
      StackKeeps(t, i - 1, base);
      var st := RunFrom(base, Lines(t, i - 1));
      AboveSkipped(st, base, DepthIn(t, i - 1));
      match t.chunks[i - 1]
      case Own(l) =>
        RunFromSnoc(base, Lines(t, i - 1), l);
        StepSkipped(st, l.dir);
      case Include(g, u) =>
        RunFromAppend(base, Lines(t, i - 1), Wrapped(g, Lines(u, |u.chunks|)));
        SkippedInclude(g, u, st);
    }
  }

  lemma {:induction false} SkippedInclude(guard: Option<Guard>, u: Source, st: State)
    requires Closed(u, |u.chunks|) && !Active(st.stack)
    ensures RunFrom(st, Wrapped(guard, Unit(u))).macros == st.macros
    decreases u, |u.chunks| + 1
  {
    match guard
    case None => Skipped(u, |u.chunks|, st);
    case Some(g) =>
      WrappedRun(st, g, Unit(u));
      EnteredStack(st, g);
      Skipped(u, |u.chunks|, Entered(st, g));
  }

  // ------------------------------------------- a text that does not mention a name leaves it alone

  lemma {:induction false} Unmentioned(t: Source, i: nat, k: Name, keys: set<Name>, n: Name)
    requires i <= |t.chunks| && Tidy(t, i, k, keys) && !Mentions(t, i, k) && (n == k || n in keys)
    ensures forall j :: 0 <= j < |Lines(t, i)| ==> Leaves(Lines(t, i)[j].dir, n)
    decreases t, i
  {
    if i > 0 {
      Unmentioned(t, i - 1, k, keys, n);
      match t.chunks[i - 1]
      case Own(l) =>
      case Include(g, u) =>
        Unmentioned(u, |u.chunks|, k, keys, n);
        WrappedLeaves(g, Lines(u, |u.chunks|), n);
    }
  }

  lemma WrappedLeaves(guard: Option<Guard>, lines: seq<Line>, n: Name)
    requires forall j :: 0 <= j < |lines| ==> Leaves(lines[j].dir, n)
    requires guard.Some? ==> guard.value.name != n
    ensures forall j :: 0 <= j < |Wrapped(guard, lines)| ==> Leaves(Wrapped(guard, lines)[j].dir, n)
  {
    if guard.Some? {
      var all := Wrapped(guard, lines);
      forall j | 0 <= j < |all| ensures Leaves(all[j].dir, n) {
        if 2 <= j < |lines| + 2 {
          assert all[j] == lines[j - 2];
        }
      }
    }
  }

  // ------------------------------------------- what the knob stands for

  /** The knob's macro, and the include guards of its headers that have been entered. */
  datatype Standing = Standing(value: Option<Expr>, entered: set<Name>)

  /** The knob's standing behind the first `i` chunks: an unconditional definition replaces it, a default fills it if
      it is empty, and a header that defines the knob counts the first time only. */
  function Track(t: Source, i: nat, s: Standing, k: Name): Standing
    requires i <= |t.chunks|
    decreases t, i
  {
    if i == 0 then s
    else
      var before := Track(t, i - 1, s, k);
      match t.chunks[i - 1]
      case Own(l) => if l.dir.Define? && l.dir.name == k then Defined(before, l.dir.body, DepthIn(t, i - 1)) else before
      case Include(g, u) =>
        if !Mentions(u, |u.chunks|, k) || (g.Some? && g.value.name in before.entered) then before
        else Track(u, |u.chunks|, EnteredBy(before, g), k)
  }

  function Defined(s: Standing, body: Expr, depth: nat): Standing {
    if depth == 0 || s.value.None? then s.(value := Some(body)) else s
  }

  function EnteredBy(s: Standing, g: Option<Guard>): Standing {
    if g.Some? then s.(entered := s.entered + {g.value.name}) else s
  }

  predicate Stands(st: State, s: Standing, k: Name, keys: set<Name>) {
    MacroOf(st.macros, k) == s.value && forall n <- keys :: n in st.macros <==> n in s.entered
  }

  /** One of the text's own lines. */
  lemma OwnStands(t: Source, i: nat, base: State, st: State, s: Standing, k: Name, keys: set<Name>)
    requires i < |t.chunks| && t.chunks[i].Own? && Tidy(t, i + 1, k, keys) && Closed(t, i)
    requires Active(base.stack) && st == RunFrom(base, Lines(t, i)) && Stands(st, s, k, keys)
    ensures var d := t.chunks[i].line.dir;
            Stands(Step(st, d), if d.Define? && d.name == k then Defined(s, d.body, DepthIn(t, i)) else s, k, keys)
  {
    var d := t.chunks[i].line.dir;
    forall n <- keys ensures n in Step(st, d).macros <==> n in st.macros {
      StepLeaves(st, d, n);
    }
    if d.Define? && d.name == k {
      DefineStep(st, d);
      StackKeeps(t, i, base);
      if DepthIn(t, i) == 0 {
        AboveNone(st, base);
      } else {
        BlockActive(t, i, base, k);
      }
    } else {
      StepLeaves(st, d, k);
    }
  }

  /** The line behind `#ifndef k` at the top of a live text is processed iff `k` is not a macro. */
  lemma BlockActive(t: Source, i: nat, base: State, k: Name)
    requires i <= |t.chunks| && BlockOpen(t, i, k) && Closed(t, i) && Active(base.stack)
    ensures var st := RunFrom(base, Lines(t, i)); Active(st.stack) <==> k !in st.macros
  {
    var st := RunFrom(base, Lines(t, i - 1));
    StackKeeps(t, i - 1, base);
    AboveNone(st, base);
    RunFromSnoc(base, Lines(t, i - 1), t.chunks[i - 1].line);
    ActiveSnoc(st.stack, Frame(k !in st.macros, k !in st.macros));
  }

  /** A header that does not define the knob, wherever it is included. */
  lemma QuietHeader(guard: Option<Guard>, u: Source, st: State, s: Standing, k: Name, keys: set<Name>)
    requires Tidy(u, |u.chunks|, k, keys) && !Mentions(u, |u.chunks|, k) && Stands(st, s, k, keys)
    requires guard.Some? ==> guard.value.name != k && guard.value.name !in keys
    ensures Stands(RunFrom(st, Wrapped(guard, Unit(u))), s, k, keys)
  {
    var lines := Wrapped(guard, Unit(u));
    forall n | n == k || n in keys ensures MacroOf(RunFrom(st, lines).macros, n) == MacroOf(st.macros, n) {
      Unmentioned(u, |u.chunks|, k, keys, n);
      WrappedLeaves(guard, Unit(u), n);
      Quiet(lines, st, n);
    }
  }

  /** A header entered before is skipped. */
  lemma SkippedHeader(g: Guard, u: Source, st: State)
    requires Closed(u, |u.chunks|) && DepthIn(u, |u.chunks|) == 0 && g.name in st.macros
    ensures RunFrom(st, Wrapped(Some(g), Unit(u))).macros == st.macros
  {
    WrappedRun(st, g, Unit(u));
    EnteredStack(st, g);
    Skipped(u, |u.chunks|, Entered(st, g));
  }

  lemma EnteredStands(st: State, g: Guard, s: Standing, k: Name, keys: set<Name>)
    requires Active(st.stack) && g.name !in st.macros && g.name != k && g.name in keys && Stands(st, s, k, keys)
    ensures Active(Entered(st, g).stack) && Stands(Entered(st, g), EnteredBy(s, Some(g)), k, keys)
  {
    EnteredStack(st, g);
  }

  /** In every live text the compiler's macro for the knob is the one its standing says. */
  lemma {:induction false} TrackIsRun(t: Source, i: nat, base: State, s: Standing, k: Name, keys: set<Name>)
    requires i <= |t.chunks| && Tidy(t, i, k, keys) && Closed(t, i) && Active(base.stack) && Stands(base, s, k, keys)
    ensures Stands(RunFrom(base, Lines(t, i)), Track(t, i, s, k), k, keys)
    decreases t, i
  {
    if i > 0 {
      TrackIsRun(t, i - 1, base, s, k, keys);
      var st, before := RunFrom(base, Lines(t, i - 1)), Track(t, i - 1, s, k);
      match t.chunks[i - 1]
      case Own(l) =>
        RunFromSnoc(base, Lines(t, i - 1), l);
        assert RunFrom(base, Lines(t, i)) == Step(st, l.dir);
        OwnStands(t, i - 1, base, st, before, k, keys);
      case Include(g, u) =>
        RunFromAppend(base, Lines(t, i - 1), Wrapped(g, Unit(u)));
        assert RunFrom(base, Lines(t, i)) == RunFrom(st, Wrapped(g, Unit(u)));
        LiveAtTop(t, i - 1, base);
        IncludeIsRun(g, u, st, before, k, keys);
    }
  }

  lemma LiveAtTop(t: Source, i: nat, base: State)
    requires i <= |t.chunks| && Closed(t, i) && Active(base.stack)
    ensures DepthIn(t, i) == 0 ==> Active(RunFrom(base, Lines(t, i)).stack)
  {
    StackKeeps(t, i, base);
    if DepthIn(t, i) == 0 {
      AboveNone(RunFrom(base, Lines(t, i)), base);
    }
  }

  /** What an include does to a standing. */
  function Including(guard: Option<Guard>, u: Source, s: Standing, k: Name): Standing {
    if !Mentions(u, |u.chunks|, k) || (guard.Some? && guard.value.name in s.entered) then s
    else Track(u, |u.chunks|, EnteredBy(s, guard), k)
  }

  lemma {:induction false} IncludeIsRun(guard: Option<Guard>, u: Source, st: State, s: Standing, k: Name, keys: set<Name>)
    requires Tidy(u, |u.chunks|, k, keys) && Closed(u, |u.chunks|) && DepthIn(u, |u.chunks|) == 0
    requires guard.Some? ==> guard.value.name != k && (guard.value.name in keys <==> Mentions(u, |u.chunks|, k))
    requires (Mentions(u, |u.chunks|, k) ==> Active(st.stack)) && Stands(st, s, k, keys)
    ensures Stands(RunFrom(st, Wrapped(guard, Unit(u))), Including(guard, u, s, k), k, keys)
    decreases u, |u.chunks| + 2
  {
    if !Mentions(u, |u.chunks|, k) {
      QuietHeader(guard, u, st, s, k, keys);
    } else {
      HeaderIsRun(guard, u, st, s, k, keys);
    }
  }

  lemma {:induction false} HeaderIsRun(guard: Option<Guard>, u: Source, st: State, s: Standing, k: Name, keys: set<Name>)
    requires Tidy(u, |u.chunks|, k, keys) && Closed(u, |u.chunks|) && DepthIn(u, |u.chunks|) == 0
    requires guard.Some? ==> guard.value.name != k && guard.value.name in keys
    requires Active(st.stack) && Stands(st, s, k, keys)
    ensures Stands(RunFrom(st, Wrapped(guard, Unit(u))),
                   if guard.Some? && guard.value.name in s.entered then s
                   else Track(u, |u.chunks|, EnteredBy(s, guard), k), k, keys)
    decreases u, |u.chunks| + 1
  {
    match guard
    case None => TrackIsRun(u, |u.chunks|, st, s, k, keys);
    case Some(g) =>
      if g.name in s.entered {
        SkippedHeader(g, u, st);
      } else {
        EnteredStands(st, g, s, k, keys);
        TrackIsRun(u, |u.chunks|, Entered(st, g), EnteredBy(s, guard), k, keys);
        WrappedRun(st, g, Unit(u));
        StepTouchesEnd(RunFrom(Entered(st, g), Unit(u)));
      }
  }

  lemma StepTouchesEnd(st: State)
    ensures Step(st, Endif).macros == st.macros
  {
  }

  // ------------------------------------------- whether it stands for anything

  /** No header includes itself, through others or directly; its include guard would stop it if it did. */
  predicate Acyclic(t: Source, i: nat, open: set<Name>)
    requires i <= |t.chunks|
    decreases t, i
  {
    i == 0 ||
    (Acyclic(t, i - 1, open) &&
     match t.chunks[i - 1]
     case Own(_) => true
     case Include(g, u) =>
       (g.Some? ==> g.value.name !in open) &&
       Acyclic(u, |u.chunks|, if g.Some? then open + {g.value.name} else open))
  }

  predicate Complete(s: Standing, open: set<Name>) { forall n <- s.entered :: n in open || s.value.Some? }

  /** The knob stands for something exactly when it did before or the chunks define it somewhere. */
  lemma {:induction false} TrackMentions(t: Source, i: nat, s: Standing, k: Name, open: set<Name>)
    requires i <= |t.chunks| && Acyclic(t, i, open) && Complete(s, open)
    ensures var r := Track(t, i, s, k);
            (r.value.Some? <==> s.value.Some? || Mentions(t, i, k)) && Complete(r, open)
    decreases t, i
  {
    if i > 0 {
      TrackMentions(t, i - 1, s, k, open);
      match t.chunks[i - 1]
      case Own(_) =>
      case Include(g, u) =>
        var before := Track(t, i - 1, s, k);
        if Mentions(u, |u.chunks|, k) && !(g.Some? && g.value.name in before.entered) {
          TrackMentions(u, |u.chunks|, EnteredBy(before, g), k, if g.Some? then open + {g.value.name} else open);
        }
    }
  }

  // ------------------------------------------- the excused guard

  /** The order rule lets the knob off although the file does not define it above its guard. */
  predicate Excused(lines: seq<Line>, headers: map<Name, set<string>>, rel: Option<string>, k: Name) {
    FirstGuard(lines, k).Some? && !Ordered(lines, k) && !Offends(lines, headers, rel, k)
  }

  /** A header included above chunk `g` defines `k`, itself or in a header it includes. */
  predicate HeaderAbove(t: Source, k: Name, g: nat) {
    g <= |t.chunks| &&
    exists j :: 0 <= j < g && t.chunks[j].Include? && Mentions(t.chunks[j].text, |t.chunks[j].text.chunks|, k)
  }

  /** The guard at chunk `g` stands outside any conditional of the file, in front of its message. */
  predicate GuardAtOwnTop(t: Source, k: Name, g: nat) {
    g + 1 < |t.chunks| && t.chunks[g].Own? && GuardOf(t.chunks[g].line) == Some(k) && DepthIn(t, g) == 0 &&
    t.chunks[g + 1].Own? && t.chunks[g + 1].line.dir == Error(k)
  }

  /** What the knob stands for at chunk `g`, where the compile does not set it. */
  function HeldAt(t: Source, k: Name, g: nat): Option<Expr>
    requires g <= |t.chunks|
  {
    Track(t, g, Standing(None, {}), k).value
  }

  predicate LowAt(t: Source, ctx: Macros, k: Name, g: nat)
    requires g <= |t.chunks|
  {
    var e := HeldAt(t, k, g);
    e.None? || Eval(e.value, RunFrom(State(ctx, []), Lines(t, g)).macros, {k}) < 1
  }

  lemma {:induction false} LinesPrefix(t: Source, i: nat, j: nat)
    requires i <= j <= |t.chunks|
    ensures Lines(t, i) <= Lines(t, j)
  {
    if i < j {
      LinesPrefix(t, i, j - 1);
    }
  }

  lemma OwnLineAt(t: Source, i: nat)
    requires i < |t.chunks| && t.chunks[i].Own?
    ensures |Lines(t, i)| < |Unit(t)| && Unit(t)[|Lines(t, i)|] == t.chunks[i].line
    ensures Unit(t)[..|Lines(t, i)|] == Lines(t, i) && |Lines(t, i + 1)| == |Lines(t, i)| + 1
  {
    LinesPrefix(t, i + 1, |t.chunks|);
    assert Lines(t, i + 1) == Lines(t, i) + [t.chunks[i].line];
  }

  lemma GuardInUnit(t: Source, ctx: Macros, k: Name, g: nat)
    requires GuardAtOwnTop(t, k, g) && Closed(t, g)
    ensures GuardAtTop(Unit(t), k, |Lines(t, g)|)
    ensures Run(Unit(t), ctx, |Lines(t, g)|) == RunFrom(State(ctx, []), Lines(t, g))
  {
    OwnLineAt(t, g);
    OwnLineAt(t, g + 1);
    RunIsRunFrom(Unit(t), ctx, |Lines(t, g)|);
    StackKeeps(t, g, State(ctx, []));
    DepthIsStackHeight(Unit(t), ctx, |Lines(t, g)|);
  }

  /** A guard at the top of a tidy file fires exactly when the knob reads below 1 there, headers included. */
  lemma TidyGuardFires(t: Source, ctx: Macros, k: Name, keys: set<Name>, g: nat)
    requires GuardAtOwnTop(t, k, g) && Tidy(t, g, k, keys) && Closed(t, g) && k !in ctx && keys !! ctx.Keys
    ensures |Lines(t, g)| < |Unit(t)| && (Fires(Unit(t), ctx, |Lines(t, g)|) <==> LowAt(t, ctx, k, g))
  {
    var base := State(ctx, []);
    GuardInUnit(t, ctx, k, g);
    assert Stands(base, Standing(None, {}), k, keys);
    TrackIsRun(t, g, base, Standing(None, {}), k, keys);
    FiresIff(Unit(t), ctx, k, |Lines(t, g)|);
    GuardCondition(k, RunFrom(base, Lines(t, g)).macros);
  }

  lemma {:induction false} MentionsOwnOrHeader(t: Source, i: nat, k: Name)
    requires i <= |t.chunks|
    ensures Mentions(t, i, k) <==>
            HeaderAbove(t, k, i) || exists j: nat :: j < i && DefinesAt(OwnLines(t), k, j)
  {
    if i > 0 {
      MentionsOwnOrHeader(t, i - 1, k);
      var c := t.chunks[i - 1];
      assert c.Own? && c.line.dir.Define? && c.line.dir.name == k <==> DefinesAt(OwnLines(t), k, i - 1);
    }
  }

  lemma NoOwnDefineAbove(lines: seq<Line>, k: Name, g: nat)
    requires FirstGuard(lines, k) == Some(g + 1) && !Ordered(lines, k)
    requires forall i: nat :: DefinesAt(lines, k, i) ==> lines[i].plain
    ensures forall i: nat :: i < g ==> !DefinesAt(lines, k, i)
  {
    assert KnobName(k);
    DefinesNotAboveFirst(lines, k);
  }

  lemma DefinesNotAboveFirst(lines: seq<Line>, k: Name)
    requires KnobName(k)
    ensures forall i: nat :: DefinesAt(lines, k, i) && lines[i].plain ==>
                               FirstDef(lines, k).Some? && FirstDef(lines, k).value <= i + 1
  {
    forall i: nat | DefinesAt(lines, k, i) && lines[i].plain
      ensures FirstDef(lines, k).Some? && FirstDef(lines, k).value <= i + 1
    {
      assert DefOf(lines[i]) == Some(k);
    }
  }

  /** The excused guard fires at defaults exactly when no header included above it defines the knob, however deep, or
      the knob as the headers leave it reads below 1: which header excused it does not matter. */
  lemma ExcusedGuardFiresIff(t: Source, headers: map<Name, set<string>>, rel: Option<string>, ctx: Macros, k: Name,
                             keys: set<Name>, g: nat)
    requires Excused(OwnLines(t), headers, rel, k) && FirstGuard(OwnLines(t), k) == Some(g + 1)
    requires GuardAtOwnTop(t, k, g) && Tidy(t, g, k, keys) && Closed(t, g) && Acyclic(t, g, {})
    requires k !in ctx && keys !! ctx.Keys
    requires forall i: nat :: DefinesAt(OwnLines(t), k, i) ==> OwnLines(t)[i].plain
    ensures |Lines(t, g)| < |Unit(t)|
    ensures Fires(Unit(t), ctx, |Lines(t, g)|) <==> !HeaderAbove(t, k, g) || LowAt(t, ctx, k, g)
  {
    TidyGuardFires(t, ctx, k, keys, g);
    TrackMentions(t, g, Standing(None, {}), k, {});
    MentionsOwnOrHeader(t, g, k);
    NoOwnDefineAbove(OwnLines(t), k, g);
  }

  // ------------------------------------------- a header that is the reason

  /** A file that includes a header with an include guard, which defines the knob, above its guard. */
  const KNOB_HEADER := Source([Own(Line(Define("K", Num(8)), true))])
  const INCLUDING := Source([Include(Some(Guard("H", Num(1))), KNOB_HEADER), Own(Line(If(Lt(Id("K"), Num(1))), true)),
                             Own(Line(Error("K"), true)), Own(Line(Endif, true))])

  lemma IncludingShape()
    ensures GuardAtOwnTop(INCLUDING, "K", 1) && Tidy(INCLUDING, 1, "K", {"H"}) && Closed(INCLUDING, 1)
    ensures HeldAt(INCLUDING, "K", 1) == Some(Num(8))
  {
    assert Tidy(KNOB_HEADER, 0, "K", {"H"}) && Closed(KNOB_HEADER, 0) && DepthIn(KNOB_HEADER, 0) == 0;
    assert Mentions(KNOB_HEADER, 1, "K") && Tidy(KNOB_HEADER, 1, "K", {"H"}) && Closed(KNOB_HEADER, 1);
    assert DepthIn(KNOB_HEADER, 1) == 0;
    assert Track(KNOB_HEADER, 1, Standing(None, {"H"}), "K") == Standing(Some(Num(8)), {"H"});
    assert {} + {"H"} == {"H"} && "H"[0] != "K"[0];
    assert |KNOB_HEADER.chunks| == 1 && INCLUDING.chunks[0] == Include(Some(Guard("H", Num(1))), KNOB_HEADER);
    assert Track(INCLUDING, 0, Standing(None, {}), "K") == Standing(None, {});
    assert EnteredBy(Standing(None, {}), Some(Guard("H", Num(1)))) == Standing(None, {"H"});
    assert Tidy(INCLUDING, 0, "K", {"H"}) && Closed(INCLUDING, 0) && DepthIn(INCLUDING, 0) == 0;
  }

  /** There the excuse holds: the guard is silent at defaults. */
  lemma GuardedHeaderSilences()
    ensures |Lines(INCLUDING, 1)| < |Unit(INCLUDING)| && !Fires(Unit(INCLUDING), map[], |Lines(INCLUDING, 1)|)
  {
    IncludingShape();
    TidyGuardFires(INCLUDING, map[], "K", {"H"}, 1);
    assert Eval(Num(8), RunFrom(State(map[], []), Lines(INCLUDING, 1)).macros, {"K"}) == 8;
  }
}
