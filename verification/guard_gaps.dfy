/** Where the order rule and the compiler part ways. */
module GuardGaps {
  import opened Text
  import opened Preprocessor
  import opened GuardOrder

  /** Where no included header is the reason, an excuse changes nothing: in a file that includes no header, or
      whose includes are stripped, the guard fires unless the context itself supplies the knob. */
  lemma HeaderExcuseLeavesTheGuardFiring(lines: seq<Line>, headers: map<Name, set<string>>,
                                         rel: Option<string>, ctx: Macros, k: Name)
    requires Disciplined(lines, k) && FirstGuard(lines, k).Some? && !Ordered(lines, k)
    requires !Offends(lines, headers, rel, k) && k !in ctx
    ensures DefinedElsewhere(headers, rel, k) && !SilentAtDefaults(lines, ctx)
  {
    var g := FirstGuard(lines, k).value - 1;
    EarlyGuardAlwaysFires(lines, ctx, k, g);
  }

  /** Line `g` sits inside the first group of an `#ifndef k` opened at line `j`. */
  predicate InsideOwnIfndef(lines: seq<Line>, k: Name, j: nat, g: nat)
    requires j < g <= |lines|
  {
    && lines[j].dir == Ifndef(k)
    && (forall m :: j < m <= g ==> Depth(lines, m) > Depth(lines, j))
    && (forall m :: j < m < g && (lines[m].dir.Else? || lines[m].dir.Elif?) ==>
                      Depth(lines, m) > Depth(lines, j) + 1)
  }

  lemma {:induction false} MacroPersists(lines: seq<Line>, cmd: Macros, k: Name, i: nat)
    requires i <= |lines| && k in cmd
    requires forall m :: 0 <= m < i ==> lines[m].dir != Undef(k)
    ensures k in Run(lines, cmd, i).macros
  {
    if i > 0 {
      MacroPersists(lines, cmd, k, i - 1);
    }
  }

  /** One line leaves every frame below the top alone, and the top one too unless the line
      is `#else`, `#elif` or the `#endif` that closes it. */
  lemma StepKeepsFrame(st: State, d: Directive, h: nat)
    requires h < |st.stack|
    requires h + 1 < |st.stack| || !(d.Else? || d.Elif? || d.Endif?)
    ensures h < |Step(st, d).stack| && Step(st, d).stack[h] == st.stack[h]
  {
  }

  lemma {:induction false} OwnIfndefIsDead(lines: seq<Line>, cmd: Macros, k: Name, j: nat, g: nat)
    requires j < g <= |lines| && InsideOwnIfndef(lines, k, j, g)
    requires k in Run(lines, cmd, j).macros
    ensures |Run(lines, cmd, g).stack| > Depth(lines, j)
    ensures !Run(lines, cmd, g).stack[Depth(lines, j)].live
  {
    DepthIsStackHeight(lines, cmd, j);
    DepthIsStackHeight(lines, cmd, g);
    if g > j + 1 {
      OwnIfndefIsDead(lines, cmd, k, j, g - 1);
      DepthIsStackHeight(lines, cmd, g - 1);
      assert Depth(lines, g) > Depth(lines, j);
      StepKeepsFrame(Run(lines, cmd, g - 1), lines[g - 1].dir, Depth(lines, j));
    }
  }

  /** A guard written inside its knob's own `#ifndef` never fires in a compile that sets the knob, so where
      every message naming the knob is so placed the second probe fails, whatever the rule says. */
  lemma GuardInsideOwnIfndefIsUnreachable(lines: seq<Line>, ctx: Macros, k: Name)
    requires forall m :: 0 <= m < |lines| ==> lines[m].dir != Undef(k)
    requires forall i: nat :: i < |lines| && Names(lines[i].dir, k) ==>
                                exists j: nat :: j < i && InsideOwnIfndef(lines, k, j, i)
    ensures !FiresAtZero(lines, ctx, k)
  {
    var cmd := ctx[k := Num(0)];
    forall i <- Diagnostics(lines, cmd) ensures !Names(lines[i].dir, k) {
      if Names(lines[i].dir, k) {
        var j: nat :| j < i && InsideOwnIfndef(lines, k, j, i);
        MacroPersists(lines, cmd, k, j);
        OwnIfndefIsDead(lines, cmd, k, j, i);
      }
    }
  }

  /** A `#define k` outside any conditional overrides the command line: a guard below it,
      with no other definition between, sees the file's value in every compile. */
  lemma {:induction false} PlainDefineWins(lines: seq<Line>, cmd: Macros, k: Name, j: nat, g: nat)
    requires j < g <= |lines| && lines[j].dir.Define? && lines[j].dir.name == k
    requires Depth(lines, j) == 0
    requires forall m :: j < m < g ==> Leaves(lines[m].dir, k)
    ensures MacroOf(Run(lines, cmd, g).macros, k) == Some(lines[j].dir.body)
  {
    if g == j + 1 {
      DepthIsStackHeight(lines, cmd, j);
    } else {
      PlainDefineWins(lines, cmd, k, j, g - 1);
      StepLeaves(Run(lines, cmd, g - 1), lines[g - 1].dir, k);
    }
  }

  /** The directive neither defines nor undefines `k`. */
  predicate Leaves(d: Directive, k: Name) {
    d != Undef(k) && !(d.Define? && d.name == k)
  }

  lemma StepLeaves(st: State, d: Directive, k: Name)
    requires Leaves(d, k)
    ensures MacroOf(Step(st, d).macros, k) == MacroOf(st.macros, k)
  {
  }

  /** Below an unconditional positive definition the guard's own group is dead. */
  lemma GuardBelowPlainDefine(lines: seq<Line>, cmd: Macros, k: Name, j: nat, g: nat)
    requires j < g < |lines| && lines[j].dir.Define? && lines[j].dir.name == k && Depth(lines, j) == 0
    requires lines[j].dir.body.Num? && lines[j].dir.body.n >= 1 && GuardOf(lines[g]) == Some(k)
    requires forall m :: j < m < g ==> Leaves(lines[m].dir, k)
    ensures !Reached(lines, cmd, g + 1)
  {
    PlainDefineWins(lines, cmd, k, j, g);
    var st := Run(lines, cmd, g);
    GuardCondition(k, st.macros);
    assert lines[g].dir.cond == Lt(Id(k), Num(1));
    assert Run(lines, cmd, g + 1).stack == st.stack + [Frame(false, false)];
    assert !Run(lines, cmd, g + 1).stack[|st.stack|].live;
  }

  lemma OnlyGuardIsOrdered(lines: seq<Line>, k: Name, j: nat, g: nat)
    requires j < g < |lines| && DefOf(lines[j]) == Some(k) && GuardOf(lines[g]) == Some(k)
    requires forall m :: 0 <= m < |lines| && m != g ==> GuardOf(lines[m]) != Some(k)
    ensures Ordered(lines, k)
  {
    assert FirstDef(lines, k).Some?;
    assert FirstGuard(lines, k).Some?;
    assert FirstDef(lines, k).value - 1 <= j;
    assert FirstGuard(lines, k).value - 1 == g;
  }

  /** So a knob defined unconditionally to a positive number passes the rule, and its guard
      cannot fire at `-DK=0`. */
  lemma PlainDefineDefeatsProbe(lines: seq<Line>, ctx: Macros, k: Name, j: nat, g: nat)
    requires j < g && g + 1 < |lines| && DefOf(lines[j]) == Some(k) && lines[j].dir.Define?
    requires lines[j].dir.body.Num? && lines[j].dir.body.n >= 1 && Depth(lines, j) == 0
    requires GuardOf(lines[g]) == Some(k) && lines[g + 1].dir == Error(k)
    requires forall m :: 0 <= m < |lines| && m != j ==> Leaves(lines[m].dir, k)
    requires forall m :: 0 <= m < |lines| && m != g ==> GuardOf(lines[m]) != Some(k)
    requires forall m :: 0 <= m < |lines| && m != g + 1 ==> !Names(lines[m].dir, k)
    ensures Ordered(lines, k) && !FiresAtZero(lines, ctx, k)
  {
    OnlyGuardIsOrdered(lines, k, j, g);
    var cmd := ctx[k := Num(0)];
    GuardBelowPlainDefine(lines, cmd, k, j, g);
    forall i <- Diagnostics(lines, cmd) ensures !Names(lines[i].dir, k) {
      assert i != g + 1;
    }
  }

  /** The shape the probe's comments call the first attempted fix, in six lines: the order
      rule is silent and the guard is dead. */
  const OWN_IFNDEF: seq<Line> :=
    [Line(Ifndef("K"), true), Line(Define("K", Num(8)), true), Line(If(Lt(Id("K"), Num(1))), true),
     Line(Error("K"), true), Line(Endif, true), Line(Endif, true)]

  lemma GuardInsideOwnIfndefExample()
    ensures !Offends(OWN_IFNDEF, map[], None, "K") && !FiresAtZero(OWN_IFNDEF, map[], "K")
  {
    OwnIfndefOrdered();
    OwnIfndefDepths();
    forall i: nat | i < |OWN_IFNDEF| && Names(OWN_IFNDEF[i].dir, "K")
      ensures exists j: nat :: j < i && InsideOwnIfndef(OWN_IFNDEF, "K", j, i)
    {
      assert i == 3;
    }
    GuardInsideOwnIfndefIsUnreachable(OWN_IFNDEF, map[], "K");
  }

  lemma OwnIfndefOrdered()
    ensures Ordered(OWN_IFNDEF, "K")
  {
    assert GuardOf(OWN_IFNDEF[2]) == Some("K") && DefOf(OWN_IFNDEF[0]) == Some("K");
    OnlyGuardIsOrdered(OWN_IFNDEF, "K", 0, 2);
  }

  lemma OwnIfndefDepths()
    ensures InsideOwnIfndef(OWN_IFNDEF, "K", 0, 3)
  {
    assert Depth(OWN_IFNDEF, 0) == 0;
    assert Depth(OWN_IFNDEF, 1) == 1;
    assert Depth(OWN_IFNDEF, 2) == 1;
    assert Depth(OWN_IFNDEF, 3) == 2;
  }

  // ------------------------------------------- a wider discipline, and its exact answers

  predicate DefinesAt(lines: seq<Line>, k: Name, i: nat) {
    i < |lines| && lines[i].dir.Define? && lines[i].dir.name == k
  }

  /** A definition is the first line of its own `#ifndef k` block outside any conditional. */
  predicate InOwnBlock(lines: seq<Line>, k: Name, i: nat) {
    0 < i <= |lines| && lines[i - 1].dir == Ifndef(k) && Depth(lines, i - 1) == 0
  }

  /** Every definition of `k` is unconditional or in its own `#ifndef` block, and none is withdrawn. */
  predicate OrderlyDefines(lines: seq<Line>, k: Name) {
    forall i: nat :: i < |lines| ==>
      lines[i].dir != Undef(k) && (DefinesAt(lines, k, i) ==> Depth(lines, i) == 0 || InOwnBlock(lines, k, i))
  }

  /** And every guard of it stands outside any conditional, in front of the only messages that name it alone. */
  predicate Orderly(lines: seq<Line>, k: Name) {
    && OrderlyDefines(lines, k)
    && forall i: nat :: i < |lines| ==>
         (GuardOf(lines[i]) == Some(k) ==> GuardAtTop(lines, k, i)) &&
         (lines[i].dir == Error(k) ==> i > 0 && GuardOf(lines[i - 1]) == Some(k))
  }

  /** The body of the last unconditional `#define k` among the first `i` lines. */
  function LastPlain(lines: seq<Line>, k: Name, i: nat): Option<Expr>
    requires i <= |lines|
  {
    if i == 0 then None
    else if DefinesAt(lines, k, i - 1) && Depth(lines, i - 1) == 0 then Some(lines[i - 1].dir.body)
    else LastPlain(lines, k, i - 1)
  }

  /** What an orderly knob stands for at line `i`: its last unconditional definition above, or else its `-D` value,
      or else its first default above. */
  function Held(lines: seq<Line>, cmd: Macros, k: Name, i: nat): Option<Expr>
    requires i <= |lines|
  {
    if LastPlain(lines, k, i).Some? then LastPlain(lines, k, i)
    else if k in cmd then Some(cmd[k])
    else DefaultBody(lines, k, i)
  }

  /** How an orderly knob's standing changes over one line. */
  lemma HeldStep(lines: seq<Line>, cmd: Macros, k: Name, i: nat)
    requires i < |lines|
    ensures Held(lines, cmd, k, i + 1) ==
            var before := Held(lines, cmd, k, i);
            if !DefinesAt(lines, k, i) then before
            else if Depth(lines, i) == 0 || before.None? then Some(lines[i].dir.body)
            else before
  {
  }

  lemma DefineStep(st: State, d: Directive)
    requires d.Define?
    ensures MacroOf(Step(st, d).macros, d.name) == if Active(st.stack) then Some(d.body) else MacroOf(st.macros, d.name)
  {
  }

  lemma {:induction false} OrderlyInvariant(lines: seq<Line>, cmd: Macros, k: Name, i: nat)
    requires i <= |lines| && OrderlyDefines(lines, k)
    ensures MacroOf(Run(lines, cmd, i).macros, k) == Held(lines, cmd, k, i)
  {
    if i > 0 {
      OrderlyInvariant(lines, cmd, k, i - 1);
      HeldStep(lines, cmd, k, i - 1);
      var st, d := Run(lines, cmd, i - 1), lines[i - 1].dir;
      if !DefinesAt(lines, k, i - 1) {
        StepLeaves(st, d, k);
      } else {
        DefineStep(st, d);
        DepthIsStackHeight(lines, cmd, i - 1);
        if Depth(lines, i - 1) > 0 {
          BlockIsLive(lines, cmd, k, i - 1);
        }
      }
    }
  }

  /** What the knob stands for at line `g` reads below 1; a knob that stands for nothing reads 0. */
  predicate ReadsLow(lines: seq<Line>, cmd: Macros, k: Name, g: nat)
    requires g <= |lines|
  {
    var e := Held(lines, cmd, k, g);
    e.None? || Eval(e.value, Run(lines, cmd, g).macros, {k}) < 1
  }

  lemma TopGuardFires(lines: seq<Line>, cmd: Macros, k: Name, g: nat)
    requires OrderlyDefines(lines, k) && GuardAtTop(lines, k, g)
    ensures Fires(lines, cmd, g) <==> ReadsLow(lines, cmd, k, g)
  {
    OrderlyInvariant(lines, cmd, k, g);
    FiresIff(lines, cmd, k, g);
    GuardCondition(k, Run(lines, cmd, g).macros);
  }

  /** Every guard of an orderly knob fires exactly when the knob reads below 1 there. */
  lemma OrderlyFires(lines: seq<Line>, cmd: Macros, k: Name, g: nat)
    requires Orderly(lines, k) && g < |lines| && GuardOf(lines[g]) == Some(k)
    ensures Fires(lines, cmd, g) <==> ReadsLow(lines, cmd, k, g)
  {
    TopGuardFires(lines, cmd, k, g);
  }

  /** Message `i` is inside an `#ifndef` of `k` itself. */
  predicate Hidden(lines: seq<Line>, k: Name, i: nat) {
    i <= |lines| && exists j: nat :: j < i && InsideOwnIfndef(lines, k, j, i)
  }

  /** Guard `g` stands outside any conditional, and its knob's definitions are orderly. */
  predicate Open(lines: seq<Line>, g: nat) {
    g < |lines| && GuardOf(lines[g]).Some? && GuardAtTop(lines, GuardOf(lines[g]).value, g) &&
    OrderlyDefines(lines, GuardOf(lines[g]).value)
  }

  /** Every message that names `k` is inside an `#ifndef` of `k`, or behind an open guard. */
  predicate Sorted(lines: seq<Line>, k: Name) {
    forall i: nat :: i < |lines| ==>
      lines[i].dir != Undef(k) && (Names(lines[i].dir, k) ==> Hidden(lines, k, i) || (i > 0 && Open(lines, i - 1)))
  }

  /** An open guard, of this knob or of one whose name contains its name, reads its own knob below 1. */
  predicate AnswersAtZero(lines: seq<Line>, cmd: Macros, k: Name, g: nat) {
    Open(lines, g) && Within(k, GuardOf(lines[g]).value) && ReadsLow(lines, cmd, GuardOf(lines[g]).value, g)
  }

  predicate SomeAnswer(lines: seq<Line>, cmd: Macros, k: Name) {
    exists g: nat :: g < |lines| && AnswersAtZero(lines, cmd, k, g)
  }

  lemma HiddenIsUnreached(lines: seq<Line>, cmd: Macros, k: Name, i: nat)
    requires k in cmd && i < |lines| && Hidden(lines, k, i)
    requires forall m :: 0 <= m < |lines| ==> lines[m].dir != Undef(k)
    ensures i !in Diagnostics(lines, cmd)
  {
    var j: nat :| j < i && InsideOwnIfndef(lines, k, j, i);
    MacroPersists(lines, cmd, k, j);
    OwnIfndefIsDead(lines, cmd, k, j, i);
  }

  lemma OpenAnswers(lines: seq<Line>, cmd: Macros, g: nat)
    requires Open(lines, g)
    ensures g + 1 in Diagnostics(lines, cmd) <==> ReadsLow(lines, cmd, GuardOf(lines[g]).value, g)
    ensures g + 1 < |lines| && lines[g + 1].dir == Error(GuardOf(lines[g]).value)
  {
    TopGuardFires(lines, cmd, GuardOf(lines[g]).value, g);
  }

  lemma FiredIsAnswered(lines: seq<Line>, cmd: Macros, k: Name, i: nat)
    requires Sorted(lines, k) && k in cmd && i in Diagnostics(lines, cmd) && Names(lines[i].dir, k)
    ensures i > 0 && AnswersAtZero(lines, cmd, k, i - 1)
  {
    if Hidden(lines, k, i) {
      HiddenIsUnreached(lines, cmd, k, i);
    }
    OpenAnswers(lines, cmd, i - 1);
  }

  lemma AnsweredFires(lines: seq<Line>, cmd: Macros, k: Name, g: nat)
    requires AnswersAtZero(lines, cmd, k, g)
    ensures g + 1 in Diagnostics(lines, cmd) && Names(lines[g + 1].dir, k)
  {
    OpenAnswers(lines, cmd, g);
  }

  /** The second probe passes exactly when some open guard, of this knob or of one whose name contains its name,
      reads its own knob below 1 at `-DK=0`; messages inside the knob's own `#ifndef` never help. */
  lemma FiresAtZeroIff(lines: seq<Line>, ctx: Macros, k: Name)
    requires Sorted(lines, k)
    ensures FiresAtZero(lines, ctx, k) <==> SomeAnswer(lines, ctx[k := Num(0)], k)
  {
    var cmd := ctx[k := Num(0)];
    if FiresAtZero(lines, ctx, k) {
      var i :| i in Diagnostics(lines, cmd) && Names(lines[i].dir, k);
      FiredIsAnswered(lines, cmd, k, i);
    }
    if SomeAnswer(lines, cmd, k) {
      var g: nat :| g < |lines| && AnswersAtZero(lines, cmd, k, g);
      AnsweredFires(lines, cmd, k, g);
    }
  }

  /** No other knob's message contains the name of `k`. */
  predicate NamedAlone(lines: seq<Line>, k: Name) {
    forall i: nat :: i < |lines| ==>
      (Names(lines[i].dir, k) ==> lines[i].dir.floor == k) &&
      (GuardOf(lines[i]).Some? && Within(k, GuardOf(lines[i]).value) ==> GuardOf(lines[i]).value == k)
  }

  /** The last unconditional definition above some guard is absent, or reads below 1 there. */
  predicate SomeGuardOpen(lines: seq<Line>, cmd: Macros, k: Name) {
    exists g: nat :: g < |lines| && GuardOf(lines[g]) == Some(k) && OpenAt(lines, cmd, k, g)
  }

  predicate OpenAt(lines: seq<Line>, cmd: Macros, k: Name, g: nat)
    requires g <= |lines|
  {
    var e := LastPlain(lines, k, g);
    e.None? || Eval(e.value, Run(lines, cmd, g).macros, {k}) < 1
  }

  lemma MessageBehindGuard(lines: seq<Line>, k: Name, i: nat)
    requires Orderly(lines, k) && i < |lines| && lines[i].dir == Error(k)
    ensures i > 0 && Open(lines, i - 1)
  {
  }

  lemma OrderlyIsSorted(lines: seq<Line>, k: Name)
    requires Orderly(lines, k) && NamedAlone(lines, k)
    ensures Sorted(lines, k)
  {
    forall i: nat | i < |lines| && Names(lines[i].dir, k) ensures i > 0 && Open(lines, i - 1) {
      assert lines[i].dir == Error(k);
      MessageBehindGuard(lines, k, i);
    }
  }

  /** For an orderly knob named alone, the second probe passes exactly when no unconditional definition of 1 or
      more stands between it and some guard. */
  lemma PlainDefinesDecideProbe(lines: seq<Line>, ctx: Macros, k: Name)
    requires Orderly(lines, k) && NamedAlone(lines, k)
    ensures FiresAtZero(lines, ctx, k) <==> SomeGuardOpen(lines, ctx[k := Num(0)], k)
  {
    var cmd := ctx[k := Num(0)];
    OrderlyIsSorted(lines, k);
    FiresAtZeroIff(lines, ctx, k);
    assert Within(k, k) by { NamesItself(k); }
    forall g: nat | g < |lines| && GuardOf(lines[g]) == Some(k)
      ensures AnswersAtZero(lines, cmd, k, g) <==> OpenAt(lines, cmd, k, g)
    {
      assert Eval(Num(0), Run(lines, cmd, g).macros, {k}) == 0;
    }
    if g: nat :| g < |lines| && AnswersAtZero(lines, cmd, k, g) {
      assert OpenAt(lines, cmd, k, g);
    }
    if g: nat :| g < |lines| && GuardOf(lines[g]) == Some(k) && OpenAt(lines, cmd, k, g) {
      assert AnswersAtZero(lines, cmd, k, g);
    }
  }
}
