/** The order rule of scripts/check-c-knob-guard-order.py. */
module GuardOrder {
  import opened Text
  import opened Preprocessor

  // ---------------------------------------------------------------- the rule

  predicate KnobChar(c: char) { 'A' <= c <= 'Z' || '0' <= c <= '9' || c == '_' }

  /** `[A-Z][A-Z0-9_]*` */
  predicate KnobName(k: Name) {
    k != "" && 'A' <= k[0] <= 'Z' && forall c :: c in k ==> KnobChar(c)
  }

  /** The knob of a line reading `#if KNOB < 1`. */
  function GuardOf(l: Line): Option<Name> {
    match l
    case Line(If(Lt(Id(k), Num(1))), true) => if KnobName(k) then Some(k) else None
    case _ => None
  }

  /** The knob a line `#ifndef KNOB` or `#define KNOB ...` counts as defining. */
  function DefOf(l: Line): Option<Name> {
    match l
    case Line(Ifndef(k), true) => if KnobName(k) then Some(k) else None
    case Line(Define(k, _), true) => if KnobName(k) then Some(k) else None
    case _ => None
  }

  /** 1-based number of the first line that `f` reads as `k`. */
  function First(lines: seq<Line>, f: Line -> Option<Name>, k: Name): (n: Option<nat>)
    ensures n.Some? ==> 1 <= n.value <= |lines| && f(lines[n.value - 1]) == Some(k)
    ensures n.Some? ==> forall j :: 0 <= j < n.value - 1 ==> f(lines[j]) != Some(k)
    ensures n.None? ==> forall j :: 0 <= j < |lines| ==> f(lines[j]) != Some(k)
  {
    if lines == [] then None else
      var m := |lines| - 1;
      var before := First(lines[..m], f, k);
      assert forall j :: 0 <= j < m ==> lines[..m][j] == lines[j];
      if before.Some? then before else if f(lines[m]) == Some(k) then Some(|lines|) else None
  }

  function FirstGuard(lines: seq<Line>, k: Name): Option<nat> { First(lines, GuardOf, k) }
  function FirstDef(lines: seq<Line>, k: Name): Option<nat> { First(lines, DefOf, k) }

  lemma FirstStep(lines: seq<Line>, f: Line -> Option<Name>, k: Name, n: nat)
    requires n < |lines|
    ensures First(lines[..n + 1], f, k) ==
            var before := First(lines[..n], f, k);
            if before.Some? then before else if f(lines[n]) == Some(k) then Some(n + 1) else None
  {
    assert lines[..n + 1][..n] == lines[..n];
  }

  /** `defs` maps every knob with a definition line to the first one. */
  ghost predicate IsDefTable(lines: seq<Line>, defs: map<Name, nat>) {
    forall k :: MapGet(defs, k) == FirstDef(lines, k)
  }

  function MapGet<V>(m: map<Name, V>, k: Name): Option<V> { if k in m then Some(m[k]) else None }

  /** `guards` holds every guarded knob with its first guard line, in line order. */
  ghost predicate IsGuardTable(lines: seq<Line>, guards: seq<(Name, nat)>) {
    && (forall i :: 0 <= i < |guards| ==> FirstGuard(lines, guards[i].0) == Some(guards[i].1))
    && (forall k :: FirstGuard(lines, k).Some? ==> HasGuard(guards, k))
    && (forall i, j :: 0 <= i < j < |guards| ==> guards[i].1 < guards[j].1)
  }

  predicate HasGuard(guards: seq<(Name, nat)>, k: Name) {
    exists i :: 0 <= i < |guards| && guards[i].0 == k
  }

  lemma GuardTableStep(lines: seq<Line>, n: nat, guards: seq<(Name, nat)>, guards': seq<(Name, nat)>)
    requires n < |lines| && IsGuardTable(lines[..n], guards)
    requires var g := GuardOf(lines[n]);
             guards' == if g.Some? && !HasGuard(guards, g.value)
                        then guards + [(g.value, n + 1)] else guards
    ensures IsGuardTable(lines[..n + 1], guards')
  {
    var was, now := lines[..n], lines[..n + 1];
    forall k | FirstGuard(now, k).Some? ensures HasGuard(guards', k) {
      FirstStep(lines, GuardOf, k, n);
      if FirstGuard(was, k).Some? {
        assert HasGuard(guards, k);
        var i :| 0 <= i < |guards| && guards[i].0 == k;
        assert guards'[i].0 == k;
      } else if guards' != guards {
        assert guards'[|guards|].0 == k;
      }
    }
    forall i | 0 <= i < |guards'| ensures FirstGuard(now, guards'[i].0) == Some(guards'[i].1) {
      FirstStep(lines, GuardOf, guards'[i].0, n);
      if i == |guards| {
        var k := guards'[i].0;
        assert FirstGuard(was, k).Some? ==> HasGuard(guards, k);
      } else {
        assert guards'[i] == guards[i];
      }
    }
  }

  lemma DefTableStep(lines: seq<Line>, n: nat, defs: map<Name, nat>, defs': map<Name, nat>)
    requires n < |lines| && IsDefTable(lines[..n], defs)
    requires var d := DefOf(lines[n]);
             defs' == if d.Some? && d.value !in defs then defs[d.value := n + 1] else defs
    ensures IsDefTable(lines[..n + 1], defs')
  {
    forall k ensures MapGet(defs', k) == FirstDef(lines[..n + 1], k) {
      FirstStep(lines, DefOf, k, n);
      assert MapGet(defs, k) == FirstDef(lines[..n], k);
    }
  }

  method GuardsAndDefs(lines: seq<Line>)
    returns (guards: seq<(Name, nat)>, defs: map<Name, nat>)
    ensures IsGuardTable(lines, guards)
    ensures IsDefTable(lines, defs)
  {
    guards, defs := [], map[];
    for n := 0 to |lines|
      invariant IsGuardTable(lines[..n], guards)
      invariant IsDefTable(lines[..n], defs)
    {
      ghost var before, defsBefore := guards, defs;
      var g := GuardOf(lines[n]);
      if g.Some? && !HasGuard(guards, g.value) {
        guards := guards + [(g.value, n + 1)];
      }
      GuardTableStep(lines, n, before, guards);
      var d := DefOf(lines[n]);
      if d.Some? && d.value !in defs {
        defs := defs[d.value := n + 1];
      }
      DefTableStep(lines, n, defsBefore, defs);
    }
    assert lines[..|lines|] == lines;
  }

  datatype Report = Report(knob: Name, guardLine: nat, defLine: Option<nat>)

  function HeadersOf(headers: map<Name, set<string>>, k: Name): set<string> {
    if k in headers then headers[k] else {}
  }

  predicate Ordered(lines: seq<Line>, k: Name) {
    FirstGuard(lines, k).Some? && FirstDef(lines, k).Some? &&
    FirstDef(lines, k).value < FirstGuard(lines, k).value
  }

  /** A guarded knob the file does not define above its guard, and that no header other
      than the file itself (`rel`) defines. */
  predicate Offends(lines: seq<Line>, headers: map<Name, set<string>>, rel: Option<string>, k: Name) {
    FirstGuard(lines, k).Some? && !Ordered(lines, k) && !DefinedElsewhere(headers, rel, k)
  }

  predicate DefinedElsewhere(headers: map<Name, set<string>>, rel: Option<string>, k: Name) {
    exists h <- HeadersOf(headers, k) :: rel != Some(h)
  }

  /** A plain `#ifndef` or `#define` of the knob stands above the line. */
  predicate DefinedAbove(lines: seq<Line>, k: Name, g: nat) {
    g <= |lines| && exists j :: 0 <= j < g && lines[j].plain &&
                                (lines[j].dir == Ifndef(k) || (lines[j].dir.Define? && lines[j].dir.name == k))
  }

  /** A knob is in order iff one stands above its first guard. */
  lemma OrderedIff(lines: seq<Line>, k: Name, g: nat)
    requires FirstGuard(lines, k) == Some(g + 1)
    ensures Ordered(lines, k) <==> DefinedAbove(lines, k, g)
  {
    assert KnobName(k) by { assert GuardOf(lines[g]) == Some(k); }
    var def := FirstDef(lines, k);
    if Ordered(lines, k) {
      assert DefOf(lines[def.value - 1]) == Some(k) && def.value - 1 < g;
    }
    if DefinedAbove(lines, k, g) {
      var j :| 0 <= j < g && lines[j].plain &&
               (lines[j].dir == Ifndef(k) || (lines[j].dir.Define? && lines[j].dir.name == k));
      assert DefOf(lines[j]) == Some(k);
    }
  }

  /** A header's own definition excuses no guard in it; any other header's does. */
  lemma OtherHeadersExcuse(lines: seq<Line>, headers: map<Name, set<string>>, rel: string, k: Name)
    ensures HeadersOf(headers, k) <= {rel} ==>
              (Offends(lines, headers, Some(rel), k) <==> FirstGuard(lines, k).Some? && !Ordered(lines, k))
    ensures !(HeadersOf(headers, k) <= {rel}) ==> !Offends(lines, headers, Some(rel), k)
  {
    if !(HeadersOf(headers, k) <= {rel}) {
      var h :| h in HeadersOf(headers, k) && h != rel;
    }
  }

  predicate IsReport(lines: seq<Line>, headers: map<Name, set<string>>, rel: Option<string>, r: Report) {
    Offends(lines, headers, rel, r.knob) &&
    FirstGuard(lines, r.knob) == Some(r.guardLine) && r.defLine == FirstDef(lines, r.knob)
  }

  predicate Reported(bad: seq<Report>, k: Name) {
    exists i :: 0 <= i < |bad| && bad[i].knob == k
  }

  predicate InLineOrder(bad: seq<Report>) {
    forall i, j :: 0 <= i < j < |bad| ==> bad[i].guardLine < bad[j].guardLine
  }

  /** The loop's decision on one entry of the guard table. */
  predicate Keeps(defs: map<Name, nat>, headers: map<Name, set<string>>, rel: Option<string>, g: (Name, nat)) {
    !(g.0 in defs && defs[g.0] < g.1) && !DefinedElsewhere(headers, rel, g.0)
  }

  function Select(guards: seq<(Name, nat)>, defs: map<Name, nat>,
                  headers: map<Name, set<string>>, rel: Option<string>): seq<Report>
  {
    if guards == [] then [] else
      var g := guards[|guards| - 1];
      Select(guards[..|guards| - 1], defs, headers, rel) +
      if Keeps(defs, headers, rel, g) then [Report(g.0, g.1, MapGet(defs, g.0))] else []
  }

  lemma {:induction false} SelectMembers(guards: seq<(Name, nat)>, defs: map<Name, nat>,
                                         headers: map<Name, set<string>>, rel: Option<string>, r: Report)
    ensures r in Select(guards, defs, headers, rel) <==>
            (r.knob, r.guardLine) in guards && Keeps(defs, headers, rel, (r.knob, r.guardLine)) &&
            r.defLine == MapGet(defs, r.knob)
  {
    if guards != [] {
      var init := guards[..|guards| - 1];
      assert guards == init + [guards[|guards| - 1]];
      SelectMembers(init, defs, headers, rel, r);
    }
  }

  predicate Increasing(guards: seq<(Name, nat)>) {
    forall i, j :: 0 <= i < j < |guards| ==> guards[i].1 < guards[j].1
  }

  lemma SelectBelow(guards: seq<(Name, nat)>, defs: map<Name, nat>, headers: map<Name, set<string>>,
                    rel: Option<string>, n: nat)
    requires Increasing(guards) && n < |guards|
    ensures forall r <- Select(guards[..n], defs, headers, rel) :: r.guardLine < guards[n].1
  {
    forall r <- Select(guards[..n], defs, headers, rel) ensures r.guardLine < guards[n].1 {
      SelectMembers(guards[..n], defs, headers, rel, r);
      var i :| 0 <= i < n && guards[..n][i] == (r.knob, r.guardLine);
      assert guards[i] == (r.knob, r.guardLine);
    }
  }

  lemma SelectStep(guards: seq<(Name, nat)>, defs: map<Name, nat>, headers: map<Name, set<string>>,
                   rel: Option<string>, n: nat)
    requires n < |guards|
    ensures var g := guards[n];
            Select(guards[..n + 1], defs, headers, rel) ==
            Select(guards[..n], defs, headers, rel) +
            if Keeps(defs, headers, rel, g) then [Report(g.0, g.1, MapGet(defs, g.0))] else []
  {
    assert guards[..n + 1][..n] == guards[..n];
  }

  lemma InLineOrderSnoc(bad: seq<Report>, r: Report)
    requires InLineOrder(bad) && forall x <- bad :: x.guardLine < r.guardLine
    ensures InLineOrder(bad + [r])
  {
    assert forall i | 0 <= i < |bad| :: bad[i] in bad;
  }

  lemma {:induction false} SelectInOrder(guards: seq<(Name, nat)>, defs: map<Name, nat>,
                                         headers: map<Name, set<string>>, rel: Option<string>, n: nat)
    requires Increasing(guards) && n <= |guards|
    ensures InLineOrder(Select(guards[..n], defs, headers, rel))
  {
    if n > 0 {
      var g, bad := guards[n - 1], Select(guards[..n - 1], defs, headers, rel);
      SelectInOrder(guards, defs, headers, rel, n - 1);
      SelectBelow(guards, defs, headers, rel, n - 1);
      SelectStep(guards, defs, headers, rel, n - 1);
      InLineOrderSnoc(bad, Report(g.0, g.1, MapGet(defs, g.0)));
      assert bad + [] == bad;
    }
  }

  method SelectReports(guards: seq<(Name, nat)>, defs: map<Name, nat>,
                       headers: map<Name, set<string>>, rel: Option<string>) returns (bad: seq<Report>)
    ensures bad == Select(guards, defs, headers, rel)
  {
    bad := [];
    for n := 0 to |guards|
      invariant bad == Select(guards[..n], defs, headers, rel)
    {
      var (knob, gline) := guards[n];
      SelectStep(guards, defs, headers, rel, n);
      if knob in defs && defs[knob] < gline {
        continue;
      }
      if DefinedElsewhere(headers, rel, knob) {
        continue;
      }
      bad := bad + [Report(knob, gline, MapGet(defs, knob))];
    }
    assert guards[..|guards|] == guards;
  }

  method CheckFile(lines: seq<Line>, headers: map<Name, set<string>>, rel: Option<string>)
    returns (bad: seq<Report>)
    ensures forall r <- bad :: IsReport(lines, headers, rel, r)
    ensures forall k :: Offends(lines, headers, rel, k) ==> Reported(bad, k)
    ensures InLineOrder(bad)
  {
    var guards, defs := GuardsAndDefs(lines);
    bad := SelectReports(guards, defs, headers, rel);
    SelectInOrder(guards, defs, headers, rel, |guards|);
    assert guards[..|guards|] == guards;
    SelectedAreReports(lines, guards, defs, headers, rel);
  }

  lemma SelectedAreReports(lines: seq<Line>, guards: seq<(Name, nat)>, defs: map<Name, nat>,
                           headers: map<Name, set<string>>, rel: Option<string>)
    requires IsGuardTable(lines, guards) && IsDefTable(lines, defs)
    ensures forall r <- Select(guards, defs, headers, rel) :: IsReport(lines, headers, rel, r)
    ensures forall k :: Offends(lines, headers, rel, k) ==> Reported(Select(guards, defs, headers, rel), k)
  {
    var bad := Select(guards, defs, headers, rel);
    forall r <- bad ensures IsReport(lines, headers, rel, r) {
      SelectMembers(guards, defs, headers, rel, r);
      var j :| 0 <= j < |guards| && guards[j] == (r.knob, r.guardLine);
      assert MapGet(defs, r.knob) == FirstDef(lines, r.knob);
    }
    forall k | Offends(lines, headers, rel, k) ensures Reported(bad, k) {
      assert HasGuard(guards, k);
      var i :| 0 <= i < |guards| && guards[i].0 == k;
      assert MapGet(defs, k) == FirstDef(lines, k);
      var r := Report(k, guards[i].1, MapGet(defs, k));
      SelectMembers(guards, defs, headers, rel, r);
    }
  }

  // ------------------------------------------- the shape the rule is written for

  /** Every definition of `k` is the body of a depth-0 `#ifndef k` block, and every guard of
      `k` is at depth 0 with its `#error` on the next line. Other lines are unrestricted. */
  predicate Disciplined(lines: seq<Line>, k: Name) {
    KnobName(k) && forall i: nat :: i < |lines| ==> DisciplinedAt(lines, k, i)
  }

  predicate DisciplinedAt(lines: seq<Line>, k: Name, i: nat)
    requires i < |lines|
  {
    var d := lines[i].dir;
    && d != Undef(k)
    && (d.Define? && d.name == k ==>
          lines[i].plain && i > 0 && lines[i - 1] == Line(Ifndef(k), true) && Depth(lines, i - 1) == 0)
    && (lines[i] == Line(Ifndef(k), true) ==>
          i + 1 < |lines| && lines[i + 1].dir.Define? && lines[i + 1].dir.name == k)
    && (d == Error(k) ==> i > 0 && GuardOf(lines[i - 1]) == Some(k))
    && (GuardOf(lines[i]) == Some(k) ==>
          Depth(lines, i) == 0 && i + 1 < |lines| && lines[i + 1].dir == Error(k))
  }

  function MacroOf(macros: Macros, k: Name): Option<Expr> {
    if k in macros then Some(macros[k]) else None
  }

  /** The body of the first `#define k` among the first `i` lines. */
  function DefaultBody(lines: seq<Line>, k: Name, i: nat): Option<Expr>
    requires i <= |lines|
  {
    if i == 0 then None else
      var before := DefaultBody(lines, k, i - 1);
      var d := lines[i - 1].dir;
      if before.None? && d.Define? && d.name == k then Some(d.body) else before
  }

  /** What `k` stands for in a compile: the `-D` value if there is one, else the default. */
  function Effective(lines: seq<Line>, cmd: Macros, k: Name): Option<Expr> {
    if k in cmd then Some(cmd[k]) else DefaultBody(lines, k, |lines|)
  }

  /** Whether `k`'s effective value, read at line `g`, is below 1. */
  predicate BelowOne(lines: seq<Line>, cmd: Macros, k: Name, g: nat)
    requires g <= |lines|
  {
    var e := Effective(lines, cmd, k);
    e.Some? && Eval(e.value, Run(lines, cmd, g).macros, {k}) < 1
  }

  /** The guard at line `g` refuses the compile. */
  predicate Fires(lines: seq<Line>, cmd: Macros, g: nat)
    requires g < |lines|
  {
    g + 1 in Diagnostics(lines, cmd)
  }

  /** In every state of every run, the knob is its `-D` value, or else the first default
      above that point, or else undefined. */
  lemma {:induction false} KnobInvariant(lines: seq<Line>, cmd: Macros, k: Name, i: nat)
    requires i <= |lines| && Disciplined(lines, k)
    ensures MacroOf(Run(lines, cmd, i).macros, k)
            == if k in cmd then Some(cmd[k]) else DefaultBody(lines, k, i)
  {
    if i > 0 {
      KnobInvariant(lines, cmd, k, i - 1);
      assert DisciplinedAt(lines, k, i - 1);
      var d := lines[i - 1].dir;
      if d.Define? && d.name == k {
        BlockIsLive(lines, cmd, k, i - 1);
      }
      DefinedStep(Run(lines, cmd, i - 1), d, k);
    }
  }

  /** The line behind `#ifndef k` at depth 0 is processed iff `k` is not a macro. */
  lemma BlockIsLive(lines: seq<Line>, cmd: Macros, k: Name, i: nat)
    requires 0 < i <= |lines| && lines[i - 1].dir == Ifndef(k) && Depth(lines, i - 1) == 0
    ensures Active(Run(lines, cmd, i).stack) <==> k !in Run(lines, cmd, i).macros
  {
    DepthIsStackHeight(lines, cmd, i - 1);
    OpensBlock(Run(lines, cmd, i - 1), k);
  }

  lemma OpensBlock(st: State, k: Name)
    requires st.stack == []
    ensures var in1 := Step(st, Ifndef(k)); in1.macros == st.macros && (Active(in1.stack) <==> k !in st.macros)
  {
    assert Step(st, Ifndef(k)).stack == [] + [Frame(k !in st.macros, k !in st.macros)];
    assert Step(st, Ifndef(k)).stack[0].live <==> k !in st.macros;
  }

  lemma DefinedStep(st: State, d: Directive, k: Name)
    requires d != Undef(k)
    ensures MacroOf(Step(st, d).macros, k) ==
            if d.Define? && d.name == k && Active(st.stack) then Some(d.body) else MacroOf(st.macros, k)
  {
  }

  lemma {:induction false} DefaultBodyStays(lines: seq<Line>, k: Name, i: nat, j: nat)
    requires i <= j <= |lines| && DefaultBody(lines, k, i).Some?
    ensures DefaultBody(lines, k, j) == DefaultBody(lines, k, i)
  {
    if i < j {
      DefaultBodyStays(lines, k, i, j - 1);
    }
  }

  lemma {:induction false} DefaultBodyNone(lines: seq<Line>, k: Name, i: nat)
    requires i <= |lines|
    ensures DefaultBody(lines, k, i).None? <==>
            forall j :: 0 <= j < i ==> !(lines[j].dir.Define? && lines[j].dir.name == k)
  {
    if i > 0 {
      DefaultBodyNone(lines, k, i - 1);
    }
  }

  /** At a guard line the rule's "defined above" is the compiler's "defined by the file". */
  lemma DefaultAboveGuard(lines: seq<Line>, k: Name, g: nat)
    requires Disciplined(lines, k) && g < |lines| && GuardOf(lines[g]) == Some(k)
    ensures DefaultBody(lines, k, g).Some? <==>
            FirstDef(lines, k).Some? && FirstDef(lines, k).value <= g
  {
    DefaultBodyNone(lines, k, g);
    var d := FirstDef(lines, k);
    if d.Some? && d.value <= g {
      var j := d.value - 1;
      assert DisciplinedAt(lines, k, j);
      var at := if lines[j].dir.Define? then j else j + 1;
      assert lines[at].dir.Define? && lines[at].dir.name == k;
      assert at != g;
    }
    if DefaultBody(lines, k, g).Some? {
      var j :| 0 <= j < g && lines[j].dir.Define? && lines[j].dir.name == k;
      assert DisciplinedAt(lines, k, j);
      assert DefOf(lines[j]) == Some(k);
    }
  }

  /** The guard at line `g` stands outside any conditional, in front of its message. */
  predicate GuardAtTop(lines: seq<Line>, k: Name, g: nat) {
    g + 1 < |lines| && GuardOf(lines[g]) == Some(k) && Depth(lines, g) == 0 && lines[g + 1].dir == Error(k)
  }

  /** A guard fires exactly when the knob, as the preprocessor holds it there, is below 1
      (with an undefined knob read as 0). */
  lemma FiresIff(lines: seq<Line>, cmd: Macros, k: Name, g: nat)
    requires GuardAtTop(lines, k, g)
    ensures Fires(lines, cmd, g) <==> Eval(Id(k), Run(lines, cmd, g).macros, {}) < 1
  {
    DepthIsStackHeight(lines, cmd, g);
    var st := Run(lines, cmd, g);
    assert st.stack == [];
    assert Run(lines, cmd, g + 1).stack == [] + [Frame(Holds(lines[g].dir.cond, st.macros),
                                                       Holds(lines[g].dir.cond, st.macros))];
    assert Run(lines, cmd, g + 1).stack[0].live <==> Holds(lines[g].dir.cond, st.macros);
    GuardCondition(k, st.macros);
  }

  lemma GuardCondition(k: Name, macros: Macros)
    ensures Holds(Lt(Id(k), Num(1)), macros) <==> Eval(Id(k), macros, {}) < 1
    ensures Eval(Id(k), macros, {}) == if k in macros then Eval(macros[k], macros, {k}) else 0
  {
    assert {} + {k} == {k};
    assert Eval(Num(1), macros, {}) == 1;
  }

  /** The defect the rule was written for: a guard above its knob's default fires in every
      compile that passes no `-D` for the knob, whatever the default says. */
  lemma EarlyGuardAlwaysFires(lines: seq<Line>, cmd: Macros, k: Name, g: nat)
    requires Disciplined(lines, k) && g < |lines| && GuardOf(lines[g]) == Some(k)
    requires k !in cmd
    requires FirstDef(lines, k).None? || g < FirstDef(lines, k).value
    ensures Fires(lines, cmd, g)
  {
    DefaultAboveGuard(lines, k, g);
    KnobInvariant(lines, cmd, k, g);
    assert DisciplinedAt(lines, k, g);
    FiresIff(lines, cmd, k, g);
  }

  /** A guard below its knob's default answers correctly in every compile. */
  lemma OrderedGuardIsExact(lines: seq<Line>, cmd: Macros, k: Name, g: nat)
    requires Disciplined(lines, k) && g < |lines| && GuardOf(lines[g]) == Some(k)
    requires k in cmd || (FirstDef(lines, k).Some? && FirstDef(lines, k).value <= g)
    ensures Fires(lines, cmd, g) <==> BelowOne(lines, cmd, k, g)
  {
    DefaultAboveGuard(lines, k, g);
    KnobInvariant(lines, cmd, k, g);
    assert DisciplinedAt(lines, k, g);
    FiresIff(lines, cmd, k, g);
    GuardCondition(k, Run(lines, cmd, g).macros);
    if k !in cmd {
      DefaultBodyStays(lines, k, g, |lines|);
    }
  }

  /** Every guard of `k` fires exactly when the knob's effective value is below 1, for
      every `-D` map. */
  ghost predicate Exact(lines: seq<Line>, k: Name) {
    forall cmd: Macros, g: nat :: g < |lines| && GuardOf(lines[g]) == Some(k) ==>
                                    (Fires(lines, cmd, g) <==> BelowOne(lines, cmd, k, g))
  }

  /** The guard at line `g` stands above every definition of its knob. */
  predicate Early(lines: seq<Line>, k: Name, g: nat) {
    g < |lines| && GuardOf(lines[g]) == Some(k) && (FirstDef(lines, k).None? || g < FirstDef(lines, k).value)
  }

  /** The static rule decides the semantic question: a disciplined knob's guards are exact for every `-D` map
      iff the rule is silent, or firing is no mistake, because at each guard above the default the default reads
      below 1 in every compile that does not set the knob. */
  lemma RuleDecidesExactness(lines: seq<Line>, k: Name)
    requires Disciplined(lines, k) && FirstGuard(lines, k).Some?
    ensures Exact(lines, k) <==>
            !Offends(lines, map[], None, k) ||
            forall cmd: Macros, g: nat | k !in cmd && Early(lines, k, g) :: BelowOne(lines, cmd, k, g)
  {
    if Exact(lines, k) {
      forall cmd: Macros, g: nat | k !in cmd && Early(lines, k, g) ensures BelowOne(lines, cmd, k, g) {
        EarlyGuardAlwaysFires(lines, cmd, k, g);
        assert Fires(lines, cmd, g) <==> BelowOne(lines, cmd, k, g);
      }
    } else {
      var cmd: Macros, g: nat :| g < |lines| && GuardOf(lines[g]) == Some(k) &&
                                 (Fires(lines, cmd, g) <==> !BelowOne(lines, cmd, k, g));
      InexactIsEarly(lines, cmd, k, g);
      EarlyGuardAlwaysFires(lines, cmd, k, g);
    }
  }

  lemma InexactIsEarly(lines: seq<Line>, cmd: Macros, k: Name, g: nat)
    requires Disciplined(lines, k) && g < |lines| && GuardOf(lines[g]) == Some(k)
    requires Fires(lines, cmd, g) <==> !BelowOne(lines, cmd, k, g)
    ensures k !in cmd && Early(lines, k, g) && Offends(lines, map[], None, k)
  {
    if k in cmd || (FirstDef(lines, k).Some? && FirstDef(lines, k).value <= g) {
      OrderedGuardIsExact(lines, cmd, k, g);
    }
    assert FirstGuard(lines, k).Some? && FirstGuard(lines, k).value <= g + 1;
  }

  /** For a default that is a number, or none, the condition is that it is below 1. */
  lemma RuleDecidesForNumbers(lines: seq<Line>, k: Name)
    requires Disciplined(lines, k) && FirstGuard(lines, k).Some?
    requires DefaultBody(lines, k, |lines|).Some? ==> DefaultBody(lines, k, |lines|).value.Num?
    ensures Exact(lines, k) <==>
            !Offends(lines, map[], None, k) ||
            (DefaultBody(lines, k, |lines|).Some? && DefaultBody(lines, k, |lines|).value.n < 1)
  {
    RuleDecidesExactness(lines, k);
    var g := FirstGuard(lines, k).value - 1;
    if Offends(lines, map[], None, k) {
      var none: Macros := map[];
      assert Early(lines, k, g) && k !in none;
      assert BelowOne(lines, none, k, g) <==>
             DefaultBody(lines, k, |lines|).Some? && DefaultBody(lines, k, |lines|).value.n < 1;
    }
  }

  // ------------------------------------------------------- the compiler's answers

  function GuardedKnobs(lines: seq<Line>): set<Name> {
    set i: nat | i < |lines| && GuardOf(lines[i]).Some? :: GuardOf(lines[i]).value
  }

  /** The first probe: with the context's own defines and nothing else, no guard fires. */
  predicate SilentAtDefaults(lines: seq<Line>, ctx: Macros) {
    Diagnostics(lines, ctx) == {}
  }

  /** The second probe: with `-DK=0` added, some guard prints a message in which the knob's name occurs, be it
      as part of another knob's. */
  predicate FiresAtZero(lines: seq<Line>, ctx: Macros, k: Name) {
    exists i <- Diagnostics(lines, ctx[k := Num(0)]) :: Names(lines[i].dir, k)
  }

  predicate Names(d: Directive, k: Name) { d.Error? && Within(k, d.floor) }

  lemma NamesItself(k: Name)
    ensures Names(Error(k), k)
  {
    assert k[0..] == k;
  }

  predicate ProbePasses(lines: seq<Line>, ctx: Macros) {
    SilentAtDefaults(lines, ctx) && forall k <- GuardedKnobs(lines) :: FiresAtZero(lines, ctx, k)
  }

  /** At depth 0 the second probe passes whatever the order: `-D` is seen by a guard
      placed above the default just as well. */
  lemma DisciplinedFiresAtZero(lines: seq<Line>, ctx: Macros, k: Name)
    requires Disciplined(lines, k) && k in GuardedKnobs(lines)
    ensures FiresAtZero(lines, ctx, k)
  {
    var cmd := ctx[k := Num(0)];
    var g: nat :| g < |lines| && GuardOf(lines[g]) == Some(k);
    assert DisciplinedAt(lines, k, g);
    OrderedGuardIsExact(lines, cmd, k, g);
    NamesItself(k);
    assert g + 1 in Diagnostics(lines, cmd) && lines[g + 1].dir == Error(k);
  }

  predicate AllDisciplined(lines: seq<Line>, ctx: Macros) {
    && (forall k <- GuardedKnobs(lines) :: Disciplined(lines, k) && k !in ctx)
    && (forall i :: 0 <= i < |lines| && lines[i].dir.Error? ==> lines[i].dir.floor in GuardedKnobs(lines))
  }

  /** The rule reports no knob, and every default, read at its guards, is at least 1. */
  predicate RuleSilent(lines: seq<Line>, ctx: Macros) {
    && (forall k <- GuardedKnobs(lines) :: !Offends(lines, map[], None, k))
    && (forall g: nat :: g < |lines| && GuardOf(lines[g]).Some? ==> !BelowOne(lines, ctx, GuardOf(lines[g]).value, g))
  }

  lemma SilentMeansOrdered(lines: seq<Line>, ctx: Macros)
    requires AllDisciplined(lines, ctx) && SilentAtDefaults(lines, ctx)
    ensures RuleSilent(lines, ctx)
  {
    forall k <- GuardedKnobs(lines) ensures !Offends(lines, map[], None, k) {
      assert FirstGuard(lines, k).Some?;
      if Offends(lines, map[], None, k) {
        var g := FirstGuard(lines, k).value - 1;
        EarlyGuardAlwaysFires(lines, ctx, k, g);
      }
    }
    forall g: nat | g < |lines| && GuardOf(lines[g]).Some?
      ensures !BelowOne(lines, ctx, GuardOf(lines[g]).value, g)
    {
      var k := GuardOf(lines[g]).value;
      assert k in GuardedKnobs(lines);
      OrderedGuardIsExact(lines, ctx, k, g);
      assert !Fires(lines, ctx, g);
    }
  }

  lemma MessageHasGuard(lines: seq<Line>, k: Name, i: nat)
    requires Disciplined(lines, k) && i < |lines| && lines[i].dir == Error(k)
    ensures i > 0 && GuardOf(lines[i - 1]) == Some(k)
  {
    assert DisciplinedAt(lines, k, i);
  }

  lemma OrderedGuardSilent(lines: seq<Line>, ctx: Macros, k: Name, g: nat)
    requires Disciplined(lines, k) && g < |lines| && GuardOf(lines[g]) == Some(k)
    requires !Offends(lines, map[], None, k) && !BelowOne(lines, ctx, k, g)
    ensures !Fires(lines, ctx, g)
  {
    OrderedGuardIsExact(lines, ctx, k, g);
  }

  lemma OrderedMessageUnreached(lines: seq<Line>, ctx: Macros, i: nat)
    requires AllDisciplined(lines, ctx) && RuleSilent(lines, ctx) && i < |lines| && lines[i].dir.Error?
    ensures i !in Diagnostics(lines, ctx)
  {
    var k := lines[i].dir.floor;
    assert k in GuardedKnobs(lines);
    MessageHasGuard(lines, k, i);
    OrderedGuardSilent(lines, ctx, k, i - 1);
  }

  lemma OrderedMeansSilent(lines: seq<Line>, ctx: Macros)
    requires AllDisciplined(lines, ctx) && RuleSilent(lines, ctx)
    ensures SilentAtDefaults(lines, ctx)
  {
    forall i: nat ensures i !in Diagnostics(lines, ctx) {
      if i < |lines| && lines[i].dir.Error? {
        OrderedMessageUnreached(lines, ctx, i);
      }
    }
  }

  /** The rule against the compiler: over a disciplined file the two probes pass iff the
      rule reports no knob and every default, read at its guards, is at least 1. */
  lemma ProbeAgreesWithRule(lines: seq<Line>, ctx: Macros)
    requires AllDisciplined(lines, ctx)
    ensures ProbePasses(lines, ctx) <==> RuleSilent(lines, ctx)
  {
    forall k <- GuardedKnobs(lines) ensures FiresAtZero(lines, ctx, k) {
      DisciplinedFiresAtZero(lines, ctx, k);
    }
    if SilentAtDefaults(lines, ctx) {
      SilentMeansOrdered(lines, ctx);
    }
    if RuleSilent(lines, ctx) {
      OrderedMeansSilent(lines, ctx);
    }
  }
}
