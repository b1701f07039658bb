/** The C preprocessor's conditional machine (section 6.10.1 of ISO/IEC 9899:2011),
    over lines that have already been recognised as directives. */
module Preprocessor {
  import opened Text

  type Name = string

  /** Controlling expressions and object-like macro bodies. A body stands for its value, as one that is a single
      token or parenthesised does. */
  datatype Expr =
    | Num(n: int)
    | Id(name: Name)
    | Defined(name: Name)
    | Add(a: Expr, b: Expr)
    | Mul(a: Expr, b: Expr)
    | Lt(a: Expr, b: Expr)
    | Eq(a: Expr, b: Expr)
    | And(a: Expr, b: Expr)
    | Or(a: Expr, b: Expr)
    | Not(a: Expr)

  datatype Directive =
    | If(cond: Expr)
    | Ifdef(name: Name)
    | Ifndef(name: Name)
    | Elif(cond: Expr)
    | Else
    | Endif
    | Define(name: Name, body: Expr)
    | Undef(name: Name)
    /** `#error` with a "KNOB must be >= N" message; `floor` is the knob it names. */
    | Error(floor: Name)
    | Other

  /** `plain`: the directive is written the way the line patterns of the order rule
      expect (the `#` in column 0, nothing trailing). The compiler does not care. */
  datatype Line = Line(dir: Directive, plain: bool)

  type Macros = map<Name, Expr>

  function Truth(b: bool): int { if b then 1 else 0 }

  /** The value of an expression. A macro name being expanded is not expanded again
      (section 6.10.3.4), and an identifier that is not a macro reads as 0. */
  function Eval(e: Expr, macros: Macros, hidden: set<Name>): int
    decreases macros.Keys - hidden, e
  {
    match e
    case Num(n) => n
    case Id(k) =>
      if k in macros && k !in hidden then
        assert macros.Keys - (hidden + {k}) < macros.Keys - hidden by {
          assert k in macros.Keys - hidden;
        }
        Eval(macros[k], macros, hidden + {k})
      else 0
    case Defined(k) => Truth(k in macros)
    case Add(a, b) => Eval(a, macros, hidden) + Eval(b, macros, hidden)
    case Mul(a, b) => Eval(a, macros, hidden) * Eval(b, macros, hidden)
    case Lt(a, b) => Truth(Eval(a, macros, hidden) < Eval(b, macros, hidden))
    case Eq(a, b) => Truth(Eval(a, macros, hidden) == Eval(b, macros, hidden))
    case And(a, b) => Truth(Eval(a, macros, hidden) != 0 && Eval(b, macros, hidden) != 0)
    case Or(a, b) => Truth(Eval(a, macros, hidden) != 0 || Eval(b, macros, hidden) != 0)
    case Not(a) => Truth(Eval(a, macros, hidden) == 0)
  }

  predicate Holds(e: Expr, macros: Macros) { Eval(e, macros, {}) != 0 }

  /** One open conditional: is its current group live, and has any of its groups been. */
  datatype Frame = Frame(live: bool, taken: bool)

  datatype State = State(macros: Macros, stack: seq<Frame>)

  /** A line is processed iff every conditional around it is in a live group. */
  predicate Active(stack: seq<Frame>) {
    forall i :: 0 <= i < |stack| ==> stack[i].live
  }

  function Open(st: State, live: bool): State {
    st.(stack := st.stack + [Frame(live, live)])
  }

  function Top(st: State, f: Frame): State
    requires st.stack != []
  {
    st.(stack := st.stack[..|st.stack| - 1] + [f])
  }

  /** One line. Inside a skipped group only the nesting of conditionals is tracked. */
  function Step(st: State, d: Directive): State {
    var on := Active(st.stack);
    match d
    case If(c) => Open(st, on && Holds(c, st.macros))
    case Ifdef(k) => Open(st, on && k in st.macros)
    case Ifndef(k) => Open(st, on && k !in st.macros)
    case Elif(c) =>
      if st.stack == [] then st else
        var f := st.stack[|st.stack| - 1];
        var live := !f.taken && Holds(c, st.macros);
        Top(st, Frame(live, f.taken || live))
    case Else =>
      if st.stack == [] then st else Top(st, Frame(!st.stack[|st.stack| - 1].taken, true))
    case Endif => if st.stack == [] then st else st.(stack := st.stack[..|st.stack| - 1])
    case Define(k, body) => if on then st.(macros := st.macros[k := body]) else st
    case Undef(k) => if on then st.(macros := st.macros - {k}) else st
    case Error(_) => st
    case Other => st
  }

  /** The state in front of line `i`, started with the `-D` macros `cmd`. */
  function Run(lines: seq<Line>, cmd: Macros, i: nat): State
    requires i <= |lines|
  {
    if i == 0 then State(cmd, []) else Step(Run(lines, cmd, i - 1), lines[i - 1].dir)
  }

  /** The state behind `lines`, entered in state `st`. */
  function RunFrom(st: State, lines: seq<Line>): State {
    if lines == [] then st else Step(RunFrom(st, lines[..|lines| - 1]), lines[|lines| - 1].dir)
  }

  lemma RunFromSnoc(st: State, lines: seq<Line>, l: Line)
    ensures RunFrom(st, lines + [l]) == Step(RunFrom(st, lines), l.dir)
  {
    assert (lines + [l])[..|lines|] == lines;
  }

  lemma {:induction false} RunFromAppend(st: State, a: seq<Line>, b: seq<Line>)
    ensures RunFrom(st, a + b) == RunFrom(RunFrom(st, a), b)
  {
    if b == [] {
      assert a + b == a;
    } else {
      var init, l := b[..|b| - 1], b[|b| - 1];
      RunFromAppend(st, a, init);
      assert b == init + [l];
      Assoc(a, init, [l]);
      RunFromSnoc(st, a + init, l);
    }
  }

  lemma {:induction false} RunIsRunFrom(lines: seq<Line>, cmd: Macros, i: nat)
    requires i <= |lines|
    ensures Run(lines, cmd, i) == RunFrom(State(cmd, []), lines[..i])
  {
    if i > 0 {
      RunIsRunFrom(lines, cmd, i - 1);
      assert lines[..i] == lines[..i - 1] + [lines[i - 1]];
      RunFromSnoc(State(cmd, []), lines[..i - 1], lines[i - 1]);
    }
  }

  /** Whether the compiler processes line `i`. */
  predicate Reached(lines: seq<Line>, cmd: Macros, i: nat)
    requires i <= |lines|
  {
    Active(Run(lines, cmd, i).stack)
  }

  /** The number of open conditionals after a line, from the number in front of it. */
  function Height(h: nat, d: Directive): nat {
    match d
    case If(_) => h + 1
    case Ifdef(_) => h + 1
    case Ifndef(_) => h + 1
    case Endif => if h == 0 then 0 else h - 1
    case _ => h
  }

  /** How many conditionals are open in front of line `i`: a fact about the text alone. */
  function Depth(lines: seq<Line>, i: nat): nat
    requires i <= |lines|
  {
    if i == 0 then 0 else Height(Depth(lines, i - 1), lines[i - 1].dir)
  }

  lemma StepHeight(st: State, d: Directive)
    ensures |Step(st, d).stack| == Height(|st.stack|, d)
  {
  }

  lemma {:induction false} DepthIsStackHeight(lines: seq<Line>, cmd: Macros, i: nat)
    requires i <= |lines|
    ensures |Run(lines, cmd, i).stack| == Depth(lines, i)
  {
    if i > 0 {
      DepthIsStackHeight(lines, cmd, i - 1);
      StepHeight(Run(lines, cmd, i - 1), lines[i - 1].dir);
    }
  }

  /** `#error` diagnostics of guard shape that a compile prints, by line. */
  function Diagnostics(lines: seq<Line>, cmd: Macros): set<nat> {
    set i: nat | i < |lines| && lines[i].dir.Error? && Reached(lines, cmd, i)
  }
}
