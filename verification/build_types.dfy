/** The rules, the baseline and its application in scripts/check-build-type-spelling.py. */
module BuildTypes {
  import opened Text

  datatype Class = Interface | Owned | Ambiguous | Unclassified

  const UNKNOWN := "unknown-spelling"
  const DUPLICATE := "duplicate-build-type"
  const AMENT := "owned-declares-ament"
  const NOTHING := "owned-declares-nothing"
  const NROS := "interface-declares-nros"

  const RULES: set<string> := {UNKNOWN, DUPLICATE, AMENT, NOTHING, NROS}

  /** A broken rule with what the package declared. */
  datatype Breach = Breach(rule: string, declared: string)

  /** Which rule a package breaks, and the text reported with it. */
  predicate Breaks(b: Breach, declared: seq<string>, cls: Class, allowed: set<string>) {
    var value := if declared == [] then "" else declared[0];
    || (b == Breach(DUPLICATE, Join(declared, ",")) && |declared| > 1)
    || (b == Breach(UNKNOWN, value) && declared != [] && value !in allowed)
    || (b == Breach(NOTHING, "") && cls == Owned && declared == [])
    || (b == Breach(AMENT, value) && cls == Owned && declared != [] && "ament_" <= value)
    || (b == Breach(NROS, value) && cls == Interface && "nros_" <= value)
  }

  /** Of an owned package every `ament_` spelling is a breach, of an interface package every `nros_` one, and of no
      other package either. */
  lemma FamiliesBreak(v: string, declared: seq<string>, cls: Class, allowed: set<string>)
    ensures Breaks(Breach(AMENT, v), declared, cls, allowed) <==>
            cls == Owned && declared != [] && v == declared[0] && exists rest :: v == "ament_" + rest
    ensures Breaks(Breach(NROS, v), declared, cls, allowed) <==>
            cls == Interface && declared != [] && v == declared[0] && exists rest :: v == "nros_" + rest
  {
    Begins(v, "ament_");
    Begins(v, "nros_");
    assert !("nros_" <= "");
  }

  lemma Begins(v: string, prefix: string)
    ensures prefix <= v <==> exists rest :: v == prefix + rest
  {
    if prefix <= v {
      assert v == prefix + v[|prefix|..];
    }
  }

  predicate OncePerRule(vs: seq<Breach>) {
    && (forall i | 0 <= i < |vs| :: vs[i].rule in RULES)
    && (forall i, j | 0 <= i < j < |vs| :: vs[i].rule != vs[j].rule)
  }

  method Violations(declared: seq<string>, cls: Class, allowed: set<string>) returns (out: seq<Breach>)
    ensures forall b :: b in out <==> Breaks(b, declared, cls, allowed)
    ensures OncePerRule(out)
  {
    out := [];
    if |declared| > 1 {
      out := out + [Breach(DUPLICATE, Join(declared, ","))];
    }
    var value := if declared == [] then "" else declared[0];
    if declared != [] && value !in allowed {
      out := out + [Breach(UNKNOWN, value)];
    }
    if cls == Owned {
      if declared == [] {
        out := out + [Breach(NOTHING, "")];
      } else if "ament_" <= value {
        out := out + [Breach(AMENT, value)];
      }
    } else if cls == Interface && "nros_" <= value {
      out := out + [Breach(NROS, value)];
    }
  }

  // ---- Keys

  /** `s.rpartition("@")` without the separator: the text in front of the last `@`, and behind it. */
  function RPartition(s: string): (string, string) {
    if s == "" then ("", "")
    else if s[|s| - 1] == '@' then (s[..|s| - 1], "")
    else
      var (head, tail) := RPartition(s[..|s| - 1]);
      (head, tail + [s[|s| - 1]])
  }

  function KeyOf(path: string, rule: string): string { path + "@" + rule }

  /** The path and the rule are recovered from a key, whatever the path holds, as the rule has no `@`. */
  lemma {:induction false} KeyIsRecoverable(path: string, rule: string)
    requires '@' !in rule
    ensures RPartition(KeyOf(path, rule)) == (path, rule)
  {
    var s := KeyOf(path, rule);
    if rule == "" {
      assert s[..|s| - 1] == path;
    } else {
      var init := rule[..|rule| - 1];
      assert s[..|s| - 1] == KeyOf(path, init);
      assert s[|s| - 1] == rule[|rule| - 1];
      KeyIsRecoverable(path, init);
      assert init + [rule[|rule| - 1]] == rule;
    }
  }

  lemma RulesHaveNoAt(rule: string)
    requires rule in RULES
    ensures '@' !in rule
  {
  }

  // ---- A scan, its baseline, and applying one

  /** One package of the scan, with what it breaks. */
  datatype Row = Row(path: string, vs: seq<Breach>)

  datatype Violation = Violation(path: string, rule: string, declared: string)

  function Key(v: Violation): string { KeyOf(v.path, v.rule) }

  function OfRow(r: Row): seq<Violation> {
    seq(|r.vs|, i requires 0 <= i < |r.vs| => Violation(r.path, r.vs[i].rule, r.vs[i].declared))
  }

  /** Every violation of the scan, in its order. */
  function Flat(rows: seq<Row>): seq<Violation> {
    if rows == [] then [] else Flat(rows[..|rows| - 1]) + OfRow(rows[|rows| - 1])
  }

  /** Paths are distinct, and no package breaks a rule twice. */
  predicate Scan(rows: seq<Row>) {
    && (forall i, j | 0 <= i < j < |rows| :: rows[i].path != rows[j].path)
    && (forall i | 0 <= i < |rows| :: OncePerRule(rows[i].vs))
  }

  function Written(vs: seq<Violation>): map<string, string> {
    if vs == [] then map[] else Written(vs[..|vs| - 1])[Key(vs[|vs| - 1]) := vs[|vs| - 1].declared]
  }

  method WriteBaseline(rows: seq<Row>) returns (out: map<string, string>)
    ensures out == Written(Flat(rows))
  {
    out := map[];
    for i := 0 to |rows|
      invariant out == Written(Flat(rows[..i]))
    {
      assert rows[..i + 1][..i] == rows[..i];
      ghost var before := Flat(rows[..i]);
      var own := OfRow(rows[i]);
      assert before + own[..0] == before;
      for k := 0 to |own|
        invariant out == Written(before + own[..k])
      {
        assert (before + own[..k + 1])[..|before| + k] == before + own[..k];
        out := out[Key(own[k]) := own[k].declared];
      }
      assert own[..|own|] == own;
    }
    assert rows[..|rows|] == rows;
  }

  datatype Error =
    | NotGranted(v: Violation)
    | GrantedOther(v: Violation, granted: string)

  function ErrorOf(v: Violation, baseline: map<string, string>): Option<Error> {
    if Key(v) !in baseline then Some(NotGranted(v))
    else if baseline[Key(v)] != v.declared then Some(GrantedOther(v, baseline[Key(v)]))
    else None
  }

  function Errors(vs: seq<Violation>, baseline: map<string, string>): seq<Error> {
    if vs == [] then []
    else
      Errors(vs[..|vs| - 1], baseline) +
      match ErrorOf(vs[|vs| - 1], baseline) case Some(e) => [e] case None => []
  }

  function Exempt(vs: seq<Violation>, baseline: map<string, string>): seq<string> {
    if vs == [] then []
    else
      Exempt(vs[..|vs| - 1], baseline) + if ErrorOf(vs[|vs| - 1], baseline).None? then [Key(vs[|vs| - 1])] else []
  }

  function Keys(vs: seq<Violation>): set<string> { set v <- vs :: Key(v) }

  method ApplyBaseline(rows: seq<Row>, baseline: map<string, string>)
    returns (errors: seq<Error>, exempt: seq<string>, improved: set<string>)
    ensures errors == Errors(Flat(rows), baseline)
    ensures exempt == Exempt(Flat(rows), baseline)
    ensures improved == baseline.Keys - Keys(Flat(rows))
  {
    errors, exempt := [], [];
    var seen: set<string> := {};
    for i := 0 to |rows|
      invariant errors == Errors(Flat(rows[..i]), baseline) && exempt == Exempt(Flat(rows[..i]), baseline)
      invariant seen == Keys(Flat(rows[..i]))
    {
      assert rows[..i + 1][..i] == rows[..i];
      errors, exempt, seen := ApplyRow(rows[i], baseline, Flat(rows[..i]), errors, exempt, seen);
    }
    assert rows[..|rows|] == rows;
    improved := baseline.Keys - seen;
  }

  predicate Applied(vs: seq<Violation>, baseline: map<string, string>,
                    errors: seq<Error>, exempt: seq<string>, seen: set<string>)
  {
    errors == Errors(vs, baseline) && exempt == Exempt(vs, baseline) && seen == Keys(vs)
  }

  lemma AppliedStep(vs: seq<Violation>, v: Violation, baseline: map<string, string>,
                    errors: seq<Error>, exempt: seq<string>, seen: set<string>)
    requires Applied(vs, baseline, errors, exempt, seen)
    ensures Applied(vs + [v], baseline,
                    errors + (match ErrorOf(v, baseline) case Some(e) => [e] case None => []),
                    exempt + (if ErrorOf(v, baseline).None? then [Key(v)] else []), seen + {Key(v)})
  {
    OneMore(vs, v, baseline);
  }

  method ApplyRow(row: Row, baseline: map<string, string>, ghost done: seq<Violation>,
                  errorsBefore: seq<Error>, exemptBefore: seq<string>, seenBefore: set<string>)
    returns (errors: seq<Error>, exempt: seq<string>, seen: set<string>)
    requires Applied(done, baseline, errorsBefore, exemptBefore, seenBefore)
    ensures Applied(done + OfRow(row), baseline, errors, exempt, seen)
  {
    errors, exempt, seen := errorsBefore, exemptBefore, seenBefore;
    var own := OfRow(row);
    ghost var vs := done;
    for k := 0 to |own|
      invariant vs == done + own[..k]
      invariant Applied(vs, baseline, errors, exempt, seen)
    {
      errors, exempt, seen := ApplyOne(own[k], baseline, vs, errors, exempt, seen);
      Assoc(done, own[..k], [own[k]]);
      assert own[..k + 1] == own[..k] + [own[k]];
      vs := vs + [own[k]];
    }
    assert own[..|own|] == own;
  }

  method ApplyOne(v: Violation, baseline: map<string, string>, ghost vs: seq<Violation>,
                  errorsBefore: seq<Error>, exemptBefore: seq<string>, seenBefore: set<string>)
    returns (errors: seq<Error>, exempt: seq<string>, seen: set<string>)
    requires Applied(vs, baseline, errorsBefore, exemptBefore, seenBefore)
    ensures Applied(vs + [v], baseline, errors, exempt, seen)
  {
    AppliedStep(vs, v, baseline, errorsBefore, exemptBefore, seenBefore);
    errors, exempt, seen := errorsBefore, exemptBefore, seenBefore + {Key(v)};
    if Key(v) !in baseline {
      errors := errors + [NotGranted(v)];
    } else if baseline[Key(v)] != v.declared {
      errors := errors + [GrantedOther(v, baseline[Key(v)])];
    } else {
      exempt := exempt + [Key(v)];
    }
    assert errorsBefore + [] == errorsBefore && exemptBefore + [] == exemptBefore;
  }

  lemma OneMore(vs: seq<Violation>, v: Violation, baseline: map<string, string>)
    ensures Errors(vs + [v], baseline) ==
            Errors(vs, baseline) + match ErrorOf(v, baseline) case Some(e) => [e] case None => []
    ensures Exempt(vs + [v], baseline) == Exempt(vs, baseline) + if ErrorOf(v, baseline).None? then [Key(v)] else []
    ensures Keys(vs + [v]) == Keys(vs) + {Key(v)}
  {
    assert (vs + [v])[..|vs|] == vs;
  }

  // ---- What applying a baseline says

  predicate DistinctKeys(vs: seq<Violation>) {
    && (forall i | 0 <= i < |vs| :: vs[i].rule in RULES)
    && (forall i, j | 0 <= i < j < |vs| :: Key(vs[i]) != Key(vs[j]))
  }

  lemma KeysDiffer(a: Violation, b: Violation)
    requires a.rule in RULES && b.rule in RULES && (a.path != b.path || a.rule != b.rule)
    ensures Key(a) != Key(b)
  {
    RulesHaveNoAt(a.rule);
    RulesHaveNoAt(b.rule);
    KeyIsRecoverable(a.path, a.rule);
    KeyIsRecoverable(b.path, b.rule);
  }

  predicate FromPaths(vs: seq<Violation>, rows: seq<Row>) {
    forall i | 0 <= i < |vs| :: vs[i].rule in RULES && exists r | 0 <= r < |rows| :: rows[r].path == vs[i].path
  }

  /** The violations of a scan have distinct keys. */
  lemma {:induction false} ScanKeysDistinct(rows: seq<Row>)
    requires Scan(rows)
    ensures DistinctKeys(Flat(rows)) && FromPaths(Flat(rows), rows)
  {
    if rows != [] {
      var n := |rows| - 1;
      var a, b := Flat(rows[..n]), OfRow(rows[n]);
      ScanKeysDistinct(rows[..n]);
      forall i, j | 0 <= i < j < |a + b| ensures Key((a + b)[i]) != Key((a + b)[j]) {
        if j >= |a| {
          var w := b[j - |a|];
          if i < |a| {
            var r :| 0 <= r < n && rows[..n][r].path == a[i].path;
            assert rows[r].path != rows[n].path;
            KeysDiffer(a[i], w);
          } else {
            KeysDiffer(b[i - |a|], w);
          }
        }
      }
      forall i | 0 <= i < |a + b|
        ensures (a + b)[i].rule in RULES && exists r | 0 <= r < |rows| :: rows[r].path == (a + b)[i].path
      {
        if i < |a| {
          var r :| 0 <= r < n && rows[..n][r].path == a[i].path;
          assert rows[r].path == (a + b)[i].path;
        } else {
          assert rows[n].path == (a + b)[i].path;
        }
      }
    }
  }

  lemma WrittenSnoc(vs: seq<Violation>, v: Violation)
    ensures Written(vs + [v]) == Written(vs)[Key(v) := v.declared] && Keys(vs + [v]) == Keys(vs) + {Key(v)}
  {
    assert (vs + [v])[..|vs|] == vs;
  }

  predicate Holds(m: map<string, string>, v: Violation) { Key(v) in m && m[Key(v)] == v.declared }

  lemma {:induction false} WrittenHolds(vs: seq<Violation>)
    requires DistinctKeys(vs)
    ensures Written(vs).Keys == Keys(vs)
    ensures forall i | 0 <= i < |vs| :: Holds(Written(vs), vs[i])
  {
    if vs != [] {
      var init, last := vs[..|vs| - 1], vs[|vs| - 1];
      assert vs == init + [last];
      WrittenHolds(init);
      WrittenSnoc(init, last);
      forall i | 0 <= i < |init| ensures Holds(Written(vs), vs[i]) {
        assert Holds(Written(init), init[i]) && Key(vs[i]) != Key(last);
      }
    }
  }

  lemma {:induction false} NoErrorsIff(vs: seq<Violation>, baseline: map<string, string>)
    ensures Errors(vs, baseline) == [] <==> Granted(vs, baseline)
    ensures Errors(vs, baseline) == [] ==> Exempt(vs, baseline) == KeyList(vs)
    ensures |Errors(vs, baseline)| + |Exempt(vs, baseline)| == |vs|
  {
    if vs != [] {
      NoErrorsIff(vs[..|vs| - 1], baseline);
    }
  }

  function KeyList(vs: seq<Violation>): seq<string> {
    if vs == [] then [] else KeyList(vs[..|vs| - 1]) + [Key(vs[|vs| - 1])]
  }

  lemma {:induction false} KeyListOnce(vs: seq<Violation>)
    ensures |KeyList(vs)| == |vs| && forall i | 0 <= i < |vs| :: KeyList(vs)[i] == Key(vs[i])
  {
    if vs != [] {
      KeyListOnce(vs[..|vs| - 1]);
    }
  }

  /** A scan passes a baseline with nothing to report exactly when the baseline is the one written from that scan;
      each violation then has one exemption of its own. */
  lemma CleanIffWritten(rows: seq<Row>, baseline: map<string, string>)
    requires Scan(rows)
    ensures var vs := Flat(rows);
            (Errors(vs, baseline) == [] && baseline.Keys - Keys(vs) == {} <==> baseline == Written(vs)) &&
            (baseline == Written(vs) ==>
               Exempt(vs, baseline) == KeyList(vs) &&
               forall i, j | 0 <= i < j < |KeyList(vs)| :: KeyList(vs)[i] != KeyList(vs)[j])
  {
    var vs := Flat(rows);
    ScanKeysDistinct(rows);
    WrittenHolds(vs);
    NoErrorsIff(vs, baseline);
    KeyListOnce(vs);
    if Errors(vs, baseline) == [] && baseline.Keys - Keys(vs) == {} {
      forall k <- baseline ensures k in Keys(vs) { assert k !in baseline.Keys - Keys(vs); }
      SameMap(vs, baseline);
    }
  }

  predicate Granted(vs: seq<Violation>, baseline: map<string, string>) {
    forall i | 0 <= i < |vs| :: GrantedAt(vs[i], baseline)
  }

  predicate GrantedAt(v: Violation, baseline: map<string, string>) { ErrorOf(v, baseline).None? }

  lemma SameMap(vs: seq<Violation>, baseline: map<string, string>)
    requires DistinctKeys(vs) && baseline.Keys <= Keys(vs) && Granted(vs, baseline)
    ensures baseline == Written(vs)
  {
    WrittenHolds(vs);
    forall k <- Keys(vs) ensures k in baseline && baseline[k] == Written(vs)[k] {
      var v :| v in vs && Key(v) == k;
      var i :| 0 <= i < |vs| && vs[i] == v;
      assert GrantedAt(vs[i], baseline);
    }
  }

  /** A line that no longer applies names a package and a rule that were broken when the baseline was written
      and are not broken now. */
  lemma ImprovedNamesAFixedBreach(before: seq<Row>, now: seq<Row>, key: string)
    requires Scan(before) && Scan(now) && key in Written(Flat(before)).Keys - Keys(Flat(now))
    ensures exists v <- Flat(before) :: RPartition(key) == (v.path, v.rule) &&
                                        forall w <- Flat(now) :: w.path != v.path || w.rule != v.rule
  {
    ScanKeysDistinct(before);
    WrittenHolds(Flat(before));
    var v :| v in Flat(before) && Key(v) == key;
    RulesHaveNoAt(v.rule);
    KeyIsRecoverable(v.path, v.rule);
    forall w <- Flat(now) ensures w.path != v.path || w.rule != v.rule {
      assert Key(w) in Keys(Flat(now));
    }
  }

  // ---- Over a history

  datatype Commit = Commit(rows: seq<Row>, baseline: map<string, string>)

  /** No commit has an error, and no commit adds a line to the baseline or changes one. */
  predicate ShrinkingCleanRun(run: seq<Commit>) {
    && (forall i | 0 <= i < |run| :: Errors(Flat(run[i].rows), run[i].baseline) == [])
    && (forall i | 0 <= i < |run| - 1 :: Submap(run[i + 1].baseline, run[i].baseline))
  }

  predicate Submap(a: map<string, string>, b: map<string, string>) {
    forall k <- a :: k in b && b[k] == a[k]
  }

  lemma {:induction false} BaselinesShrink(run: seq<Commit>, i: nat, j: nat)
    requires ShrinkingCleanRun(run) && i <= j < |run|
    ensures Submap(run[j].baseline, run[i].baseline)
    decreases j - i
  {
    if i < j {
      BaselinesShrink(run, i, j - 1);
      assert Submap(run[j - 1 + 1].baseline, run[j - 1].baseline);
    }
  }

  /** Every violation of a later commit was granted at each earlier one, for the same declaration: a violation
      whose line has gone never returns, and a granted one never turns into another. */
  lemma NoNewViolation(run: seq<Commit>, i: nat, j: nat, v: Violation)
    requires ShrinkingCleanRun(run) && i <= j < |run| && v in Flat(run[j].rows)
    ensures Key(v) in run[i].baseline && run[i].baseline[Key(v)] == v.declared
  {
    BaselinesShrink(run, i, j);
    var vs := Flat(run[j].rows);
    NoErrorsIff(vs, run[j].baseline);
    var n :| 0 <= n < |vs| && vs[n] == v;
    assert GrantedAt(vs[n], run[j].baseline);
  }
}
