/** The envelope ratchet of scripts/api-parity.py. */
module EnvelopeRatchet {
  import opened Text
  import opened ParityLedger

  type Rows = map<string, Entry>

  /** The files a fresh clone has, with their text. */
  type Tree = map<string, string>

  datatype Reason =
    | NoEnvelope
    | EnvelopeBroken
    | BaselineNamesNoRow
    | BaselineRowUnbounded
    | BaselineRowHasEnvelope

  predicate Bounded(e: Entry) { e.disposition == Some("adopt-bounded") }

  predicate WellFormed(w: Witness) {
    && Strip(w.file) != "" && Strip(w.text) != ""
    && !("/" <= w.file) && ".." !in SplitOn(w.file, "/")
  }

  predicate Missing(w: Witness, tree: Tree) { w.file !in tree || !Within(w.text, tree[w.file]) }

  /** The witness holds iff the file's text is the cited text with something in front of it and behind it. */
  lemma WitnessHoldsIff(w: Witness, tree: Tree)
    ensures !Missing(w, tree) <==> w.file in tree && exists a, b :: tree[w.file] == a + w.text + b
  {
    if w.file in tree {
      WithinIff(w.text, tree[w.file]);
    }
  }

  /** A cited path is relative and has no `..` among its components. */
  lemma PathIsWellFormedIff(comps: seq<string>, text: string)
    requires comps != [] && forall i :: 0 <= i < |comps| ==> '/' !in comps[i]
    ensures WellFormed(Witness(Join(comps, "/"), text)) <==>
            Strip(Join(comps, "/")) != "" && Strip(text) != "" && !("/" <= Join(comps, "/")) && ".." !in comps
  {
    SplitJoin(comps, '/');
  }

  /** A well-formed envelope, on a row that may carry one, whose text the tree does not hold. */
  predicate Broken(e: Entry, tree: Tree) {
    e.envelope.Some? && Bounded(e) && WellFormed(e.envelope.value) && Missing(e.envelope.value, tree)
  }

  /** A malformed envelope, or one on a row that claims no bound, is not judged here. */
  lemma OthersAreNotBroken(e: Entry, tree: Tree)
    requires e.envelope.Some? && (!WellFormed(e.envelope.value) || e.disposition != Some("adopt-bounded"))
    ensures !Broken(e, tree)
  {
  }

  /** A claim of a bound with nothing to witness it. */
  predicate Unwitnessed(e: Entry) { Bounded(e) && e.envelope.None? }

  function UnwitnessedRows(ledger: Rows): set<string> {
    set k | k in ledger && Unwitnessed(ledger[k])
  }

  predicate IsBroken(ledger: Rows, tree: Tree, k: string) { k in ledger && Broken(ledger[k], tree) }

  function BrokenRows(ledger: Rows, tree: Tree): set<string> {
    set k | k in ledger && IsBroken(ledger, tree, k)
  }

  /** Why a baseline line is stale, if it is. */
  function Stale(ledger: Rows, key: string): Option<Reason> {
    if key !in ledger then Some(BaselineNamesNoRow)
    else if !Bounded(ledger[key]) then Some(BaselineRowUnbounded)
    else if ledger[key].envelope.Some? then Some(BaselineRowHasEnvelope)
    else None
  }

  function Add(found: map<string, Reason>, key: string, reason: Reason): map<string, Reason> {
    if key in found then found else found[key := reason]
  }

  ghost predicate Lists(keys: seq<string>, s: set<string>) {
    forall k :: k in keys <==> k in s
  }

  /** `keys` and `lines` are the ledger's keys and the baseline's, sorted. */
  method EnvelopeFindings(ledger: Rows, tree: Tree, baseline: set<string>, keys: seq<string>, lines: seq<string>)
    returns (found: map<string, Reason>)
    requires Lists(keys, ledger.Keys) && Lists(lines, baseline)
    ensures Found(found, ledger, tree, baseline)
  {
    var claims := Unguarded(ledger, baseline, keys);
    var broken := AddBroken(claims, ledger, tree, keys);
    found := AddStale(broken, ledger, lines);
  }

  method AddBroken(before: map<string, Reason>, ledger: Rows, tree: Tree, keys: seq<string>)
    returns (found: map<string, Reason>)
    requires Lists(keys, ledger.Keys)
    ensures found.Keys == before.Keys + BrokenRows(ledger, tree)
    ensures forall k <- found :: found[k] == if k in before then before[k] else EnvelopeBroken
  {
    found := before;
    for i := 0 to |keys|
      invariant forall k :: k in found <==> k in before || (k in keys[..i] && IsBroken(ledger, tree, k))
      invariant forall k <- found :: found[k] == if k in before then before[k] else EnvelopeBroken
    {
      var key := keys[i];
      assert key in keys;
      assert keys[..i + 1] == keys[..i] + [key];
      if IsBroken(ledger, tree, key) {
        found := Add(found, key, EnvelopeBroken);
      }
    }
    assert keys[..|keys|] == keys;
    forall k ensures k in BrokenRows(ledger, tree) <==> k in keys && IsBroken(ledger, tree, k) {}
  }

  method AddStale(before: map<string, Reason>, ledger: Rows, lines: seq<string>) returns (found: map<string, Reason>)
    ensures forall k :: k in found <==> k in before || (k in lines && Stale(ledger, k).Some?)
    ensures forall k <- found :: if k in before then found[k] == before[k] else Stale(ledger, k) == Some(found[k])
  {
    found := before;
    for i := 0 to |lines|
      invariant forall k :: k in found <==> k in before || (k in lines[..i] && Stale(ledger, k).Some?)
      invariant forall k <- found :: if k in before then found[k] == before[k] else Stale(ledger, k) == Some(found[k])
    {
      var line := lines[i];
      assert lines[..i + 1] == lines[..i] + [line];
      var stale := Stale(ledger, line);
      if stale.Some? {
        found := Add(found, line, stale.value);
      }
    }
    assert lines[..|lines|] == lines;
  }

  predicate NewClaim(ledger: Rows, baseline: set<string>, k: string) {
    k in ledger && Unwitnessed(ledger[k]) && k !in baseline
  }

  method Unguarded(ledger: Rows, baseline: set<string>, keys: seq<string>) returns (found: map<string, Reason>)
    requires Lists(keys, ledger.Keys)
    ensures forall k :: k in found <==> NewClaim(ledger, baseline, k)
    ensures forall k <- found :: found[k] == NoEnvelope
  {
    found := map[];
    for i := 0 to |keys|
      invariant forall k :: k in found <==> k in keys[..i] && NewClaim(ledger, baseline, k)
      invariant forall k <- found :: found[k] == NoEnvelope
    {
      assert keys[i] in keys;
      if NewClaim(ledger, baseline, keys[i]) {
        found := found[keys[i] := NoEnvelope];
      }
    }
  }

  /** The findings: each key once, with the first reason that applies. */
  ghost predicate Found(found: map<string, Reason>, ledger: Rows, tree: Tree, baseline: set<string>) {
    && (forall k :: k in found <==>
          NewClaim(ledger, baseline, k) || k in BrokenRows(ledger, tree) || (k in baseline && Stale(ledger, k).Some?))
    && (forall k <- found :: FirstReason(found[k], ledger, tree, baseline, k))
  }

  predicate FirstReason(r: Reason, ledger: Rows, tree: Tree, baseline: set<string>, k: string) {
    if NewClaim(ledger, baseline, k) then r == NoEnvelope
    else if k in BrokenRows(ledger, tree) then r == EnvelopeBroken
    else Stale(ledger, k) == Some(r)
  }

  /** There is nothing to report exactly when the baseline is the set of unwitnessed rows and every envelope holds. */
  lemma CleanIffBaselineExact(found: map<string, Reason>, ledger: Rows, tree: Tree, baseline: set<string>)
    requires Found(found, ledger, tree, baseline)
    ensures found == map[] <==> baseline == UnwitnessedRows(ledger) && BrokenRows(ledger, tree) == {}
  {
    if found == map[] {
      forall k ensures k in baseline <==> k in UnwitnessedRows(ledger) {
        assert k !in found;
      }
      forall k ensures k !in BrokenRows(ledger, tree) {
        assert k !in found;
      }
    }
    if baseline == UnwitnessedRows(ledger) && BrokenRows(ledger, tree) == {} {
      forall k ensures k !in found {
        assert k in baseline <==> k in UnwitnessedRows(ledger);
      }
    }
  }

  /** One commit as the gate sees it. */
  datatype Commit = Commit(ledger: Rows, tree: Tree, baseline: set<string>)

  /** The gate is clean at each commit, and no commit adds a line to the baseline. */
  ghost predicate ShrinkingCleanRun(run: seq<Commit>) {
    && (forall i | 0 <= i < |run| :: CleanCommit(run[i]))
    && (forall i | 0 <= i < |run| - 1 :: run[i + 1].baseline <= run[i].baseline)
  }

  ghost predicate CleanCommit(c: Commit) {
    exists found :: Found(found, c.ledger, c.tree, c.baseline) && found == map[]
  }

  /** A row that is witnessed, or gone, at one clean commit is never an unwitnessed claim again. */
  lemma {:induction false} WitnessedStaysWitnessed(run: seq<Commit>, i: nat, j: nat)
    requires ShrinkingCleanRun(run) && i <= j < |run|
    ensures UnwitnessedRows(run[j].ledger) <= UnwitnessedRows(run[i].ledger)
    decreases j - i
  {
    CleanHasExactBaseline(run[i]);
    CleanHasExactBaseline(run[j]);
    if i < j {
      WitnessedStaysWitnessed(run, i, j - 1);
      CleanHasExactBaseline(run[j - 1]);
      assert run[j - 1 + 1].baseline <= run[j - 1].baseline;
    }
  }

  lemma CleanHasExactBaseline(c: Commit)
    requires CleanCommit(c)
    ensures c.baseline == UnwitnessedRows(c.ledger)
  {
    var found :| Found(found, c.ledger, c.tree, c.baseline) && found == map[];
    CleanIffBaselineExact(found, c.ledger, c.tree, c.baseline);
  }
}
