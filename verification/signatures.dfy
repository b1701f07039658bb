/** Upstream C signatures: enums, conformance, snapshot, check. */
module Signatures {
  import opened Text
  import opened TextLines
  import opened CTypes

  // ---- Enums

  /** An item of an enum's body: a trailing comma leaves a blank one. */
  datatype Item = Blank | Enumerator(name: string, value: Option<int>)

  predicate AllNamed(items: seq<Item>) { forall k | 0 <= k < |items| :: items[k].Enumerator? }

  /** The named items, in order. */
  function Named(items: seq<Item>): (r: seq<Item>)
    ensures AllNamed(r)
  {
    if items == [] then []
    else Named(items[..|items| - 1]) + if items[|items| - 1].Enumerator? then [items[|items| - 1]] else []
  }

  function IntText(n: int): string { if n < 0 then "-" + Decimal(-n) else Decimal(n) }

  function Valued(name: string, n: int): string { name + "=" + IntText(n) }

  /** The number C gives the `i`-th named item: its own, or one more than the item before it, from 0. */
  function NumberAt(items: seq<Item>, i: nat): int
    requires i < |items| && AllNamed(items)
  {
    match items[i].value
    case Some(v) => v
    case None => if i == 0 then 0 else NumberAt(items, i - 1) + 1
  }

  predicate Numbered(out: seq<string>, named: seq<Item>)
    requires AllNamed(named)
  {
    |out| == |named| && forall i | 0 <= i < |named| :: ValueAt(out, named, i)
  }

  predicate ValueAt(out: seq<string>, named: seq<Item>, i: nat)
    requires AllNamed(named) && i < |named| && i < |out|
  {
    out[i] == Valued(named[i].name, NumberAt(named, i))
  }

  /** The number an item without a value would get next. */
  function NextNumber(named: seq<Item>): int
    requires AllNamed(named)
  {
    if named == [] then 0 else NumberAt(named, |named| - 1) + 1
  }

  method EnumValues(items: seq<Item>) returns (out: seq<string>)
    ensures Numbered(out, Named(items))
  {
    out := [];
    var nxt := 0;
    for i := 0 to |items|
      invariant Numbered(out, Named(items[..i])) && nxt == NextNumber(Named(items[..i]))
    {
      assert items[..i + 1][..i] == items[..i];
      if items[i].Enumerator? {
        assert Named(items[..i + 1]) == Named(items[..i]) + [items[i]];
        if items[i].value.Some? {
          nxt := items[i].value.value;
        }
        NumberedStep(out, Named(items[..i]), items[i], nxt);
        out := out + [Valued(items[i].name, nxt)];
        nxt := nxt + 1;
      } else {
        assert Named(items[..i + 1]) == Named(items[..i]);
      }
    }
    assert items[..|items|] == items;
  }

  lemma NumberedStep(out: seq<string>, named: seq<Item>, item: Item, n: int)
    requires AllNamed(named) && item.Enumerator? && Numbered(out, named)
    requires n == if item.value.Some? then item.value.value else NextNumber(named)
    ensures Numbered(out + [Valued(item.name, n)], named + [item]) && NextNumber(named + [item]) == n + 1
  {
    var all := named + [item];
    var next := out + [Valued(item.name, n)];
    if named != [] {
      NumberPrefix(named, all, |named| - 1);
    }
    assert NumberAt(all, |named|) == n;
    forall i | 0 <= i < |all| ensures ValueAt(next, all, i) {
      if i < |named| {
        assert ValueAt(out, named, i);
        NumberPrefix(named, all, i);
      }
    }
  }

  /** Appending items changes no earlier number. */
  lemma {:induction false} NumberPrefix(a: seq<Item>, b: seq<Item>, i: nat)
    requires i < |a| && a <= b && AllNamed(a) && AllNamed(b)
    ensures NumberAt(b, i) == NumberAt(a, i)
  {
    assert b[i] == a[i];
    if i > 0 {
      NumberPrefix(a, b, i - 1);
    }
  }

  /** The number of an item is its distance from the last explicit value at or before it. */
  lemma {:induction false} NumberCountsFromExplicit(named: seq<Item>, i: nat, j: nat)
    requires i <= j < |named| && AllNamed(named)
    requires forall k | i < k <= j :: named[k].value.None?
    ensures NumberAt(named, j) == NumberAt(named, i) + (j - i)
  {
    if i < j {
      NumberCountsFromExplicit(named, i, j - 1);
    }
  }

  // ---- Conformance

  /** An enum has return type `-` and its values as parameters. */
  datatype Signature = Signature(ret: string, params: seq<string>)

  /** `kind` is `fn`, `cb` or `enum`. */
  datatype Key = Key(kind: string, name: string)

  const CONST := "const "

  function StripTopConst(t: string): string {
    if '*' !in t && CONST <= t then t[|CONST|..] else t
  }

  predicate ParamConforms(kind: string, up: string, ours: string) {
    var u, o := StripTopConst(up), StripTopConst(ours);
    u == o || (kind == "fn" && o == CONST + u)
  }

  predicate Conforms(kind: string, up: Signature, ours: Signature) {
    if kind == "enum" then up.params <= ours.params
    else
      && up.ret == ours.ret
      && |up.params| == |ours.params|
      && forall i | 0 <= i < |up.params| :: ParamConforms(kind, up.params[i], ours.params[i])
  }

  /** Another return type or another number of parameters never conforms. */
  lemma ShapeDecides(kind: string, up: Signature, ours: Signature)
    requires kind != "enum" && (up.ret != ours.ret || |up.params| != |ours.params|)
    ensures !Conforms(kind, up, ours)
  {
  }

  /** With one parameter changed a signature conforms iff that parameter does. */
  lemma OneParameterDecides(kind: string, up: Signature, i: nat, t: string)
    requires kind != "enum" && i < |up.params|
    ensures Conforms(kind, up, up.(params := up.params[i := t])) <==> ParamConforms(kind, up.params[i], t)
  {
    var ours := up.params[i := t];
    assert ours[i] == t;
    assert forall j | 0 <= j < |ours| && j != i :: ours[j] == up.params[j];
  }

  /** A pointer parameter of a function may gain a `const` and never lose one, that of a callback neither; a value
      parameter may do both. */
  lemma ConstOfParameter(kind: string, t: string)
    ensures '*' in t ==> (ParamConforms(kind, t, CONST + t) <==> kind == "fn") && !ParamConforms(kind, CONST + t, t)
    ensures '*' !in t && !(CONST <= t) ==> ParamConforms(kind, t, CONST + t) && ParamConforms(kind, CONST + t, t)
  {
    assert |CONST + t| == |t| + 6 && |CONST + (CONST + t)| == |t| + 12;
    assert '*' !in CONST && (CONST + t)[|CONST|..] == t;
    assert '*' in CONST + t <==> '*' in t;
  }

  /** Callback types conform like equal ones. */
  lemma CallbackConformityIsEquivalence(a: Signature, b: Signature, c: Signature)
    ensures Conforms("cb", a, a)
    ensures Conforms("cb", a, b) ==> Conforms("cb", b, a)
    ensures Conforms("cb", a, b) && Conforms("cb", b, c) ==> Conforms("cb", a, c)
  {
  }

  /** A function may widen a parameter to const, never narrow one: conforming both ways is
      conforming as a callback would. */
  lemma FunctionConformityIsOneWay(a: Signature, b: Signature)
    ensures Conforms("fn", a, b) && Conforms("fn", b, a) <==> Conforms("cb", a, b)
  {
    if Conforms("fn", a, b) && Conforms("fn", b, a) {
      forall i | 0 <= i < |a.params| ensures ParamConforms("cb", a.params[i], b.params[i]) {
        assert ParamConforms("fn", a.params[i], b.params[i]) && ParamConforms("fn", b.params[i], a.params[i]);
        var u, o := StripTopConst(a.params[i]), StripTopConst(b.params[i]);
        assert |CONST + u| == |u| + 6 && |CONST + o| == |o| + 6;
      }
    }
    if Conforms("cb", a, b) {
      forall i | 0 <= i < |a.params|
        ensures ParamConforms("fn", a.params[i], b.params[i]) && ParamConforms("fn", b.params[i], a.params[i])
      {
        assert ParamConforms("cb", a.params[i], b.params[i]);
      }
    }
  }

  lemma IntTextInjective(m: int, n: int)
    requires IntText(m) == IntText(n)
    ensures m == n
  {
    var p, q := if m < 0 then -m else m, if n < 0 then -n else n;
    DecimalDigits(p);
    DecimalDigits(q);
    assert '-' !in "0123456789";
    assert Decimal(p)[0] in Decimal(p) && Decimal(q)[0] in Decimal(q);
    assert m < 0 <==> IntText(m)[0] == '-';
    assert n < 0 <==> IntText(n)[0] == '-';
    if m < 0 {
      assert Decimal(p) == IntText(m)[1..] && Decimal(q) == IntText(n)[1..];
    }
    DecimalInjective(p, q);
  }

  lemma ValuedInjective(a: string, m: int, b: string, n: int)
    requires '=' !in a && '=' !in b && Valued(a, m) == Valued(b, n)
    ensures a == b && m == n
  {
    var s := Valued(a, m);
    assert s[|a|] == '=' && s[|b|] == '=';
    assert forall i | 0 <= i < |a| :: s[i] == a[i] && s[i] != '=';
    assert forall i | 0 <= i < |b| :: s[i] == b[i] && s[i] != '=';
    assert a == s[..|a|] && b == s[..|b|];
    assert IntText(m) == s[|a| + 1..] && IntText(n) == s[|b| + 1..];
    IntTextInjective(m, n);
  }

  predicate Enumerators(items: seq<Item>) {
    AllNamed(items) && forall k | 0 <= k < |items| :: '=' !in items[k].name
  }

  predicate SameValueAt(up: seq<Item>, ours: seq<Item>, i: nat)
    requires AllNamed(up) && AllNamed(ours) && i < |up| && i < |ours|
  {
    up[i].name == ours[i].name && NumberAt(up, i) == NumberAt(ours, i)
  }

  lemma ValueTextIff(up: seq<Item>, ours: seq<Item>, a: seq<string>, b: seq<string>, i: nat)
    requires Enumerators(up) && Enumerators(ours) && Numbered(a, up) && Numbered(b, ours) && i < |up| && i < |ours|
    ensures a[i] == b[i] <==> SameValueAt(up, ours, i)
  {
    assert ValueAt(a, up, i) && ValueAt(b, ours, i);
    if a[i] == b[i] {
      ValuedInjective(up[i].name, NumberAt(up, i), ours[i].name, NumberAt(ours, i));
    }
  }

  /** An enum conforms exactly when every upstream value has the same name and number, in the same place, in ours. */
  lemma EnumConformsIff(up: seq<Item>, ours: seq<Item>, a: Signature, b: Signature)
    requires Enumerators(up) && Enumerators(ours) && Numbered(a.params, up) && Numbered(b.params, ours)
    ensures Conforms("enum", a, b) <==> |up| <= |ours| && forall i | 0 <= i < |up| :: SameValueAt(up, ours, i)
  {
    if |up| <= |ours| {
      forall i | 0 <= i < |up| ensures a.params[i] == b.params[i] <==> SameValueAt(up, ours, i) {
        ValueTextIff(up, ours, a.params, b.params, i);
      }
    }
  }

  /** Appending values to an enum keeps it conforming. */
  lemma AppendingConforms(up: seq<Item>, more: seq<Item>, a: Signature, b: Signature)
    requires Enumerators(up) && Enumerators(up + more) && Numbered(a.params, up) && Numbered(b.params, up + more)
    ensures Conforms("enum", a, b)
  {
    forall i | 0 <= i < |up| ensures a.params[i] == b.params[i] {
      assert ValueAt(a.params, up, i) && ValueAt(b.params, up + more, i);
      NumberPrefix(up, up + more, i);
    }
  }

  // ---- The snapshot file

  datatype Row = Row(key: Key, sig: Signature)

  const TITLE := "# phase-492 W1.b \U{2014} ROS 2 " + ("humble C prototypes and enums" + ", generated by")
  const MAKER := "# scripts/check-c-api-" + ("upstream-signatures.py --snap" + "shot; do not hand-edit.")
  const COLUMNS := "# kind\tname\treturn\tparams (`;`-separated)"

  const HEADER: seq<string> := [TITLE, MAKER, COLUMNS]

  const KINDS: set<string> := {"fn", "cb", "enum"}

  function RowText(r: Row): string {
    Join([r.key.kind, r.key.name, r.sig.ret, Join(r.sig.params, ";")], "\t")
  }

  function RowTexts(rows: seq<Row>): seq<string> {
    seq(|rows|, i requires 0 <= i < |rows| => RowText(rows[i]))
  }

  function SnapshotText(rows: seq<Row>): string { Join(HEADER + RowTexts(rows), "\n") + "\n" }

  method WriteSnapshot(rows: seq<Row>) returns (text: string)
    ensures text == SnapshotText(rows)
  {
    var lines := HEADER;
    for i := 0 to |rows|
      invariant lines == HEADER + RowTexts(rows)[..i]
    {
      lines := lines + [RowText(rows[i])];
    }
    assert RowTexts(rows)[..|rows|] == RowTexts(rows);
    text := Join(lines, "\n") + "\n";
  }

  predicate Skipped(line: string) { line == "" || line[0] == '#' }

  /** A line with any number of tabs but three stops the reader. */
  function ReadRow(line: string): Option<Row> {
    var cells := SplitOn(line, "\t");
    if |cells| != 4 then None
    else Some(Row(Key(cells[0], cells[1]),
                  Signature(cells[2], if cells[3] == "" then [] else SplitOn(cells[3], ";"))))
  }

  function ReadLines(lines: seq<string>): Option<map<Key, Signature>> {
    if lines == [] then Some(map[])
    else
      var line := lines[|lines| - 1];
      match ReadLines(lines[..|lines| - 1])
      case None => None
      case Some(out) =>
        if Skipped(line) then Some(out)
        else match ReadRow(line)
          case None => None
          case Some(r) => Some(out[r.key := r.sig])
  }

  lemma {:induction false} BadLineStaysBad(lines: seq<string>, i: nat)
    requires i <= |lines| && ReadLines(lines[..i]).None?
    ensures ReadLines(lines).None?
  {
    if i < |lines| {
      assert lines[..|lines| - 1][..i] == lines[..i];
      BadLineStaysBad(lines[..|lines| - 1], i);
    } else {
      assert lines[..i] == lines;
    }
  }

  method ReadSnapshot(text: string) returns (out: Option<map<Key, Signature>>)
    ensures out == ReadLines(SplitLines(text))
  {
    var lines := SplitLines(text);
    var sigs: map<Key, Signature> := map[];
    for i := 0 to |lines|
      invariant ReadLines(lines[..i]) == Some(sigs)
    {
      assert lines[..i + 1][..i] == lines[..i];
      if Skipped(lines[i]) {
        continue;
      }
      var row := ReadRow(lines[i]);
      if row.None? {
        BadLineStaysBad(lines, i + 1);
        return None;
      }
      sigs := sigs[row.value.key := row.value.sig];
    }
    assert lines[..|lines|] == lines;
    return Some(sigs);
  }

  /** No tab, line break or semicolon in it. */
  predicate Plain(s: string) {
    forall i | 0 <= i < |s| :: s[i] !in BREAKS && s[i] != '\t' && s[i] != ';'
  }

  predicate PlainAll(ss: seq<string>) { forall i | 0 <= i < |ss| :: Plain(ss[i]) }

  predicate Writable(r: Row) {
    r.key.kind in KINDS && Plain(r.key.kind) && Plain(r.key.name) && Plain(r.sig.ret) && PlainAll(r.sig.params)
  }

  /** What a written row is read back as: a single empty parameter is lost. */
  function ReadBack(r: Row): Row {
    if r.sig.params == [""] then r.(sig := r.sig.(params := [])) else r
  }

  lemma {:induction false} JoinPlain(ss: seq<string>, sep: char)
    requires PlainAll(ss) && sep !in BREAKS
    ensures forall i | 0 <= i < |Join(ss, [sep])| ::
              var c := Join(ss, [sep])[i]; c !in BREAKS && (c == sep || (c != '\t' && c != ';'))
    ensures Join(ss, [sep]) == "" <==> ss == [] || ss == [""]
  {
    if |ss| > 1 {
      assert PlainAll(ss[1..]);
      JoinPlain(ss[1..], sep);
    } else if |ss| == 1 {
      assert Plain(ss[0]);
    }
  }

  function Cells(r: Row): seq<string> { [r.key.kind, r.key.name, r.sig.ret, Join(r.sig.params, ";")] }

  lemma CellsSplit(r: Row)
    requires Writable(r)
    ensures SplitOn(RowText(r), "\t") == Cells(r)
  {
    JoinPlain(r.sig.params, ';');
    assert '\t' !in Cells(r)[0] && '\t' !in Cells(r)[1] && '\t' !in Cells(r)[2] && '\t' !in Cells(r)[3];
    SplitJoin(Cells(r), '\t');
  }

  lemma RowIsOneLine(r: Row)
    requires Writable(r)
    ensures OneLine(RowText(r)) && !Skipped(RowText(r))
  {
    var p := Join(r.sig.params, ";");
    JoinPlain(r.sig.params, ';');
    FourCells(r.key.kind, r.key.name, r.sig.ret, p);
    assert OneLine(r.key.kind) && OneLine(r.key.name) && OneLine(r.sig.ret) && OneLine(p) && OneLine("\t");
    OneLineAppend(r.sig.ret, "\t");
    OneLineAppend(r.sig.ret + "\t", p);
    OneLineAppend(r.key.name, "\t");
    OneLineAppend(r.key.name + "\t", r.sig.ret + "\t" + p);
    OneLineAppend(r.key.kind, "\t");
    OneLineAppend(r.key.kind + "\t", r.key.name + "\t" + (r.sig.ret + "\t" + p));
    assert RowText(r)[0] == r.key.kind[0];
  }

  lemma RowReadsBack(r: Row)
    requires Writable(r)
    ensures ReadRow(RowText(r)) == Some(ReadBack(r))
  {
    CellsSplit(r);
    JoinPlain(r.sig.params, ';');
    if Join(r.sig.params, ";") != "" {
      assert forall i | 0 <= i < |r.sig.params| :: Plain(r.sig.params[i]);
      SplitJoin(r.sig.params, ';');
    }
  }

  lemma FourCells(a: string, b: string, c: string, d: string)
    ensures Join([a, b, c, d], "\t") == a + "\t" + (b + "\t" + (c + "\t" + d))
  {
    assert [a, b, c, d][1..] == [b, c, d];
    assert [b, c, d][1..] == [c, d];
    assert [c, d][1..] == [d];
    assert Join([c, d], "\t") == c + "\t" + d;
    assert Join([b, c, d], "\t") == b + "\t" + (c + "\t" + d);
  }

  function AsMap(rows: seq<Row>): map<Key, Signature> {
    if rows == [] then map[] else AsMap(rows[..|rows| - 1])[rows[|rows| - 1].key := rows[|rows| - 1].sig]
  }

  function ReadBackAll(rows: seq<Row>): seq<Row> {
    seq(|rows|, i requires 0 <= i < |rows| => ReadBack(rows[i]))
  }

  predicate AllWritable(rows: seq<Row>) { forall i | 0 <= i < |rows| :: Writable(rows[i]) }

  predicate DistinctKeys(rows: seq<Row>) {
    forall i, j | 0 <= i < j < |rows| :: rows[i].key != rows[j].key
  }

  lemma ReadLinesSnoc(lines: seq<string>, line: string, out: map<Key, Signature>)
    requires ReadLines(lines) == Some(out)
    ensures ReadLines(lines + [line]) ==
            if Skipped(line) then Some(out)
            else match ReadRow(line) case None => None case Some(r) => Some(out[r.key := r.sig])
  {
    assert (lines + [line])[..|lines|] == lines;
  }

  lemma {:induction false} SkippedLinesRead(a: seq<string>)
    requires forall i | 0 <= i < |a| :: Skipped(a[i])
    ensures ReadLines(a) == Some(map[])
  {
    if a != [] {
      SkippedLinesRead(a[..|a| - 1]);
    }
  }

  lemma AsMapSnoc(rows: seq<Row>, r: Row)
    ensures AsMap(rows + [r]) == AsMap(rows)[r.key := r.sig]
  {
    assert (rows + [r])[..|rows|] == rows;
  }

  lemma ReadRowText(lines: seq<string>, r: Row, out: map<Key, Signature>)
    requires Writable(r) && ReadLines(lines) == Some(out)
    ensures ReadLines(lines + [RowText(r)]) == Some(out[r.key := ReadBack(r).sig])
  {
    ReadLinesSnoc(lines, RowText(r), out);
    RowReadsBack(r);
    RowIsOneLine(r);
  }

  lemma RowsSnoc(rows: seq<Row>, r: Row)
    ensures RowTexts(rows + [r]) == RowTexts(rows) + [RowText(r)]
    ensures AsMap(ReadBackAll(rows + [r])) == AsMap(ReadBackAll(rows))[r.key := ReadBack(r).sig]
  {
    assert ReadBackAll(rows + [r]) == ReadBackAll(rows) + [ReadBack(r)];
    AsMapSnoc(ReadBackAll(rows), ReadBack(r));
  }

  lemma {:induction false} ReadLinesAppend(a: seq<string>, rows: seq<Row>)
    requires (forall i | 0 <= i < |a| :: Skipped(a[i])) && AllWritable(rows)
    ensures ReadLines(a + RowTexts(rows)) == Some(AsMap(ReadBackAll(rows)))
  {
    if rows == [] {
      SkippedLinesRead(a);
      assert a + RowTexts(rows) == a;
    } else {
      var init, last := rows[..|rows| - 1], rows[|rows| - 1];
      assert Writable(last) && rows == init + [last];
      ReadLinesAppend(a, init);
      RowsSnoc(init, last);
      ReadRowText(a + RowTexts(init), last, AsMap(ReadBackAll(init)));
      Assoc(a, RowTexts(init), [RowText(last)]);
    }
  }

  lemma TitleIsSkipped()
    ensures OneLine(TITLE) && Skipped(TITLE)
  {
    var a, b, c := "# phase-492 W1.b \U{2014} ROS 2 ", "humble C prototypes and enums", ", generated by";
    assert OneLine(a);
    assert OneLine(b);
    assert OneLine(c);
    OneLineAppend(b, c);
    OneLineAppend(a, b + c);
  }

  lemma MakerIsSkipped()
    ensures OneLine(MAKER) && Skipped(MAKER)
  {
    var a, b, c := "# scripts/check-c-api-", "upstream-signatures.py --snap", "shot; do not hand-edit.";
    assert OneLine(a);
    assert OneLine(b);
    assert OneLine(c);
    OneLineAppend(b, c);
    OneLineAppend(a, b + c);
  }

  lemma ColumnsIsSkipped()
    ensures OneLine(COLUMNS) && Skipped(COLUMNS)
  {
  }

  lemma HeaderIsSkipped()
    ensures forall i | 0 <= i < |HEADER| :: Skipped(HEADER[i])
    ensures NoBreaks(HEADER)
  {
    TitleIsSkipped();
    MakerIsSkipped();
    ColumnsIsSkipped();
  }

  lemma OneLineAppend(a: string, b: string)
    requires OneLine(a) && OneLine(b)
    ensures OneLine(a + b) && (a != "" ==> Skipped(a + b) == Skipped(a))
  {
  }

  /** The snapshot reads back as its rows, each with what `ReadBack` keeps of it. */
  lemma SnapshotReads(rows: seq<Row>)
    requires AllWritable(rows)
    ensures ReadLines(SplitLines(SnapshotText(rows))) == Some(AsMap(ReadBackAll(rows)))
  {
    HeaderIsSkipped();
    forall i | 0 <= i < |rows| ensures OneLine(RowTexts(rows)[i]) { RowIsOneLine(rows[i]); }
    SplitLinesUndoesJoin(HEADER + RowTexts(rows));
    ReadLinesAppend(HEADER, rows);
  }

  lemma {:induction false} AsMapHolds(rows: seq<Row>)
    requires DistinctKeys(rows)
    ensures forall i | 0 <= i < |rows| :: rows[i].key in AsMap(rows) && AsMap(rows)[rows[i].key] == rows[i].sig
  {
    if rows != [] {
      AsMapHolds(rows[..|rows| - 1]);
    }
  }

  lemma ReadBackAllChanges(rows: seq<Row>)
    requires DistinctKeys(rows)
    ensures AsMap(ReadBackAll(rows)) == AsMap(rows) <==> forall i | 0 <= i < |rows| :: rows[i].sig.params != [""]
  {
    var back := ReadBackAll(rows);
    AsMapHolds(rows);
    AsMapHolds(back);
    if i :| 0 <= i < |rows| && rows[i].sig.params == [""] {
      assert back[i].key == rows[i].key && back[i].sig != rows[i].sig;
    } else {
      assert back == rows;
    }
  }

  /** Reading the snapshot undoes writing it exactly when no signature has one empty parameter and no other. */
  lemma SnapshotRoundTrip(rows: seq<Row>)
    requires AllWritable(rows) && DistinctKeys(rows)
    ensures ReadLines(SplitLines(SnapshotText(rows))) == Some(AsMap(rows)) <==>
            forall i | 0 <= i < |rows| :: rows[i].sig.params != [""]
  {
    SnapshotReads(rows);
    ReadBackAllChanges(rows);
  }

  lemma TypeIsPlain(s: string)
    ensures Plain(NormType(s))
  {
    NormTypeText(s);
    TypeTextIsPlain(NormType(s));
  }

  lemma TypeTextIsPlain(s: string)
    requires TypeText(s)
    ensures Plain(s)
  {
  }

  lemma ParamsArePlain(params: string)
    ensures PlainAll(SplitParams(params))
  {
    if Strip(params) != "" && Strip(params) != "void" {
      var parts := BracketScanner.Pieces(Strip(params), BracketScanner.PARENS);
      forall i | 0 <= i < |parts| ensures Plain(ParamTypes(parts)[i]) { TypeIsPlain(TypePart(Strip(parts[i]))); }
    }
  }

  /** Every function or callback read out of a header can be written: its types are normalised. */
  lemma HarvestedIsWritable(kind: string, name: string, ret: string, params: string)
    requires (kind == "fn" || kind == "cb") && Identifier(name)
    ensures Writable(Row(Key(kind, name), Signature(NormType(ret), SplitParams(params))))
  {
    TypeIsPlain(ret);
    ParamsArePlain(params);
    TypeTextIsPlain(name);
    TypeTextIsPlain(kind);
  }

  lemma DecimalIsPlain(n: nat)
    ensures Plain(Decimal(n))
  {
    DecimalDigits(n);
    assert forall c <- "0123456789" :: c !in BREAKS && c != '\t' && c != ';';
    assert forall i | 0 <= i < |Decimal(n)| :: Decimal(n)[i] in Decimal(n);
  }

  lemma PlainAppend(a: string, b: string)
    requires Plain(a) && Plain(b)
    ensures Plain(a + b)
  {
  }

  lemma ValuedIsPlain(name: string, n: int)
    requires Identifier(name)
    ensures Plain(Valued(name, n))
  {
    TypeTextIsPlain(name);
    DecimalIsPlain(if n < 0 then -n else n);
    assert Plain("-") && Plain("=");
    if n < 0 {
      PlainAppend("-", Decimal(-n));
    }
    PlainAppend(name, "=");
    PlainAppend(name + "=", IntText(n));
  }

  /** And so can every enum whose values are numbered: its row is `-` and the numbered names. */
  lemma HarvestedEnumIsWritable(name: string, items: seq<Item>, values: seq<string>)
    requires Identifier(name) && AllNamed(items) && Numbered(values, items)
    requires forall i | 0 <= i < |items| :: Identifier(items[i].name)
    ensures Writable(Row(Key("enum", name), Signature("-", values)))
  {
    forall i | 0 <= i < |values| ensures Plain(values[i]) {
      assert ValueAt(values, items, i);
      ValuedIsPlain(items[i].name, NumberAt(items, i));
    }
    TypeTextIsPlain(name);
    assert Plain("enum") && Plain("-");
  }

  // ---- The deviation check

  datatype Error = Deviates(key: Key) | RulingIsStale(key: Key)

  /** The shared names whose contract differs from upstream's. */
  function Deviating(up: map<Key, Signature>, ours: map<Key, Signature>): set<Key> {
    set k | k in up.Keys * ours.Keys && !Conforms(k.kind, up[k], ours[k])
  }

  /** `keys` lists `s`, each element once. */
  ghost predicate Lists(keys: seq<Key>, s: set<Key>) {
    (forall k :: k in keys <==> k in s) && forall i, j | 0 <= i < j < |keys| :: keys[i] != keys[j]
  }

  ghost predicate Reports(errors: seq<Error>, deviating: set<Key>, baseline: set<Key>) {
    && (forall k :: Deviates(k) in errors <==> k in deviating && k !in baseline)
    && (forall k :: RulingIsStale(k) in errors <==> k in baseline && k !in deviating)
    && forall i, j | 0 <= i < j < |errors| :: errors[i] != errors[j]
  }

  /** `shared` and `listed` are the shared names and the baseline's, sorted. */
  method Check(up: map<Key, Signature>, ours: map<Key, Signature>, baseline: map<Key, string>,
               shared: seq<Key>, listed: seq<Key>) returns (errors: seq<Error>)
    requires Lists(shared, up.Keys * ours.Keys) && Lists(listed, baseline.Keys)
    ensures Reports(errors, Deviating(up, ours), baseline.Keys)
  {
    var deviating: set<Key>;
    errors, deviating := Compare(up, ours, baseline, shared);
    ghost var first := errors;
    for i := 0 to |listed|
      invariant forall k :: Deviates(k) in errors <==> k in deviating && k !in baseline
      invariant forall k :: RulingIsStale(k) in errors <==> k in listed[..i] && k !in deviating
      invariant forall a, b | 0 <= a < b < |errors| :: errors[a] != errors[b]
    {
      var key := listed[i];
      if key !in deviating {
        assert RulingIsStale(key) !in errors;
        errors := errors + [RulingIsStale(key)];
      }
    }
  }

  method Compare(up: map<Key, Signature>, ours: map<Key, Signature>, baseline: map<Key, string>, shared: seq<Key>)
    returns (errors: seq<Error>, deviating: set<Key>)
    requires Lists(shared, up.Keys * ours.Keys)
    ensures deviating == Deviating(up, ours)
    ensures forall k :: Deviates(k) in errors <==> k in deviating && k !in baseline
    ensures forall k :: RulingIsStale(k) !in errors
    ensures forall i, j | 0 <= i < j < |errors| :: errors[i] != errors[j]
  {
    errors, deviating := [], {};
    for i := 0 to |shared|
      invariant deviating == set k | k in shared[..i] && k in up && k in ours && !Conforms(k.kind, up[k], ours[k])
      invariant forall k :: Deviates(k) in errors <==> k in deviating && k !in baseline
      invariant forall k :: RulingIsStale(k) !in errors
      invariant forall a, b | 0 <= a < b < |errors| :: errors[a] != errors[b]
    {
      var key := shared[i];
      assert key in shared;
      if Conforms(key.kind, up[key], ours[key]) {
        continue;
      }
      deviating := deviating + {key};
      if key !in baseline {
        assert Deviates(key) !in errors;
        errors := errors + [Deviates(key)];
      }
    }
  }

  /** The check is clean exactly when the baseline names the deviating signatures and no others. */
  lemma CleanIffBaselineExact(errors: seq<Error>, deviating: set<Key>, baseline: set<Key>)
    requires Reports(errors, deviating, baseline)
    ensures errors == [] <==> baseline == deviating
  {
    if errors != [] {
      match errors[0]
      case Deviates(k) => assert Deviates(k) in errors;
      case RulingIsStale(k) => assert RulingIsStale(k) in errors;
    } else {
      forall k ensures k in baseline <==> k in deviating {
        assert Deviates(k) !in errors && RulingIsStale(k) !in errors;
      }
    }
  }

  // ---- Over a history

  datatype Commit = Commit(up: map<Key, Signature>, ours: map<Key, Signature>, baseline: set<Key>)

  /** The check is clean at each commit, and no commit adds a line to the baseline. */
  ghost predicate ShrinkingCleanRun(run: seq<Commit>) {
    && (forall i | 0 <= i < |run| :: Reports([], Deviating(run[i].up, run[i].ours), run[i].baseline))
    && (forall i | 0 <= i < |run| - 1 :: run[i + 1].baseline <= run[i].baseline)
  }

  /** A signature that conforms, or is gone, at one clean commit deviates at no later one. */
  lemma {:induction false} DeviationNeverReturns(run: seq<Commit>, i: nat, j: nat)
    requires ShrinkingCleanRun(run) && i <= j < |run|
    ensures Deviating(run[j].up, run[j].ours) <= Deviating(run[i].up, run[i].ours)
    decreases j - i
  {
    if i < j {
      var p, c := run[j - 1], run[j];
      DeviationNeverReturns(run, i, j - 1);
      assert run[j - 1 + 1].baseline <= run[j - 1].baseline;
      CleanIffBaselineExact([], Deviating(p.up, p.ours), p.baseline);
      CleanIffBaselineExact([], Deviating(c.up, c.ours), c.baseline);
    }
  }
}
