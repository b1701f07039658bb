/** Platform descriptors as documents, a printer for them, and what the line reader makes of each printed piece: a
    string, an array on one line, an array over several lines, a block. A piece is printed in the plainest form the
    format has, arrays in either of two layouts. The reader works on lines one at a time, so every lemma here says how
    the reader's state changes over the lines of one piece; an array over several lines is closed by the first line
    that holds a `]`, whether or not that is the line meant to close it. */
module PlatformDocuments {
  import opened Text
  import opened ArchProfiles
  import opened PlatformFileReader

  // ------------------------------------------------------------- documents

  /** An array of strings as written: on one line, or one line per row of items. */
  datatype ArrayText = OneLine(items: seq<string>) | Rows(rows: seq<seq<string>>)

  datatype Block = Block(name: string, targetMatch: Option<string>, targetExclude: Option<string>,
                         cflags: Option<ArrayText>)

  datatype Doc = Doc(inherits: Option<string>, declared: Option<ArrayText>, blocks: seq<Block>)

  function Flatten(rows: seq<seq<string>>): seq<string> {
    if rows == [] then [] else rows[0] + Flatten(rows[1..])
  }

  function Items(a: ArrayText): seq<string> {
    match a
    case OneLine(items) => items
    case Rows(rows) => Flatten(rows)
  }

  predicate HasBracket(row: seq<string>) { exists i :: 0 <= i < |row| && ']' in row[i] }

  /** The rows down to the first that holds a `]`, that one included: the reader takes it for the end of the array. */
  function RowsRead(rows: seq<seq<string>>): seq<seq<string>> {
    if rows == [] then []
    else if HasBracket(rows[0]) then [rows[0]]
    else [rows[0]] + RowsRead(rows[1..])
  }

  /** What the reader keeps of an array. */
  function ItemsRead(a: ArrayText): seq<string> {
    match a
    case OneLine(items) => items
    case Rows(rows) => Flatten(RowsRead(rows))
  }

  /** No row that holds a `]` has an item below it. */
  predicate Complete(a: ArrayText) {
    a.Rows? ==> forall i, j :: 0 <= i < j < |a.rows| && HasBracket(a.rows[i]) ==> a.rows[j] == []
  }

  predicate AllComplete(d: Doc) {
    && (d.declared.Some? ==> Complete(d.declared.value))
    && (forall i :: 0 <= i < |d.blocks| && d.blocks[i].cflags.Some? ==> Complete(d.blocks[i].cflags.value))
  }

  function ProfileRead(b: Block): Profile {
    Profile(b.targetMatch, b.targetExclude, if b.cflags.Some? then Some(ItemsRead(b.cflags.value)) else None)
  }

  function ProfilesRead(blocks: seq<Block>): map<string, Profile> {
    if blocks == [] then map[] else
      ProfilesRead(blocks[..|blocks| - 1])[blocks[|blocks| - 1].name := ProfileRead(blocks[|blocks| - 1])]
  }

  function ProfileOf(b: Block): Profile {
    Profile(b.targetMatch, b.targetExclude, if b.cflags.Some? then Some(Items(b.cflags.value)) else None)
  }

  function ProfilesOf(blocks: seq<Block>): map<string, Profile> {
    if blocks == [] then map[] else
      ProfilesOf(blocks[..|blocks| - 1])[blocks[|blocks| - 1].name := ProfileOf(blocks[|blocks| - 1])]
  }

  predicate Plain(s: string) { '"' !in s && '#' !in s }

  predicate WellFormedArray(a: ArrayText) {
    match a
    case OneLine(items) => PlainItems(items)
    case Rows(rows) => PlainRows(rows)
  }

  predicate PlainItem(x: string) { x != "" && Plain(x) }

  predicate PlainItems(items: seq<string>) { forall i :: 0 <= i < |items| ==> PlainItem(items[i]) }

  predicate PlainRows(rows: seq<seq<string>>) { forall i :: 0 <= i < |rows| ==> PlainItems(rows[i]) }

  predicate WellFormedName(n: string) {
    n != "" && Plain(n) && '[' !in n && ']' !in n && n[|n| - 1] !in SPACES
  }

  predicate WellFormedBlock(b: Block) {
    WellFormedName(b.name) &&
    (b.targetMatch.Some? ==> Plain(b.targetMatch.value)) &&
    (b.targetExclude.Some? ==> Plain(b.targetExclude.value)) &&
    (b.cflags.Some? ==> WellFormedArray(b.cflags.value))
  }

  predicate WellFormed(d: Doc) {
    (d.inherits.Some? ==> Plain(d.inherits.value)) &&
    (d.declared.Some? ==> WellFormedArray(d.declared.value)) &&
    GoodBlocks(d.blocks)
  }

  // ------------------------------------------------------------- the printer

  function Quote(s: string): string { "\"" + s + "\"" }

  function CommaList(items: seq<string>): string {
    if items == [] then ""
    else if |items| == 1 then Quote(items[0])
    else Quote(items[0]) + ", " + CommaList(items[1..])
  }

  function RowText(row: seq<string>): string { CommaList(row) + "," }

  function RowLines(rows: seq<seq<string>>): seq<string> {
    if rows == [] then ["]"] else ["  " + RowText(rows[0])] + RowLines(rows[1..])
  }

  function PrintArray(key: string, a: ArrayText): seq<string> {
    match a
    case OneLine(items) => [key + " = " + ("[" + CommaList(items) + "]")]
    case Rows(rows) => [key + " = " + "["] + RowLines(rows)
  }

  function PrintString(key: string, v: Option<string>): seq<string> {
    if v.Some? then [key + " = " + Quote(v.value)] else []
  }

  function PrintOptArray(key: string, a: Option<ArrayText>): seq<string> {
    if a.Some? then PrintArray(key, a.value) else []
  }

  function Section(name: string): string { "arch." + name }

  function PrintBlock(b: Block): seq<string> {
    ["[" + Section(b.name) + "]"] +
    (PrintString("target_match", b.targetMatch) +
     (PrintString("target_exclude", b.targetExclude) + PrintOptArray("cflags", b.cflags)))
  }

  function PrintBlocks(blocks: seq<Block>): seq<string> {
    if blocks == [] then [] else
      PrintBlocks(blocks[..|blocks| - 1]) + PrintBlock(blocks[|blocks| - 1])
  }

  function PrintDoc(d: Doc): seq<string> {
    PrintString("inherits", d.inherits) + (PrintOptArray("arch_profiles", d.declared) + PrintBlocks(d.blocks))
  }

  // ------------------------------------------------------------- lexical lemmas

  lemma {:induction false} QuotedSkips(t: string, s: string, least: nat)
    requires '"' !in t
    ensures Quoted(t + s, least) == Quoted(s, least)
  {
    if t == "" {
      assert t + s == s;
    } else {
      assert (t + s)[1..] == t[1..] + s;
      QuotedSkips(t[1..], s, least);
    }
  }

  lemma {:induction false} NextQuoteAt(x: string, s: string)
    requires '"' !in x
    ensures NextQuote(x + "\"" + s) == |x|
  {
    if x == "" {
      assert x + "\"" + s == "\"" + s;
    } else {
      assert (x + "\"" + s)[1..] == x[1..] + "\"" + s;
      NextQuoteAt(x[1..], s);
    }
  }

  lemma QuotedTakes(x: string, s: string, least: nat)
    requires '"' !in x && |x| >= least
    ensures Quoted(Quote(x) + s, least) == [x] + Quoted(s, least)
  {
    var all := Quote(x) + s;
    assert all[1..] == x + "\"" + s;
    NextQuoteAt(x, s);
    assert all[1..|x| + 1] == x && all[|x| + 2..] == s;
  }

  lemma QuotedNext(x: string, rest: string)
    requires PlainItem(x)
    ensures Quoted(Quote(x) + (", " + rest), 1) == [x] + Quoted(rest, 1)
  {
    QuotedTakes(x, ", " + rest, 1);
    QuotedSkips(", ", rest, 1);
  }

  lemma CommaListSplits(items: seq<string>, s: string)
    requires |items| > 1
    ensures CommaList(items) + s == Quote(items[0]) + (", " + (CommaList(items[1..]) + s))
  {
    var q, more := Quote(items[0]), CommaList(items[1..]);
    Assoc(q + ", ", more, s);
    Assoc(q, ", ", more + s);
  }

  lemma CommaListStep(items: seq<string>, s: string, tail: seq<string>)
    requires |items| > 1 && PlainItem(items[0]) && Quoted(CommaList(items[1..]) + s, 1) == tail
    ensures Quoted(CommaList(items) + s, 1) == [items[0]] + tail
  {
    CommaListSplits(items, s);
    QuotedNext(items[0], CommaList(items[1..]) + s);
  }

  lemma {:induction false} QuotedCommaList(items: seq<string>, s: string)
    requires PlainItems(items)
    ensures Quoted(CommaList(items) + s, 1) == items + Quoted(s, 1)
  {
    if |items| > 1 {
      QuotedCommaList(items[1..], s);
      CommaListStep(items, s, items[1..] + Quoted(s, 1));
      Assoc([items[0]], items[1..], Quoted(s, 1));
    } else if |items| == 1 {
      QuotedTakes(items[0], s, 1);
    } else {
      assert CommaList(items) + s == s;
    }
  }

  lemma {:induction false} CommaListChars(items: seq<string>, c: char)
    requires c != '"' && c != ',' && c != ' ' && forall i :: 0 <= i < |items| ==> c !in items[i]
    ensures c !in CommaList(items)
  {
    if |items| > 1 {
      CommaListChars(items[1..], c);
    }
  }

  lemma CleanLine(pre: string, s: string)
    requires Trim(s, SPACES) && s[0] != '#' && '#' !in s && forall c <- pre :: c in SPACES
    ensures Clean(pre + s) == s
  {
    StripPadding(pre, s, "", SPACES);
    assert pre + s + "" == pre + s;
    BeforeAbsent(pre + s, '#');
  }

  lemma KeyValueLine(key: string, v: string)
    requires key != "" && (Letter(key[0]) || key[0] == '_') && forall c <- key :: WordChar(c)
    requires Trim(v, SPACES)
    ensures KeyValue(key + " = " + v) == Some((key, v))
  {
    var line := key + " = " + v;
    WordRunIs(key, " = " + v);
    assert line == key + (" = " + v);
    assert line[|key|..] == " " + ("= " + v);
    StripLeftPadding(" ", "= " + v, SPACES);
    assert ("= " + v)[1..] == " " + v + "";
    StripPadding(" ", v, "", SPACES);
  }

  // ------------------------------------------------------------- reading the pieces

  predicate Ident(key: string) {
    key != "" && Letter(key[0]) && forall c <- key :: WordChar(c)
  }

  lemma KnownKeys()
    ensures Ident("inherits") && Ident("arch_profiles")
    ensures Ident("target_match") && Ident("target_exclude") && Ident("cflags")
  {
  }

  lemma AssignmentText(key: string, v: string)
    requires Ident(key) && Trim(v, SPACES) && '#' !in v
    ensures Clean(key + " = " + v) == key + " = " + v
  {
    var line := key + " = " + v;
    assert '#' !in key;
    assert line[0] == key[0] && line[|line| - 1] == v[|v| - 1];
    CleanLine("", line);
    assert "" + line == line;
  }

  lemma ReadAssignment(r: Reader, key: string, v: string)
    requires Ident(key) && r.pendingKey.None? && Trim(v, SPACES) && '#' !in v
    ensures ReadLine(r, key + " = " + v) == Assign(r, key, v)
  {
    AssignmentText(key, v);
    KeyValueLine(key, v);
    assert (key + " = " + v)[0] == key[0];
  }

  lemma ReadOne(r: Reader, line: string)
    ensures ReadLines(r, [line]) == ReadLine(r, line)
  {
    assert ReadLines(ReadLine(r, line), []) == ReadLine(r, line);
  }

  lemma ReadCons(r: Reader, line: string, rest: seq<string>)
    ensures ReadLines(r, [line] + rest) == ReadLines(ReadLine(r, line), rest)
  {
    assert ([line] + rest)[1..] == rest;
  }

  lemma ReadString(r: Reader, key: string, v: string)
    requires Ident(key) && r.pendingKey.None? && Plain(v)
    ensures ReadLines(r, PrintString(key, Some(v))) == Assign(r, key, Quote(v))
    ensures Quoted(Quote(v), 0) == [v]
  {
    ReadAssignment(r, key, Quote(v));
    ReadOne(r, key + " = " + Quote(v));
    QuotedTakes(v, "", 0);
    assert Quote(v) + "" == Quote(v) && Quoted("", 0) == [];
  }

  /** What the reader is left with once an array has been read for `key`. */
  function WithItems(r: Reader, key: string, items: seq<string>): Reader {
    if key == "arch_profiles" then r.(declared := r.declared + items) else SetCflags(r, items)
  }

  predicate Expects(r: Reader, key: string) {
    r.pendingKey.None? &&
    ((key == "arch_profiles" && r.section == "") ||
     (key == "cflags" && r.current.Some? && r.current.value in r.profiles))
  }

  function Bracketed(items: seq<string>): string { "[" + CommaList(items) + "]" }

  lemma BracketedItems(items: seq<string>)
    requires PlainItems(items)
    ensures Quoted(Bracketed(items), 1) == items
  {
    var tail := CommaList(items) + "]";
    assert Bracketed(items) == "[" + tail;
    QuotedSkips("[", tail, 1);
    QuotedCommaList(items, "]");
    QuotedSkips("]", "", 1);
    assert "]" + "" == "]";
  }

  lemma BracketedShape(items: seq<string>)
    requires PlainItems(items)
    ensures var v := Bracketed(items);
            "[" <= v && ']' in v && '#' !in v && v[0] == '[' && v[|v| - 1] == ']'
  {
    CommaListChars(items, '#');
    var v := Bracketed(items);
    assert v[|v| - 1] == ']';
  }

  lemma ReadOneLineArray(r: Reader, key: string, items: seq<string>)
    requires Expects(r, key) && PlainItems(items)
    ensures ReadLines(r, PrintArray(key, OneLine(items))) == WithItems(r, key, items)
  {
    var v := Bracketed(items);
    KnownKeys();
    BracketedShape(items);
    BracketedItems(items);
    ReadAssignment(r, key, v);
    ReadOne(r, key + " = " + v);
  }

  lemma ReadClose(r: Reader)
    requires r.pendingKey.Some?
    ensures ReadLines(r, ["]"]) == Continue(r, "]")
  {
    CleanLine("", "]");
    assert "" + "]" == "]";
    ReadOne(r, "]");
  }

  /** Once the array is closed its remaining lines say nothing. */
  lemma {:induction false} ReadIdleRows(r: Reader, rows: seq<seq<string>>)
    requires r.pendingKey.None? && PlainRows(rows)
    ensures ReadLines(r, RowLines(rows)) == r
    decreases |rows|
  {
    if rows == [] {
      CleanLine("", "]");
      assert "" + "]" == "]";
      ReadOne(r, "]");
    } else {
      ReadIdleRow(r, rows[0]);
      ReadCons(r, "  " + RowText(rows[0]), RowLines(rows[1..]));
      ReadIdleRows(r, rows[1..]);
    }
  }

  lemma RowClean(row: seq<string>)
    requires PlainItems(row)
    ensures Clean("  " + RowText(row)) == RowText(row) && RowText(row)[0] in {'"', ','}
  {
    CommaListChars(row, '#');
    CleanLine("  ", RowText(row));
  }

  lemma ReadIdleRow(r: Reader, row: seq<string>)
    requires r.pendingKey.None? && PlainItems(row)
    ensures ReadLine(r, "  " + RowText(row)) == r
  {
    RowClean(row);
  }

  /** The lines the reader joins into the value of an array: rows up to one that closes it, or all and the `]`. */
  function TextsRead(rows: seq<seq<string>>): seq<string> {
    if rows == [] then ["]"]
    else if HasBracket(rows[0]) then [RowText(rows[0])]
    else [RowText(rows[0])] + TextsRead(rows[1..])
  }

  /** The reader when an array has been closed, with everything joined for it. */
  function Closed(r: Reader, texts: seq<string>): Reader
    requires r.pendingKey.Some?
  {
    var r' := r.(pending := r.pending + texts);
    var items := Quoted(Join(r'.pending, " "), 1);
    (if r.pendingKey.value == "arch" then r'.(declared := r.declared + items) else SetCflags(r', items)).(pendingKey := None)
  }

  lemma ReadPendingRow(r: Reader, row: seq<string>)
    requires r.pendingKey.Some? && PlainItems(row)
    ensures ReadLine(r, "  " + RowText(row)) ==
            if HasBracket(row) then Closed(r, [RowText(row)]) else r.(pending := r.pending + [RowText(row)])
  {
    RowClean(row);
    RowBracket(row);
  }

  lemma {:induction false} CommaListBracket(items: seq<string>)
    ensures ']' in CommaList(items) <==> HasBracket(items)
  {
    if items != [] {
      assert HasBracket(items) <==> ']' in items[0] || HasBracket(items[1..]) by { BracketCons(items); }
      CommaListBracket(items[1..]);
      var q := Quote(items[0]);
      assert ']' in q <==> ']' in items[0];
      if |items| > 1 {
        assert CommaList(items) == q + ", " + CommaList(items[1..]);
      }
    }
  }

  lemma BracketCons(items: seq<string>)
    requires items != []
    ensures HasBracket(items) <==> ']' in items[0] || HasBracket(items[1..])
  {
    if i :| 0 < i < |items| && ']' in items[i] {
      assert items[1..][i - 1] == items[i];
    }
    if i :| 0 <= i < |items[1..]| && ']' in items[1..][i] {
      assert items[i + 1] == items[1..][i];
    }
  }

  lemma RowBracket(row: seq<string>)
    ensures ']' in RowText(row) <==> HasBracket(row)
  {
    CommaListBracket(row);
  }

  /** Rows read while an array is open: set aside until the closing line, which is the first with a `]`. */
  lemma {:induction false} ReadRows(r: Reader, rows: seq<seq<string>>)
    requires r.pendingKey.Some? && PlainRows(rows)
    ensures ReadLines(r, RowLines(rows)) == Closed(r, TextsRead(rows))
    decreases |rows|
  {
    if rows == [] {
      ReadClose(r);
    } else {
      var text := RowText(rows[0]);
      ReadPendingRow(r, rows[0]);
      ReadCons(r, "  " + text, RowLines(rows[1..]));
      if HasBracket(rows[0]) {
        ReadIdleRows(Closed(r, [text]), rows[1..]);
      } else {
        ReadRows(r.(pending := r.pending + [text]), rows[1..]);
        Assoc(r.pending, [text], TextsRead(rows[1..]));
      }
    }
  }

  lemma RowThenRest(row: seq<string>, rest: string)
    requires PlainItems(row)
    ensures Quoted(RowText(row) + " " + rest, 1) == row + Quoted(rest, 1)
  {
    Assoc(CommaList(row), ",", " ");
    assert "," + " " == ", ";
    Assoc(CommaList(row), ", ", rest);
    QuotedCommaList(row, ", " + rest);
    QuotedSkips(", ", rest, 1);
  }

  lemma RowAlone(row: seq<string>)
    requires PlainItems(row)
    ensures Quoted(RowText(row), 1) == row
  {
    QuotedCommaList(row, ",");
    QuotedSkips(",", "", 1);
    assert "," + "" == ",";
  }

  lemma {:induction false} QuotedRows(rows: seq<seq<string>>)
    requires PlainRows(rows)
    ensures Quoted(Join(TextsRead(rows), " "), 1) == Flatten(RowsRead(rows))
    decreases |rows|
  {
    if rows == [] {
      QuotedSkips("]", "", 1);
      assert "]" + "" == "]";
    } else if HasBracket(rows[0]) {
      RowAlone(rows[0]);
      assert [rows[0]][1..] == [];
    } else {
      var parts := TextsRead(rows[1..]);
      assert ([RowText(rows[0])] + parts)[1..] == parts;
      RowThenRest(rows[0], Join(parts, " "));
      QuotedRows(rows[1..]);
      assert ([rows[0]] + RowsRead(rows[1..]))[1..] == RowsRead(rows[1..]);
    }
  }

  lemma OpenArrayText(rows: seq<seq<string>>)
    requires PlainRows(rows)
    ensures Quoted(Join(["["] + TextsRead(rows), " "), 1) == Flatten(RowsRead(rows))
  {
    var parts := ["["] + TextsRead(rows);
    assert parts[1..] == TextsRead(rows);
    assert Join(parts, " ") == "[ " + Join(parts[1..], " ");
    QuotedSkips("[ ", Join(parts[1..], " "), 1);
    QuotedRows(rows);
  }

  lemma OpenArray(r: Reader, key: string)
    requires Expects(r, key)
    ensures ReadLine(r, key + " = " + "[") ==
            r.(pendingKey := Some(if key == "arch_profiles" then "arch" else key), pending := ["["])
  {
    KnownKeys();
    ReadAssignment(r, key, "[");
  }

  lemma ReadRowArray(r: Reader, key: string, rows: seq<seq<string>>)
    requires Expects(r, key) && PlainRows(rows)
    ensures var r' := WithItems(r, key, Flatten(RowsRead(rows)));
            ReadLines(r, PrintArray(key, Rows(rows))) == r'.(pending := ["["] + TextsRead(rows))
  {
    OpenArray(r, key);
    var open := ReadLine(r, key + " = " + "[");
    ReadCons(r, key + " = " + "[", RowLines(rows));
    ReadRows(open, rows);
    OpenArrayText(rows);
  }

  /** Any array, in either layout. `pending` is scratch: no later line reads it before a new
      array resets it. */
  lemma ReadArray(r: Reader, key: string, a: ArrayText)
    requires Expects(r, key) && WellFormedArray(a)
    ensures var r' := ReadLines(r, PrintArray(key, a));
            r' == WithItems(r, key, ItemsRead(a)).(pending := r'.pending)
  {
    match a
    case OneLine(items) => ReadOneLineArray(r, key, items);
    case Rows(rows) => ReadRowArray(r, key, rows);
  }

  lemma SectionTrim(name: string)
    requires WellFormedName(name)
    ensures Trim(Section(name), SPACES) && Trim(Section(name), BRACKETS) && '#' !in Section(name)
  {
    assert Section(name)[|Section(name)| - 1] == name[|name| - 1];
  }

  lemma HeaderText(core: string)
    requires Trim(core, SPACES) && Trim(core, BRACKETS) && '#' !in core
    ensures Clean("[" + core + "]") == "[" + core + "]"
    ensures Strip(StripChars("[" + core + "]", BRACKETS)) == core
  {
    var line := "[" + core + "]";
    assert '#' !in line && line[0] == '[' && line[|line| - 1] == ']';
    CleanLine("", line);
    assert "" + line == line;
    StripPadding("[", core, "]", BRACKETS);
    StripNothing(core, SPACES);
  }

  lemma ReadHeader(r: Reader, name: string)
    requires WellFormedName(name)
    ensures ReadLine(r, "[" + Section(name) + "]") ==
            r.(section := Section(name), current := Some(name), pendingKey := None,
               profiles := if name in r.profiles then r.profiles else r.profiles[name := BLANK])
  {
    SectionTrim(name);
    HeaderText(Section(name));
    assert Section(name)[5..] == name;
  }

  /** The reader once the block being filled is `p`. */
  function Filled(r: Reader, name: string, p: Profile): Reader {
    r.(profiles := r.profiles[name := p])
  }

  predicate Filling(r: Reader, name: string, p: Profile) {
    r.pendingKey.None? && r.section != "" && r.current == Some(name) &&
    name in r.profiles && r.profiles[name] == p
  }

  lemma FilledAgain(r: Reader, name: string, p: Profile, q: Profile)
    requires Filling(r, name, p)
    ensures Filling(Filled(r, name, q), name, q) && Filled(r, name, p) == r
  {
    assert r.profiles[name := p] == r.profiles;
  }

  lemma ReadMatch(r: Reader, name: string, p: Profile, v: Option<string>)
    requires Filling(r, name, p) && p.targetMatch.None? && (v.Some? ==> Plain(v.value))
    ensures ReadLines(r, PrintString("target_match", v)) == Filled(r, name, p.(targetMatch := v))
  {
    FilledAgain(r, name, p, p);
    KnownKeys();
    if v.Some? {
      ReadString(r, "target_match", v.value);
    }
  }

  lemma ReadExclude(r: Reader, name: string, p: Profile, v: Option<string>)
    requires Filling(r, name, p) && p.targetExclude.None? && (v.Some? ==> Plain(v.value))
    ensures ReadLines(r, PrintString("target_exclude", v)) == Filled(r, name, p.(targetExclude := v))
  {
    FilledAgain(r, name, p, p);
    KnownKeys();
    if v.Some? {
      ReadString(r, "target_exclude", v.value);
    }
  }

  lemma ReadCflags(r: Reader, name: string, p: Profile, a: Option<ArrayText>)
    requires Filling(r, name, p) && p.cflags.None? && (a.Some? ==> WellFormedArray(a.value))
    ensures var r' := ReadLines(r, PrintOptArray("cflags", a));
            var flags := if a.Some? then Some(ItemsRead(a.value)) else None;
            r' == Filled(r, name, p.(cflags := flags)).(pending := r'.pending)
  {
    FilledAgain(r, name, p, p);
    if a.Some? {
      ReadArray(r, "cflags", a.value);
    }
  }

  lemma ReadInTurn(r: Reader, r1: Reader, r2: Reader, a: seq<string>, b: seq<string>, c: seq<string>)
    requires ReadLines(r, a) == r1 && ReadLines(r1, b) == r2
    ensures ReadLines(r, a + (b + c)) == ReadLines(r2, c)
  {
    ReadLinesAppend(r, a, b + c);
    ReadLinesAppend(r1, b, c);
  }

  function BodyLines(b: Block): seq<string> {
    PrintString("target_match", b.targetMatch) +
    (PrintString("target_exclude", b.targetExclude) + PrintOptArray("cflags", b.cflags))
  }

  lemma FilledTwice(r: Reader, name: string, p: Profile, q: Profile)
    ensures Filled(Filled(r, name, p), name, q) == Filled(r, name, q)
  {
  }

  /** The two predicates of a block are read first. */
  lemma ReadPredicates(r: Reader, b: Block, p: Profile)
    requires WellFormedBlock(b) && Filling(r, b.name, BLANK) && p == Profile(b.targetMatch, b.targetExclude, None)
    ensures ReadLines(r, BodyLines(b)) == ReadLines(Filled(r, b.name, p), PrintOptArray("cflags", b.cflags))
  {
    var p1 := BLANK.(targetMatch := b.targetMatch);
    var r1 := Filled(r, b.name, p1);
    FilledAgain(r, b.name, BLANK, p1);
    ReadMatch(r, b.name, BLANK, b.targetMatch);
    ReadExclude(r1, b.name, p1, b.targetExclude);
    FilledTwice(r, b.name, p1, p);
    ReadInTurn(r, r1, Filled(r, b.name, p), PrintString("target_match", b.targetMatch),
               PrintString("target_exclude", b.targetExclude), PrintOptArray("cflags", b.cflags));
  }

  lemma ReadBody(r: Reader, b: Block)
    requires WellFormedBlock(b) && Filling(r, b.name, BLANK)
    ensures var r' := ReadLines(r, BodyLines(b)); r' == Filled(r, b.name, ProfileRead(b)).(pending := r'.pending)
  {
    var p := Profile(b.targetMatch, b.targetExclude, None);
    ReadPredicates(r, b, p);
    FilledAgain(r, b.name, BLANK, p);
    ReadCflags(Filled(r, b.name, p), b.name, p, b.cflags);
    FilledTwice(r, b.name, p, ProfileRead(b));
  }

  lemma ReadBlock(r: Reader, b: Block)
    requires WellFormedBlock(b) && r.pendingKey.None? && b.name !in r.profiles
    ensures var r' := ReadLines(r, PrintBlock(b));
            r'.pendingKey.None? && r'.profiles == r.profiles[b.name := ProfileRead(b)] &&
            r'.declared == r.declared && r'.inherits == r.inherits
  {
    ReadHeader(r, b.name);
    ReadCons(r, "[" + Section(b.name) + "]", BodyLines(b));
    ReadBody(ReadLine(r, "[" + Section(b.name) + "]"), b);
  }

  predicate GoodBlocks(blocks: seq<Block>) {
    (forall i :: 0 <= i < |blocks| ==> WellFormedBlock(blocks[i])) &&
    (forall i, j :: 0 <= i < j < |blocks| ==> blocks[i].name != blocks[j].name)
  }

  lemma {:induction false} ReadBlocks(r: Reader, blocks: seq<Block>)
    requires r.pendingKey.None? && r.profiles == map[] && GoodBlocks(blocks)
    ensures var r' := ReadLines(r, PrintBlocks(blocks));
            r'.pendingKey.None? && r'.profiles == ProfilesRead(blocks) &&
            r'.declared == r.declared && r'.inherits == r.inherits
  {
    if blocks != [] {
      var init, b := blocks[..|blocks| - 1], blocks[|blocks| - 1];
      ReadBlocks(r, init);
      var r' := ReadLines(r, PrintBlocks(init));
      ReadLinesAppend(r, PrintBlocks(init), PrintBlock(b));
      ProfileNames(init);
      ReadBlock(r', b);
    }
  }

  lemma {:induction false} ProfileNames(blocks: seq<Block>)
    ensures forall n :: n in ProfilesRead(blocks) <==> exists i :: 0 <= i < |blocks| && blocks[i].name == n
    ensures ProfilesRead(blocks).Keys == ProfilesOf(blocks).Keys
  {
    if blocks != [] {
      ProfileNames(blocks[..|blocks| - 1]);
    }
  }
}
