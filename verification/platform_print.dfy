/** When the line reader undoes the printer of platform descriptors. */
module PlatformFilePrinter {
  import opened Text
  import opened ArchProfiles
  import opened PlatformFileReader
  import opened PlatformDocuments
  import TextLines

  // ------------------------------------------------------------- what is lost

  /** Everything is read exactly when no row holding a `]` has an item below it. */
  lemma {:induction false} RowsReadAll(rows: seq<seq<string>>)
    ensures Flatten(RowsRead(rows)) == Flatten(rows) <==> Complete(Rows(rows))
  {
    if rows != [] {
      var rest := rows[1..];
      CompleteCons(rows);
      if HasBracket(rows[0]) {
        FlattenEmpty(rest);
        assert [rows[0]][1..] == [] && Flatten([]) == [];
      } else {
        RowsReadAll(rest);
        assert ([rows[0]] + RowsRead(rest))[1..] == RowsRead(rest);
        assert rows[0] + Flatten(RowsRead(rest)) == rows[0] + Flatten(rest) <==>
               Flatten(RowsRead(rest)) == Flatten(rest) by {
          SameTail(rows[0], Flatten(RowsRead(rest)), Flatten(rest));
        }
      }
    }
  }

  lemma SameTail(head: seq<string>, a: seq<string>, b: seq<string>)
    ensures head + a == head + b <==> a == b
  {
    assert (head + a)[|head|..] == a && (head + b)[|head|..] == b;
  }

  lemma {:induction false} FlattenEmpty(rows: seq<seq<string>>)
    ensures Flatten(rows) == [] <==> forall i :: 0 <= i < |rows| ==> rows[i] == []
  {
    if rows != [] {
      FlattenEmpty(rows[1..]);
      assert forall i :: 0 < i < |rows| ==> rows[i] == rows[1..][i - 1];
      assert forall i :: 0 <= i < |rows[1..]| ==> rows[1..][i] == rows[i + 1];
    }
  }

  lemma CompleteCons(rows: seq<seq<string>>)
    requires rows != []
    ensures Complete(Rows(rows)) <==>
            Complete(Rows(rows[1..])) &&
            (HasBracket(rows[0]) ==> forall i :: 0 <= i < |rows[1..]| ==> rows[1..][i] == [])
    ensures (forall i :: 0 <= i < |rows[1..]| ==> rows[1..][i] == []) ==> Complete(Rows(rows[1..]))
  {
    var rest := rows[1..];
    assert forall i :: 0 < i < |rows| ==> rows[i] == rest[i - 1];
    assert forall i :: 0 <= i < |rest| ==> rest[i] == rows[i + 1];
    if Complete(Rows(rows)) {
      forall i, j | 0 <= i < j < |rest| && HasBracket(rest[i]) ensures rest[j] == [] {
        assert HasBracket(rows[i + 1]);
      }
    }
    if Complete(Rows(rest)) && (HasBracket(rows[0]) ==> forall i :: 0 <= i < |rest| ==> rest[i] == []) {
      forall i, j | 0 <= i < j < |rows| && HasBracket(rows[i]) ensures rows[j] == [] {
        if i > 0 {
          assert HasBracket(rest[i - 1]);
        }
      }
    }
  }

  lemma ArrayReadAll(a: ArrayText)
    ensures ItemsRead(a) == Items(a) <==> Complete(a)
  {
    if a.Rows? {
      RowsReadAll(a.rows);
    }
  }

  lemma {:induction false} ProfilesReadAll(blocks: seq<Block>)
    requires forall i, j :: 0 <= i < j < |blocks| ==> blocks[i].name != blocks[j].name
    ensures ProfilesRead(blocks) == ProfilesOf(blocks) <==>
            forall i :: 0 <= i < |blocks| ==> ProfileRead(blocks[i]) == ProfileOf(blocks[i])
  {
    if blocks != [] {
      var init, b := blocks[..|blocks| - 1], blocks[|blocks| - 1];
      ProfilesReadAll(init);
      ProfileNames(init);
      assert b.name !in ProfilesRead(init) && b.name !in ProfilesOf(init);
      UpdateBoth(ProfilesRead(init), ProfilesOf(init), b.name, ProfileRead(b), ProfileOf(b));
      assert forall i :: 0 <= i < |init| ==> blocks[i] == init[i];
    }
  }

  lemma UpdateBoth(m: map<string, Profile>, n: map<string, Profile>, k: string, x: Profile, y: Profile)
    requires k !in m && k !in n
    ensures m[k := x] == n[k := y] <==> m == n && x == y
  {
    if m[k := x] == n[k := y] {
      assert m[k := x][k] == n[k := y][k];
      forall j ensures j in m <==> j in n {
        assert j in m[k := x] <==> j in n[k := y];
      }
      forall j <- m ensures m[j] == n[j] {
        assert m[k := x][j] == n[k := y][j];
      }
      assert m == n;
    }
  }

  // ------------------------------------------------------------- the theorems

  /** What the reader makes of a printed descriptor, whichever layout each array was printed in. */
  lemma ReadPrinted(d: Doc)
    requires WellFormed(d)
    ensures var r := ReadLines(START, PrintDoc(d));
            && r.profiles == ProfilesRead(d.blocks)
            && r.declared == (if d.declared.Some? then ItemsRead(d.declared.value) else [])
            && r.inherits == (d.inherits.Some? && d.inherits.value != "")
  {
    var ins := PrintString("inherits", d.inherits);
    var ds := PrintOptArray("arch_profiles", d.declared);
    var bs := PrintBlocks(d.blocks);
    ReadLinesAppend(START, ins, ds + bs);
    KnownKeys();
    if d.inherits.Some? {
      ReadString(START, "inherits", d.inherits.value);
      assert Quote(d.inherits.value) == "\"\"" <==> d.inherits.value == "";
    }
    var r1 := ReadLines(START, ins);
    ReadLinesAppend(r1, ds, bs);
    if d.declared.Some? {
      ReadArray(r1, "arch_profiles", d.declared.value);
    }
    ReadBlocks(ReadLines(r1, ds), d.blocks);
  }

  /** The reader holds the document's blocks, its `arch_profiles` list in order, and whether it inherits. */
  predicate ReadsAs(r: Reader, d: Doc) {
    && r.profiles == ProfilesOf(d.blocks)
    && r.declared == (if d.declared.Some? then Items(d.declared.value) else [])
    && r.inherits == (d.inherits.Some? && d.inherits.value != "")
  }

  /** Reading a printed descriptor gives it back exactly when, in every array spread over lines, no row
      that holds a `]` has an item below it. */
  lemma ReadUndoesPrint(d: Doc)
    requires WellFormed(d)
    ensures ReadsAs(ReadLines(START, PrintDoc(d)), d) <==> AllComplete(d)
  {
    ReadPrinted(d);
    ProfilesReadAll(d.blocks);
    if d.declared.Some? {
      ArrayReadAll(d.declared.value);
    }
    forall i | 0 <= i < |d.blocks|
      ensures ProfileRead(d.blocks[i]) == ProfileOf(d.blocks[i]) <==>
              (d.blocks[i].cflags.Some? ==> Complete(d.blocks[i].cflags.value))
    {
      if d.blocks[i].cflags.Some? {
        ArrayReadAll(d.blocks[i].cflags.value);
      }
    }
  }

  /** The same of the file's text, when no string of the document holds a line break. */
  lemma ReadTextUndoesPrint(d: Doc)
    requires WellFormed(d) && TextLines.NoBreaks(PrintDoc(d))
    ensures var text := Join(PrintDoc(d), "\n") + "\n";
            ReadsAs(ReadLines(START, TextLines.SplitLines(text)), d) <==> AllComplete(d)
  {
    ReadUndoesPrint(d);
    if PrintDoc(d) == [] {
      TextLines.SplitLinesCons("", "");
      assert "" + ("\n" + "") == "" + "\n";
      ReadOne(START, "");
    } else {
      TextLines.SplitLinesUndoesJoin(PrintDoc(d));
    }
  }

  /** How a row is lost: the reader takes any line with a `]` for the closing line, so a flag such as
      "-Wl,[x]" ends a multi-line array there and the row below is dropped. */
  lemma BracketInRowEndsArray(r: Reader, row: seq<string>, below: seq<string>)
    requires r.pendingKey.Some? && PlainItems(row) && PlainItems(below) && HasBracket(row)
    ensures ReadLines(r, ["  " + RowText(row), "  " + RowText(below)]) == Closed(r, [RowText(row)])
  {
    ReadPendingRow(r, row);
    ReadIdleRow(Closed(r, [RowText(row)]), below);
    ReadCons(r, "  " + RowText(row), ["  " + RowText(below)]);
    ReadOne(Closed(r, [RowText(row)]), "  " + RowText(below));
    assert ["  " + RowText(row)] + ["  " + RowText(below)] == ["  " + RowText(row), "  " + RowText(below)];
  }

  /** A table header that names the top level again, such as `[]`. */
  predicate ReopensTop(raw: string) {
    var line := Clean(raw);
    line != "" && line[0] == '[' && Strip(StripChars(line, BRACKETS)) == ""
  }

  /** Below a table header no `arch_profiles` (or old `arch`) list counts, whatever follows. */
  lemma {:induction false} OnlyTopLevelDeclares(r: Reader, lines: seq<string>)
    requires r.section != "" && r.pendingKey != Some("arch")
    requires forall l <- lines :: !ReopensTop(l)
    ensures ReadLines(r, lines).declared == r.declared
    ensures ReadLines(r, lines).inherits == r.inherits
    decreases lines
  {
    if lines != [] {
      var line := Clean(lines[0]);
      assert !ReopensTop(lines[0]);
      var r' := ReadLine(r, lines[0]);
      assert r'.section != "" && r'.pendingKey != Some("arch") && r'.declared == r.declared;
      OnlyTopLevelDeclares(r', lines[1..]);
    }
  }
}
