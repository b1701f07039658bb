/** The lines of a text, as Python's `splitlines` cuts it: at line feeds, carriage returns and the other line
    boundaries of Unicode, a carriage return and a line feed together counting as one. Joining lines that hold
    no such character with line feeds, and ending the last one the same way, is undone by splitting again; that is
    what lets a file written line by line be read back line by line, as the snapshot of upstream signatures and
    the platform descriptors are. */
module TextLines {
  import opened Text

  const BREAKS: set<char> :=
    {'\n', '\r', '\U{000B}', '\U{000C}', '\U{001C}', '\U{001D}', '\U{001E}', '\U{0085}', '\U{2028}', '\U{2029}'}

  function FirstBreak(s: string): (k: nat)
    ensures k <= |s| && (k < |s| ==> s[k] in BREAKS) && forall i | 0 <= i < k :: s[i] !in BREAKS
  {
    if s == "" || s[0] in BREAKS then 0 else 1 + FirstBreak(s[1..])
  }

  /** `s.splitlines()`: a carriage return and a line feed together end one line. */
  function SplitLines(s: string): seq<string>
    decreases |s|
  {
    var k := FirstBreak(s);
    if s == "" then []
    else if k == |s| then [s]
    else [s[..k]] + SplitLines(s[k + if "\r\n" <= s[k..] then 2 else 1..])
  }

  predicate OneLine(s: string) { forall j | 0 <= j < |s| :: s[j] !in BREAKS }

  predicate NoBreaks(lines: seq<string>) { forall i | 0 <= i < |lines| :: OneLine(lines[i]) }

  /** Splitting a text into lines undoes writing one. */
  lemma FirstBreakAt(line: string, rest: string)
    requires OneLine(line)
    ensures FirstBreak(line + ("\n" + rest)) == |line|
  {
    var s := line + ("\n" + rest);
    assert forall j | 0 <= j < |line| :: s[j] == line[j];
    assert s[|line|] == '\n';
  }

  lemma SplitLinesCons(line: string, rest: string)
    requires OneLine(line)
    ensures SplitLines(line + ("\n" + rest)) == [line] + SplitLines(rest)
  {
    var s := line + ("\n" + rest);
    FirstBreakAt(line, rest);
    assert s[|line|] == '\n' && s[..|line|] == line && s[|line| + 1..] == rest;
  }

  lemma {:induction false} SplitLinesUndoesJoin(lines: seq<string>)
    requires lines != [] && NoBreaks(lines)
    ensures SplitLines(Join(lines, "\n") + "\n") == lines
  {
    if |lines| == 1 {
      SplitLinesCons(lines[0], "");
      assert lines[0] + ("\n" + "") == lines[0] + "\n";
    } else {
      var more := lines[1..];
      SplitLinesUndoesJoin(more);
      Assoc(lines[0] + "\n", Join(more, "\n"), "\n");
      Assoc(lines[0], "\n", Join(more, "\n") + "\n");
      SplitLinesCons(lines[0], Join(more, "\n") + "\n");
      assert lines == [lines[0]] + more;
    }
  }
}
