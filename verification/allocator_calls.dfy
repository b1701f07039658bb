/** Reading the arguments of an allocation call (scripts/check-allocator-never-waits.py). */
module AllocatorCalls {
  import opened Text
  import opened BracketScanner

  function StripAll(parts: seq<string>): seq<string> {
    seq(|parts|, i requires 0 <= i < |parts| => Strip(parts[i]))
  }

  /** Depth after reading `code` from `open` up to and including index `i`. */
  function After(code: string, open: nat, i: nat): int
    requires open <= i < |code|
  {
    Net(code[open..i + 1], CALL)
  }

  /** The depth first returns to 0 at index `i`. */
  predicate ClosesAt(code: string, open: nat, i: nat) {
    open < i < |code| && After(code, open, i) == 0 &&
    forall j: nat :: open <= j < i ==> After(code, open, j) > 0
  }

  predicate NeverCloses(code: string, open: nat) {
    forall i: nat :: open <= i < |code| ==> After(code, open, i) > 0
  }

  /** The top-level arguments of the call opened at `open`; None exactly when the depth never
      returns to zero. */
  method SplitArgs(code: string, open: nat) returns (args: Option<seq<string>>)
    requires open < |code| && code[open] == '('
    ensures args.None? <==> NeverCloses(code, open)
    ensures forall i: nat :: ClosesAt(code, open, i) ==>
                          args == Some(StripAll(Pieces(code[open + 1..i], CALL)))
  {
    var depth, start: int, done: seq<string> := 0, open + 1, [];
    assert code[open..open] == "";
    for i := open to |code|
      invariant depth == Net(code[open..i], CALL)
      invariant i == open ==> start == open + 1 && done == []
      invariant i > open ==> depth >= 1 && PiecesRead(code, open, start, i, done)
      invariant forall j: nat :: open <= j < i ==> After(code, open, j) > 0
    {
      var ch := code[i];
      assert code[open..i + 1][..i - open] == code[open..i];
      if i > open {
        InnerDepth(code, open, i);
        PiecesReadStep(code, open, start, i, done);
      }
      if ch in {'(', '[', '{'} {
        depth := depth + 1;
      } else if ch in {')', ']', '}'} {
        depth := depth - 1;
        if depth == 0 {
          done := done + [code[start..i]];
          assert ClosesAt(code, open, i);
          forall k: nat | ClosesAt(code, open, k) ensures k == i {
            OneClose(code, open, i, k);
          }
          return Some(StripAll(done));
        }
      } else if ch == ',' && depth == 1 {
        done := done + [code[start..i]];
        start := i + 1;
      }
      if i == open {
        assert code[open + 1..open + 1] == "";
      }
    }
    return None;
  }

  /** The finished arguments and the one being read, as pieces of the text inside. */
  predicate PiecesRead(code: string, open: nat, start: int, i: nat, done: seq<string>) {
    open < start <= i <= |code| && done + [code[start..i]] == Pieces(code[open + 1..i], CALL)
  }

  lemma PiecesReadStep(code: string, open: nat, start: int, i: nat, done: seq<string>)
    requires open < i < |code| && PiecesRead(code, open, start, i, done)
    ensures if code[i] == ',' && Net(code[open + 1..i], CALL) == 0
            then PiecesRead(code, open, i + 1, i + 1, done + [code[start..i]])
            else PiecesRead(code, open, start, i + 1, done)
  {
    var inner := code[open + 1..i];
    assert code[open + 1..i + 1][..|inner|] == inner;
    assert code[start..i + 1] == code[start..i] + [code[i]];
    assert code[i + 1..i + 1] == "";
  }

  lemma InnerDepth(code: string, open: nat, i: nat)
    requires open < i <= |code| && code[open] == '('
    ensures Net(code[open..i], CALL) == 1 + Net(code[open + 1..i], CALL)
  {
    assert code[open..i] == "(" + code[open + 1..i];
    NetAppend("(", code[open + 1..i], CALL);
    NetOne('(', CALL);
  }

  lemma OneClose(code: string, open: nat, i: nat, k: nat)
    requires ClosesAt(code, open, i) && ClosesAt(code, open, k)
    ensures i == k
  {
    assert After(code, open, i) == 0 == After(code, open, k);
  }

  /** Where the parts of a call lie in the text around it. */
  lemma CodeAt(before: string, inner: string, after: string, k: nat)
    requires k <= |inner|
    ensures var code := before + "(" + inner + ")" + after;
            |code| >= |before| + |inner| + 2 &&
            code[|before|..|before| + 1 + k] == "(" + inner[..k] &&
            code[|before|..|before| + |inner| + 2] == "(" + inner + ")" &&
            code[|before| + 1..|before| + 1 + |inner|] == inner
  {
  }

  /** Scanning a parenthesised comma-join, in any surrounding text, reads the arguments
      back: this is the close the scan stops at, and these are the pieces in front of it. */
  lemma ScanUndoesJoin(before: string, args: seq<string>, after: string)
    requires Arguments(args, CALL)
    ensures var code := before + "(" + Join(args, ",") + ")" + after;
            var close := |before| + 1 + |Join(args, ",")|;
            ClosesAt(code, |before|, close) &&
            Pieces(code[|before| + 1..close], CALL) == args
  {
    var inner := Join(args, ",");
    var code := before + "(" + inner + ")" + after;
    var open, close := |before|, |before| + 1 + |inner|;
    JoinNet(args, CALL, 0);
    CodeAt(before, inner, after, 0);
    CallNet(inner);
    forall j: nat | open <= j < close ensures After(code, open, j) > 0 {
      CodeAt(before, inner, after, j - open);
      NetAppend("(", inner[..j - open], CALL);
      NetOne('(', CALL);
      JoinNet(args, CALL, j - open);
    }
    InnerPieces(args);
  }

  lemma InnerPieces(args: seq<string>)
    requires Arguments(args, CALL)
    ensures Pieces(Join(args, ","), CALL) == args
  {
    ArgumentsSeparable(args, CALL);
    PiecesOfJoin(args, CALL);
  }

  lemma CallNet(inner: string)
    ensures Net("(" + inner + ")", CALL) == Net(inner, CALL)
  {
    NetAppend("(" + inner, ")", CALL);
    NetAppend("(", inner, CALL);
    NetOne('(', CALL);
    NetOne(')', CALL);
  }
}
