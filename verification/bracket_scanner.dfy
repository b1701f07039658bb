/** Splitting text at the commas outside brackets. */
module BracketScanner {
  import opened Text

  // Three scripts scan this way: `split_args` (scripts/check-allocator-never-waits.py), `_quoted_arg_count`
  // (scripts/api-parity.py) and `split_params` (scripts/check-c-api-upstream-signatures.py). They differ in the
  // characters that open and close a bracket. Nothing matches brackets in pairs.

  datatype Brackets = Brackets(open: set<char>, close: set<char>)

  const CALL := Brackets({'(', '[', '{'}, {')', ']', '}'})
  const QUOTE := Brackets({'(', '<', '[', '{'}, {')', '>', ']', '}'})
  const PARENS := Brackets({'('}, {')'})

  function Delta(ch: char, b: Brackets): int {
    if ch in b.open then 1 else if ch in b.close then -1 else 0
  }

  /** Net depth after reading `s`. */
  function Net(s: string, b: Brackets): int {
    if s == "" then 0 else Net(s[..|s| - 1], b) + Delta(s[|s| - 1], b)
  }

  /** The pieces of `s` between the commas met at depth 0. */
  function Pieces(s: string, b: Brackets): (parts: seq<string>)
    ensures parts != []
  {
    if s == "" then [""] else
      var init, ch := s[..|s| - 1], s[|s| - 1];
      if ch == ',' && Net(init, b) == 0 then Pieces(init, b) + [""] else ExtendLast(Pieces(init, b), ch)
  }

  function ExtendLast(parts: seq<string>, ch: char): seq<string>
    requires parts != []
  {
    parts[..|parts| - 1] + [parts[|parts| - 1] + [ch]]
  }

  /** An argument text: its brackets close, none before it was opened, and every comma is
      inside some of them. */
  predicate Argument(s: string, b: Brackets) {
    Net(s, b) == 0 && forall i :: 0 <= i < |s| ==> InsideAt(s, i, b)
  }

  predicate InsideAt(s: string, i: nat, b: Brackets)
    requires i < |s|
  {
    Net(s[..i], b) >= 0 && (s[i] == ',' ==> Net(s[..i], b) > 0)
  }

  predicate Arguments(args: seq<string>, b: Brackets) {
    args != [] && forall i :: 0 <= i < |args| ==> Argument(args[i], b)
  }

  predicate Usable(b: Brackets) { ',' !in b.open && ',' !in b.close }

  lemma {:induction false} NetAppend(s: string, t: string, b: Brackets)
    ensures Net(s + t, b) == Net(s, b) + Net(t, b)
  {
    if t == "" {
      assert s + t == s;
    } else {
      assert (s + t)[..|s + t| - 1] == s + t[..|t| - 1];
      NetAppend(s, t[..|t| - 1], b);
    }
  }

  lemma {:induction false} NetOfPlain(s: string, b: Brackets)
    requires forall c <- s :: Delta(c, b) == 0
    ensures Net(s, b) == 0
  {
    if s != "" {
      NetOfPlain(s[..|s| - 1], b);
    }
  }

  lemma NetSnoc(s: string, ch: char, b: Brackets)
    ensures Net(s + [ch], b) == Net(s, b) + Delta(ch, b)
  {
    assert (s + [ch])[..|s|] == s;
  }

  lemma NetOne(ch: char, b: Brackets)
    ensures Net([ch], b) == Delta(ch, b)
  {
    assert [ch][..0] == "";
  }

  /** A comma is a separator exactly at depth 0. */
  predicate Hidden(s: string, i: nat, b: Brackets)
    requires i < |s|
  {
    s[i] == ',' ==> Net(s[..i], b) != 0
  }

  /** Reading one more character. */
  lemma PiecesSnoc(s: string, ch: char, b: Brackets)
    ensures Pieces(s + [ch], b) ==
            if ch == ',' && Net(s, b) == 0 then Pieces(s, b) + [""] else ExtendLast(Pieces(s, b), ch)
  {
    assert (s + [ch])[..|s|] == s;
  }

  lemma {:induction false} OnePiece(s: string, n: nat, b: Brackets)
    requires n <= |s| && forall i :: 0 <= i < n ==> Hidden(s, i, b)
    ensures Pieces(s[..n], b) == [s[..n]]
  {
    if n > 0 {
      OnePiece(s, n - 1, b);
      assert Hidden(s, n - 1, b);
      assert s[..n] == s[..n - 1] + [s[n - 1]];
      PiecesSnoc(s[..n - 1], s[n - 1], b);
    }
  }

  lemma ExtendAfter(head: seq<string>, tail: seq<string>, ch: char)
    requires tail != []
    ensures ExtendLast(head + tail, ch) == head + ExtendLast(tail, ch)
  {
  }

  lemma PiecesAfterStep(s: string, init: string, ch: char, b: Brackets)
    requires Net(s, b) == 0 && Usable(b)
    requires Pieces(s + "," + init, b) == Pieces(s, b) + Pieces(init, b)
    ensures Pieces(s + "," + (init + [ch]), b) == Pieces(s, b) + Pieces(init + [ch], b)
  {
    Assoc(s + ",", init, [ch]);
    PiecesSnoc(init, ch, b);
    PiecesSnoc(s + "," + init, ch, b);
    NetAppend(s, ",", b);
    NetOne(',', b);
    NetAppend(s + ",", init, b);
    Assoc(Pieces(s, b), Pieces(init, b), [""]);
    ExtendAfter(Pieces(s, b), Pieces(init, b), ch);
  }

  lemma {:induction false} PiecesAfterComma(s: string, rest: string, b: Brackets)
    requires Net(s, b) == 0 && Usable(b)
    ensures Pieces(s + "," + rest, b) == Pieces(s, b) + Pieces(rest, b)
  {
    if rest == "" {
      assert s + "," + rest == s + ",";
      PiecesSnoc(s, ',', b);
    } else {
      PiecesAfterComma(s, rest[..|rest| - 1], b);
      PiecesAfterStep(s, rest[..|rest| - 1], rest[|rest| - 1], b);
      assert rest == rest[..|rest| - 1] + [rest[|rest| - 1]];
    }
  }

  predicate Covered(s: string, b: Brackets) {
    forall i :: 0 <= i < |s| ==> Hidden(s, i, b)
  }

  /** Argument texts the scanner can tell apart: no comma of theirs is at depth 0, and each but the last
      leaves the depth where it found it. */
  predicate Separable(args: seq<string>, b: Brackets) {
    && args != []
    && (forall i :: 0 <= i < |args| ==> Covered(args[i], b))
    && (forall i :: 0 <= i < |args| - 1 ==> Net(args[i], b) == 0)
  }

  lemma ArgumentsSeparable(args: seq<string>, b: Brackets)
    requires Arguments(args, b)
    ensures Separable(args, b)
  {
    forall i | 0 <= i < |args| ensures Covered(args[i], b) && Net(args[i], b) == 0 {
      assert Argument(args[i], b);
      assert forall j :: 0 <= j < |args[i]| ==> InsideAt(args[i], j, b) && Hidden(args[i], j, b);
    }
  }

  lemma {:induction false} SeparableSplits(args: seq<string>, b: Brackets)
    requires Separable(args, b) && Usable(b)
    ensures Pieces(Join(args, ","), b) == args
  {
    var a := args[0];
    assert Covered(a, b);
    OnePiece(a, |a|, b);
    assert a[..|a|] == a;
    if |args| > 1 {
      PiecesAfterComma(a, Join(args[1..], ","), b);
      SeparableSplits(args[1..], b);
    }
  }

  lemma CoveredSnoc(s: string, ch: char, b: Brackets)
    requires Covered(s, b) && (ch == ',' ==> Net(s, b) != 0)
    ensures Covered(s + [ch], b)
  {
    var t := s + [ch];
    forall i | 0 <= i < |t| ensures Hidden(t, i, b) {
      if i < |s| {
        assert t[..i] == s[..i] && Hidden(s, i, b);
      } else {
        assert t[..i] == s;
      }
    }
  }

  lemma SeparableNew(parts: seq<string>, b: Brackets)
    requires Separable(parts, b) && Net(parts[|parts| - 1], b) == 0
    ensures Separable(parts + [""], b)
  {
  }

  lemma SeparableExtend(parts: seq<string>, ch: char, b: Brackets)
    requires Separable(parts, b) && (ch == ',' ==> Net(parts[|parts| - 1], b) != 0)
    ensures var next := ExtendLast(parts, ch);
            Separable(next, b) && Net(next[|next| - 1], b) == Net(parts[|parts| - 1], b) + Delta(ch, b)
  {
    CoveredSnoc(parts[|parts| - 1], ch, b);
    NetSnoc(parts[|parts| - 1], ch, b);
  }

  /** The pieces are separable, and the last of them ends at the depth the text ends at. */
  predicate CutWell(s: string, b: Brackets) {
    var parts := Pieces(s, b);
    Separable(parts, b) && Net(parts[|parts| - 1], b) == Net(s, b)
  }

  lemma CutWellStep(s: string, ch: char, b: Brackets)
    requires Usable(b) && CutWell(s, b)
    ensures CutWell(s + [ch], b)
  {
    PiecesSnoc(s, ch, b);
    NetSnoc(s, ch, b);
    if ch == ',' && Net(s, b) == 0 {
      SeparableNew(Pieces(s, b), b);
    } else {
      SeparableExtend(Pieces(s, b), ch, b);
    }
  }

  /** Every text is cut into separable pieces. */
  lemma {:induction false} PiecesSeparable(s: string, b: Brackets)
    requires Usable(b)
    ensures CutWell(s, b)
  {
    if s != "" {
      PiecesSeparable(s[..|s| - 1], b);
      CutWellStep(s[..|s| - 1], s[|s| - 1], b);
      assert s == s[..|s| - 1] + [s[|s| - 1]];
    }
  }

  /** Splitting undoes comma-joining exactly when the arguments are separable. */
  lemma PiecesOfJoin(args: seq<string>, b: Brackets)
    requires args != [] && Usable(b)
    ensures Pieces(Join(args, ","), b) == args <==> Separable(args, b)
  {
    if Separable(args, b) {
      SeparableSplits(args, b);
    }
    PiecesSeparable(Join(args, ","), b);
  }

  // ------------------------------------------------------------- counting

  /** The commas of `s` the scanner separates at, when it comes to `s` at depth `d`. */
  function Visible(s: string, b: Brackets, d: int): nat {
    if s == "" then 0
    else
      var init := s[..|s| - 1];
      Visible(init, b, d) + if s[|s| - 1] == ',' && d + Net(init, b) == 0 then 1 else 0
  }

  /** The commas inside the arguments that the scanner takes for separators. */
  function Exposed(args: seq<string>, b: Brackets, d: int): nat {
    if args == [] then 0 else Visible(args[0], b, d) + Exposed(args[1..], b, d + Net(args[0], b))
  }

  /** The separators the scanner passes over: those behind an argument that leaves a depth other than 0. */
  function Swallowed(args: seq<string>, b: Brackets, d: int): nat {
    if |args| <= 1 then 0
    else
      var after := d + Net(args[0], b);
      (if after == 0 then 0 else 1) + Swallowed(args[1..], b, after)
  }

  lemma {:induction false} PiecesCount(s: string, b: Brackets)
    ensures |Pieces(s, b)| == 1 + Visible(s, b, 0)
  {
    if s != "" {
      PiecesCount(s[..|s| - 1], b);
    }
  }

  lemma VisibleSnoc(s: string, ch: char, b: Brackets, d: int)
    ensures Visible(s + [ch], b, d) == Visible(s, b, d) + if ch == ',' && d + Net(s, b) == 0 then 1 else 0
  {
    assert (s + [ch])[..|s|] == s;
  }

  lemma {:induction false} VisibleAppend(s: string, t: string, b: Brackets, d: int)
    ensures Visible(s + t, b, d) == Visible(s, b, d) + Visible(t, b, d + Net(s, b))
  {
    if t == "" {
      assert s + t == s;
    } else {
      var init, ch := t[..|t| - 1], t[|t| - 1];
      VisibleAppend(s, init, b, d);
      assert t == init + [ch];
      Assoc(s, init, [ch]);
      VisibleSnoc(s + init, ch, b, d);
      NetAppend(s, init, b);
    }
  }

  lemma VisibleAfterComma(a: string, rest: string, b: Brackets, d: int)
    requires Usable(b)
    ensures Visible(a + "," + rest, b, d) ==
            Visible(a, b, d) + (if d + Net(a, b) == 0 then 1 else 0) + Visible(rest, b, d + Net(a, b))
  {
    VisibleAppend(a + ",", rest, b, d);
    VisibleSnoc(a, ',', b, d);
    NetSnoc(a, ',', b);
  }

  /** What `VisibleOfJoin` says of one list. */
  predicate JoinShows(args: seq<string>, b: Brackets, d: int)
    requires args != []
  {
    Visible(Join(args, ","), b, d) == |args| - 1 + Exposed(args, b, d) - Swallowed(args, b, d)
  }

  lemma JoinShowsStep(args: seq<string>, b: Brackets, d: int)
    requires |args| > 1 && Usable(b) && JoinShows(args[1..], b, d + Net(args[0], b))
    ensures JoinShows(args, b, d)
  {
    VisibleAfterComma(args[0], Join(args[1..], ","), b, d);
  }

  lemma {:induction false} VisibleOfJoin(args: seq<string>, b: Brackets, d: int)
    requires args != [] && Usable(b)
    ensures JoinShows(args, b, d)
  {
    if |args| == 1 {
      assert Exposed(args[1..], b, d + Net(args[0], b)) == 0;
    } else {
      VisibleOfJoin(args[1..], b, d + Net(args[0], b));
      JoinShowsStep(args, b, d);
    }
  }

  /** The scanner counts the arguments, with the commas it takes for separators and without those it passes over. */
  lemma JoinCount(args: seq<string>, b: Brackets)
    requires args != [] && Usable(b)
    ensures |Pieces(Join(args, ","), b)| == |args| + Exposed(args, b, 0) - Swallowed(args, b, 0)
  {
    PiecesCount(Join(args, ","), b);
    VisibleOfJoin(args, b, 0);
  }

  lemma {:induction false} VisibleNone(s: string, b: Brackets)
    ensures Visible(s, b, 0) == 0 <==> Covered(s, b)
  {
    if s != "" {
      var init, ch := s[..|s| - 1], s[|s| - 1];
      VisibleNone(init, b);
      assert s == init + [ch];
      if Visible(s, b, 0) == 0 {
        CoveredSnoc(init, ch, b);
      }
      if Covered(s, b) {
        forall i | 0 <= i < |init| ensures Hidden(init, i, b) {
          assert Hidden(s, i, b) && s[..i] == init[..i];
        }
        assert Hidden(s, |init|, b);
      }
    }
  }

  /** Arguments are separable exactly when no comma of theirs is exposed and no separator is swallowed. */
  lemma {:induction false} SeparableIff(args: seq<string>, b: Brackets)
    requires args != []
    ensures Separable(args, b) <==> Exposed(args, b, 0) == 0 && Swallowed(args, b, 0) == 0
  {
    VisibleNone(args[0], b);
    if |args| == 1 {
      assert Exposed(args[1..], b, Net(args[0], b)) == 0;
    } else {
      SeparableIff(args[1..], b);
      assert Separable(args, b) <==> Covered(args[0], b) && Net(args[0], b) == 0 && Separable(args[1..], b) by {
        SeparableCons(args, b);
      }
    }
  }

  lemma SeparableCons(args: seq<string>, b: Brackets)
    requires |args| > 1
    ensures Separable(args, b) <==> Covered(args[0], b) && Net(args[0], b) == 0 && Separable(args[1..], b)
  {
    var rest := args[1..];
    assert forall i :: 0 < i < |args| ==> args[i] == rest[i - 1];
    assert forall i :: 0 <= i < |rest| ==> rest[i] == args[i + 1];
  }

  // ------------------------------------------------------------- balanced arguments

  lemma {:induction false} JoinNet(args: seq<string>, b: Brackets, i: nat)
    requires Arguments(args, b) && Usable(b) && i <= |Join(args, ",")|
    ensures Net(Join(args, ","), b) == 0
    ensures Net(Join(args, ",")[..i], b) >= 0
  {
    var a, all := args[0], Join(args, ",");
    if i < |a| {
      assert InsideAt(a, i, b);
      assert all[..i] == a[..i];
    }
    if |args| == 1 {
      assert i == |a| ==> all[..i] == a;
    } else {
      var rest := Join(args[1..], ",");
      NetAppend(a, ",", b);
      NetOne(',', b);
      NetAppend(a + ",", rest, b);
      JoinNet(args[1..], b, if i > |a| then i - |a| - 1 else 0);
      if i == |a| {
        assert all[..i] == a;
      } else if i > |a| {
        assert all[..i] == a + "," + rest[..i - |a| - 1];
        NetAppend(a + ",", rest[..i - |a| - 1], b);
      }
    }
  }
}
