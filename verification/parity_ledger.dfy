/** The API-parity ledger (scripts/api-parity.py). */
module ParityLedger {
  import opened Text

  datatype Bucket = Same | Systematic | ArityOnly | Differs | OursOnly | TheirsOnly

  datatype Witness = Witness(file: string, text: string)

  datatype Entry = Entry(verdict: string, disposition: Option<string>, bucket: Option<Bucket>,
                         envelope: Option<Witness>)

  /** Rows in file order. A row's position stands for its identity; keys are distinct in the
      source, which nothing below needs. */
  type Ledger = seq<(string, Entry)>

  /** One correlated name. */
  datatype Row = Row(key: string, bucket: Option<Bucket>, nativeBucket: Option<Bucket>,
                     retDiffers: bool, nativeRetDiffers: bool,
                     oursKind: Option<string>, theirsKind: Option<string>)

  datatype Surface = Ported | Native

  function BucketOn(r: Row, s: Surface): Option<Bucket> {
    if s.Native? then r.nativeBucket else r.bucket
  }

  function RetDiffersOn(r: Row, s: Surface): bool {
    if s.Native? then r.nativeRetDiffers else r.retDiffers
  }

  function LedgerKey(lang: string, key: string): string { lang + ":" + key }

  /** `lkey.partition(":")` */
  function LangOf(lkey: string): string { Before(lkey, ":") }
  function PatternOf(lkey: string): string {
    if |Before(lkey, ":")| < |lkey| then lkey[|Before(lkey, ":")| + 1..] else ""
  }

  /** `key.rsplit("::", 1)[0]`, when there is a `::`. */
  function OwnerOf(key: string): Option<string> {
    if |key| < 2 then None
    else if key[|key| - 2..] == "::" then Some(key[..|key| - 2])
    else OwnerOf(key[..|key| - 1])
  }

  predicate ColonsAt(key: string, i: nat) { i + 2 <= |key| && key[i] == ':' && key[i + 1] == ':' }

  /** The owner stands in front of the last `::`. */
  lemma {:induction false} OwnerIff(key: string, o: string)
    ensures OwnerOf(key) == Some(o) <==>
            o <= key && ColonsAt(key, |o|) && forall j: nat :: ColonsAt(key, j) ==> j <= |o|
  {
    if |key| >= 2 && !ColonsAt(key, |key| - 2) {
      var init := key[..|key| - 1];
      assert forall j: nat :: ColonsAt(key, j) <==> ColonsAt(init, j);
      OwnerIff(init, o);
    } else if |key| >= 2 {
      EndColons(key);
      assert |key[..|key| - 2]| == |key| - 2;
      assert o <= key && |o| == |key| - 2 ==> o == key[..|key| - 2];
    }
  }

  lemma EndColons(key: string)
    requires |key| >= 2
    ensures ColonsAt(key, |key| - 2) <==> key[|key| - 2..] == "::"
  {
  }

  /** There is an owner iff the key holds a `::`. */
  lemma {:induction false} OwnedIff(key: string)
    ensures OwnerOf(key).Some? <==> Within("::", key)
  {
    if OwnerOf(key).Some? {
      var o := OwnerOf(key).value;
      OwnerIff(key, o);
      assert "::" <= key[|o|..];
    }
    if Within("::", key) {
      var i :| 0 <= i <= |key| && "::" <= key[i..];
      assert key[i] == key[i..][0] && key[i + 1] == key[i..][1];
      ColonsOwn(key, i);
    }
  }

  lemma {:induction false} ColonsOwn(key: string, i: nat)
    requires ColonsAt(key, i)
    ensures OwnerOf(key).Some?
    decreases |key|
  {
    EndColons(key);
    if !ColonsAt(key, |key| - 2) {
      ColonsOwn(key[..|key| - 1], i);
    }
  }

  lemma OwnerOfMember(o: string, m: string)
    requires ':' !in m
    ensures OwnerOf(o + "::" + m) == Some(o)
  {
    var key := o + "::" + m;
    forall j: nat ensures ColonsAt(key, j) ==> j <= |o| {
      if |o| < j && j + 2 <= |key| {
        assert key[j + 1] == m[j - 1 - |o|];
      }
    }
    OwnerIff(key, o);
  }

  /** A ledger key gives back the language and the name it was made of. */
  lemma {:induction false} KeyParts(lang: string, key: string)
    requires ':' !in lang
    ensures LangOf(LedgerKey(lang, key)) == lang && PatternOf(LedgerKey(lang, key)) == key
  {
    BeforeFirst(lang, ":" + key, ':');
    Assoc(lang, ":", key);
    assert (lang + ":" + key)[|lang| + 1..] == key;
  }

  /** `fnmatchcase` for patterns whose only special character is `*`. */
  predicate Glob(pattern: string, s: string)
    decreases |pattern| + |s|
  {
    if pattern == "" then s == ""
    else if pattern[0] == '*' then Glob(pattern[1..], s) || (s != "" && Glob(pattern, s[1..]))
    else s != "" && s[0] == pattern[0] && Glob(pattern[1..], s[1..])
  }

  lemma {:induction false} GlobStar(s: string)
    ensures Glob("*", s)
  {
    if s != "" {
      GlobStar(s[1..]);
    }
  }

  /** A family pattern covers exactly the names with its prefix. */
  lemma {:induction false} GlobPrefix(prefix: string, s: string)
    requires '*' !in prefix
    ensures Glob(prefix + "*", s) <==> prefix <= s
  {
    if prefix == "" {
      GlobStar(s);
      assert prefix + "*" == "*";
    } else {
      assert (prefix + "*")[1..] == prefix[1..] + "*";
      if s != "" {
        GlobPrefix(prefix[1..], s[1..]);
      }
    }
  }

  /** A literal in front of a star, and one behind it. */
  lemma {:induction false} GlobLiteral(literal: string, pattern: string, s: string)
    requires '*' !in literal
    ensures Glob(literal + pattern, s) <==> literal <= s && Glob(pattern, s[|literal|..])
  {
    if literal == "" {
      assert literal + pattern == pattern && s[0..] == s;
    } else {
      assert (literal + pattern)[1..] == literal[1..] + pattern;
      if s != "" {
        GlobLiteral(literal[1..], pattern, s[1..]);
        if literal <= s {
          assert s[1..][|literal| - 1..] == s[|literal|..];
        }
      }
    }
  }

  /** A star stands for any text. */
  lemma {:induction false} GlobAnyText(pattern: string, s: string)
    ensures Glob("*" + pattern, s) <==> exists i: nat :: i <= |s| && Glob(pattern, s[i..])
  {
    var star := "*" + pattern;
    assert star[1..] == pattern && s[0..] == s;
    if s == "" {
      assert s[0..] == "";
    } else {
      GlobAnyText(pattern, s[1..]);
      if i: nat :| i <= |s| && Glob(pattern, s[i..]) {
        if i > 0 {
          assert s[1..][i - 1..] == s[i..];
        }
      }
      if j: nat :| j <= |s[1..]| && Glob(pattern, s[1..][j..]) {
        assert s[1..][j..] == s[j + 1..];
      }
    }
  }

  // ------------------------------------------------------------- lookup

  function IndexOf(ledger: Ledger, lkey: string): (r: Option<nat>)
    ensures r.Some? ==> r.value < |ledger| && ledger[r.value].0 == lkey
    ensures r.None? ==> forall i :: 0 <= i < |ledger| ==> ledger[i].0 != lkey
  {
    if ledger == [] then None
    else if ledger[|ledger| - 1].0 == lkey then Some(|ledger| - 1)
    else
      assert forall i :: 0 <= i < |ledger| - 1 ==> ledger[i] == ledger[..|ledger| - 1][i];
      IndexOf(ledger[..|ledger| - 1], lkey)
  }

  predicate Covers(row: (string, Entry), lang: string, key: string, bucket: Bucket) {
    LangOf(row.0) == lang && '*' in PatternOf(row.0) && row.1.bucket == Some(bucket) &&
    Glob(PatternOf(row.0), key)
  }

  /** Pattern length of a covering row, -1 for any other. */
  function CoverLength(row: (string, Entry), lang: string, key: string, bucket: Bucket): int {
    if Covers(row, lang, key, bucket) then |PatternOf(row.0)| else -1
  }

  function CoverLengths(ledger: Ledger, lang: string, key: string, bucket: Bucket): seq<int> {
    seq(|ledger|, i requires 0 <= i < |ledger| => CoverLength(ledger[i], lang, key, bucket))
  }

  /** Position of the largest non-negative length, the earliest of equals. */
  function Longest(lengths: seq<int>): (r: Option<nat>)
    ensures r.None? ==> forall i :: 0 <= i < |lengths| ==> lengths[i] < 0
    ensures r.Some? ==> r.value < |lengths| && lengths[r.value] >= 0 &&
                        forall i :: 0 <= i < |lengths| ==>
                                      lengths[i] + (if i < r.value then 1 else 0) <= lengths[r.value]
  {
    if lengths == [] then None else
      var m := |lengths| - 1;
      var best := Longest(lengths[..m]);
      assert forall i :: 0 <= i < m ==> lengths[..m][i] == lengths[i];
      if lengths[m] >= 0 && (best.None? || lengths[m] > lengths[best.value]) then Some(m) else best
  }

  function BestGlob(ledger: Ledger, lang: string, key: string, bucket: Bucket): (r: Option<nat>)
    ensures r.Some? ==> r.value < |ledger|
  {
    Longest(CoverLengths(ledger, lang, key, bucket))
  }

  /** The row of the owning type, when that type sits in the member's own bucket. */
  function OwnerRow(ledger: Ledger, lang: string, key: string, bucket: Bucket,
                    buckets: map<string, Bucket>): Option<nat> {
    var owner := OwnerOf(key);
    if owner.Some? && owner.value in buckets && buckets[owner.value] == bucket
    then IndexOf(ledger, LedgerKey(lang, owner.value)) else None
  }

  function Answer(ledger: Ledger, lang: string, key: string, bucket: Bucket,
                  buckets: map<string, Bucket>): (r: Option<nat>)
    ensures r.Some? ==> r.value < |ledger|
  {
    var own := IndexOf(ledger, LedgerKey(lang, key));
    var owner := OwnerRow(ledger, lang, key, bucket, buckets);
    if own.Some? then own
    else if owner.Some? then owner
    else BestGlob(ledger, lang, key, bucket)
  }

  method Lookup(ledger: Ledger, lang: string, key: string, bucket: Bucket, buckets: map<string, Bucket>)
    returns (row: Option<nat>, inherited: bool)
    ensures row == Answer(ledger, lang, key, bucket, buckets)
    ensures inherited <==> row.Some? && IndexOf(ledger, LedgerKey(lang, key)).None?
  {
    var own := IndexOf(ledger, LedgerKey(lang, key));
    if own.Some? {
      return own, false;
    }
    var owner := OwnerOf(key);
    if owner.Some? && owner.value in buckets && buckets[owner.value] == bucket {
      var above := IndexOf(ledger, LedgerKey(lang, owner.value));
      if above.Some? {
        return above, true;
      }
    }
    row := LongestGlob(ledger, lang, key, bucket);
    inherited := row.Some?;
  }

  lemma BestGlobStep(ledger: Ledger, lang: string, key: string, bucket: Bucket, i: nat)
    requires i < |ledger|
    ensures var best := BestGlob(ledger[..i], lang, key, bucket);
            BestGlob(ledger[..i + 1], lang, key, bucket) ==
            if Covers(ledger[i], lang, key, bucket) &&
               (best.None? || |PatternOf(ledger[i].0)| > |PatternOf(ledger[best.value].0)|)
            then Some(i) else best
  {
    var before, now := CoverLengths(ledger[..i], lang, key, bucket), CoverLengths(ledger[..i + 1], lang, key, bucket);
    assert now[..i] == before && now[i] == CoverLength(ledger[i], lang, key, bucket);
    var best := Longest(before);
    assert best.Some? ==> before[best.value] == CoverLength(ledger[best.value], lang, key, bucket);
  }

  method LongestGlob(ledger: Ledger, lang: string, key: string, bucket: Bucket) returns (best: Option<nat>)
    ensures best == BestGlob(ledger, lang, key, bucket)
  {
    best := None;
    for i := 0 to |ledger|
      invariant best == BestGlob(ledger[..i], lang, key, bucket)
    {
      BestGlobStep(ledger, lang, key, bucket, i);
      var (lkey, entry) := ledger[i];
      if LangOf(lkey) != lang || '*' !in PatternOf(lkey) {
        continue;
      }
      if entry.bucket != Some(bucket) {
        continue;
      }
      if !Glob(PatternOf(lkey), key) {
        continue;
      }
      if best.None? || |PatternOf(lkey)| > |PatternOf(ledger[best.value].0)| {
        best := Some(i);
      }
    }
    assert ledger[..|ledger|] == ledger;
  }

  /** Row `b` covers the name and no covering row has a longer pattern, nor an earlier row one
      as long. */
  predicate IsLongestCover(ledger: Ledger, lang: string, key: string, bucket: Bucket, b: nat)
    requires b < |ledger|
  {
    Covers(ledger[b], lang, key, bucket) &&
    forall i :: 0 <= i < |ledger| && Covers(ledger[i], lang, key, bucket) ==>
                  |PatternOf(ledger[i].0)| + (if i < b then 1 else 0) <= |PatternOf(ledger[b].0)|
  }

  lemma BestGlobIsLongest(ledger: Ledger, lang: string, key: string, bucket: Bucket)
    ensures BestGlob(ledger, lang, key, bucket).None? <==>
            forall i :: 0 <= i < |ledger| ==> !Covers(ledger[i], lang, key, bucket)
    ensures BestGlob(ledger, lang, key, bucket).Some? ==>
            IsLongestCover(ledger, lang, key, bucket, BestGlob(ledger, lang, key, bucket).value)
  {
    var lengths := CoverLengths(ledger, lang, key, bucket);
    assert forall i :: 0 <= i < |ledger| ==> lengths[i] == CoverLength(ledger[i], lang, key, bucket);
  }

  /** Where a verdict may come from: the name's own row; else its type's row, only from the
      same bucket; else a longest glob, only one that declares this bucket. */
  lemma VerdictStaysInBucket(ledger: Ledger, lang: string, key: string, bucket: Bucket, buckets: map<string, Bucket>)
    ensures var a := Answer(ledger, lang, key, bucket, buckets);
            a.Some? ==>
              var row := ledger[a.value];
              (exists i :: 0 <= i < |ledger| && ledger[i].0 == LedgerKey(lang, key)) ==>
                row.0 == LedgerKey(lang, key)
    ensures var a := Answer(ledger, lang, key, bucket, buckets);
            a.Some? && ledger[a.value].0 != LedgerKey(lang, key) ==>
              var row := ledger[a.value];
              || (exists owner :: OwnerOf(key) == Some(owner) && row.0 == LedgerKey(lang, owner) &&
                                  owner in buckets && buckets[owner] == bucket)
              || (row.1.bucket == Some(bucket) && Glob(PatternOf(row.0), key) &&
                  forall i :: 0 <= i < |ledger| && Covers(ledger[i], lang, key, bucket) ==>
                                |PatternOf(ledger[i].0)| <= |PatternOf(row.0)|)
  {
    BestGlobIsLongest(ledger, lang, key, bucket);
    if OwnerOf(key).Some? {
      var owner := OwnerOf(key).value;
      assert OwnerOf(key) == Some(owner);
    }
  }

  /** A member with no row of its own has its type's row, where the type sits in the member's bucket. */
  lemma MemberInherits(ledger: Ledger, lang: string, o: string, m: string, bucket: Bucket, buckets: map<string, Bucket>)
    requires ':' !in m && IndexOf(ledger, LedgerKey(lang, o + "::" + m)).None?
    requires o in buckets && buckets[o] == bucket && IndexOf(ledger, LedgerKey(lang, o)).Some?
    ensures Answer(ledger, lang, o + "::" + m, bucket, buckets) == IndexOf(ledger, LedgerKey(lang, o))
  {
    OwnerOfMember(o, m);
  }

  /** In any other bucket the type's row does not speak for it: a glob answers, or nothing. */
  lemma MemberArguesItself(ledger: Ledger, lang: string, o: string, m: string, bucket: Bucket, buckets: map<string, Bucket>)
    requires ':' !in m && IndexOf(ledger, LedgerKey(lang, o + "::" + m)).None?
    requires o in buckets ==> buckets[o] != bucket
    ensures Answer(ledger, lang, o + "::" + m, bucket, buckets) == BestGlob(ledger, lang, o + "::" + m, bucket)
  {
    OwnerOfMember(o, m);
  }

  /** A name that is no member has its own row or a glob. */
  lemma PlainNameArguesItself(ledger: Ledger, lang: string, key: string, bucket: Bucket, buckets: map<string, Bucket>)
    requires !Within("::", key) && IndexOf(ledger, LedgerKey(lang, key)).None?
    ensures Answer(ledger, lang, key, bucket, buckets) == BestGlob(ledger, lang, key, bucket)
  {
    OwnedIff(key);
  }

  predicate Applies(row: (string, Entry), lang: string, key: string, bucket: Bucket, buckets: map<string, Bucket>) {
    || row.0 == LedgerKey(lang, key)
    || (var owner := OwnerOf(key);
        owner.Some? && owner.value in buckets && buckets[owner.value] == bucket &&
        row.0 == LedgerKey(lang, owner.value))
    || Covers(row, lang, key, bucket)
  }

  /** A name is answered iff some row applies to it. */
  lemma AnsweredIff(ledger: Ledger, lang: string, key: string, bucket: Bucket, buckets: map<string, Bucket>)
    ensures Answer(ledger, lang, key, bucket, buckets).Some? <==>
            exists i :: 0 <= i < |ledger| && Applies(ledger[i], lang, key, bucket, buckets)
  {
    BestGlobIsLongest(ledger, lang, key, bucket);
    var a := Answer(ledger, lang, key, bucket, buckets);
    if a.Some? {
      assert Applies(ledger[a.value], lang, key, bucket, buckets);
    }
  }

  /** Adding rows, anywhere, never leaves an answered name unanswered. */
  lemma AnsweredIsMonotone(ledger: Ledger, more: Ledger, lang: string, key: string, bucket: Bucket,
                           buckets: map<string, Bucket>)
    requires forall row <- ledger :: row in more
    requires Answer(ledger, lang, key, bucket, buckets).Some?
    ensures Answer(more, lang, key, bucket, buckets).Some?
  {
    AnsweredIff(ledger, lang, key, bucket, buckets);
    var i :| 0 <= i < |ledger| && Applies(ledger[i], lang, key, bucket, buckets);
    assert ledger[i] in more;
    var j :| 0 <= j < |more| && more[j] == ledger[i];
    AnsweredIff(more, lang, key, bucket, buckets);
  }

  // ------------------------------------------------------------- the coverage gate

  /** The bucket of every key on a surface; a later row wins. */
  function BucketMap(rows: seq<Row>, s: Surface): map<string, Bucket> {
    if rows == [] then map[] else
      var r := rows[|rows| - 1];
      var before := BucketMap(rows[..|rows| - 1], s);
      if BucketOn(r, s).Some? then before[r.key := BucketOn(r, s).value] else before
  }

  /** A key's bucket is that of its last row that has one. */
  lemma {:induction false} LastRowDecides(rows: seq<Row>, r: Row, more: seq<Row>, s: Surface)
    requires BucketOn(r, s).Some? && forall q <- more :: q.key == r.key ==> BucketOn(q, s).None?
    ensures var buckets := BucketMap(rows + [r] + more, s); r.key in buckets && buckets[r.key] == BucketOn(r, s).value
  {
    var all := rows + [r] + more;
    if more == [] {
      assert all[..|all| - 1] == rows;
    } else {
      var last := more[|more| - 1];
      assert all[..|all| - 1] == rows + [r] + more[..|more| - 1] && all[|all| - 1] == last;
      assert last in more;
      LastRowDecides(rows, r, more[..|more| - 1], s);
    }
  }

  method CollectBuckets(rows: seq<Row>, s: Surface) returns (buckets: map<string, Bucket>)
    ensures buckets == BucketMap(rows, s)
  {
    buckets := map[];
    for i := 0 to |rows|
      invariant buckets == BucketMap(rows[..i], s)
    {
      assert rows[..i + 1][..i] == rows[..i];
      if BucketOn(rows[i], s).Some? {
        buckets := buckets[rows[i].key := BucketOn(rows[i], s).value];
      }
    }
    assert rows[..|rows|] == rows;
  }

  /** A row the gate asks the ledger about: it differs, or it is `same` but for a return
      type. */
  predicate Asked(r: Row, s: Surface) {
    var b := BucketOn(r, s);
    b.Some? && !b.value.Systematic? && !(b.value.Same? && !RetDiffersOn(r, s))
  }

  /** On either surface: every divergent name but a systematic one, and a `same` name whose return type differs. */
  lemma AskedIff(r: Row)
    ensures Asked(r, Native) <==>
            r.nativeBucket in {Some(ArityOnly), Some(Differs), Some(OursOnly), Some(TheirsOnly)} ||
            (r.nativeBucket == Some(Same) && r.nativeRetDiffers)
    ensures Asked(r, Ported) <==>
            r.bucket in {Some(ArityOnly), Some(Differs), Some(OursOnly), Some(TheirsOnly)} ||
            (r.bucket == Some(Same) && r.retDiffers)
  {
  }

  datatype Heading = SameRet | In(bucket: Bucket)

  datatype Unledgered = Unledgered(lang: string, heading: Heading, key: string)

  function GateRows(ledger: Ledger, lang: string, rows: seq<Row>, buckets: map<string, Bucket>, s: Surface): seq<Unledgered> {
    if rows == [] then [] else
      var r := rows[|rows| - 1];
      GateRows(ledger, lang, rows[..|rows| - 1], buckets, s) +
      if Asked(r, s) && Answer(ledger, lang, r.key, BucketOn(r, s).value, buckets).None?
      then [Unledgered(lang, if BucketOn(r, s).value.Same? then SameRet else In(BucketOn(r, s).value), r.key)]
      else []
  }

  method FindUnledgered(ledger: Ledger, lang: string, rows: seq<Row>, s: Surface) returns (out: seq<Unledgered>)
    ensures out == GateRows(ledger, lang, rows, BucketMap(rows, s), s)
  {
    var buckets := CollectBuckets(rows, s);
    out := [];
    for i := 0 to |rows|
      invariant out == GateRows(ledger, lang, rows[..i], buckets, s)
    {
      assert rows[..i + 1][..i] == rows[..i];
      var b := BucketOn(rows[i], s);
      if b.None? {
        continue;
      }
      if b.value.Systematic? || (b.value.Same? && !RetDiffersOn(rows[i], s)) {
        continue;
      }
      var row, _ := Lookup(ledger, lang, rows[i].key, b.value, buckets);
      if row.None? {
        out := out + [Unledgered(lang, if b.value.Same? then SameRet else In(b.value), rows[i].key)];
      }
    }
    assert rows[..|rows|] == rows;
  }

  lemma {:induction false} GateRowsEmpty(ledger: Ledger, lang: string, rows: seq<Row>,
                                         buckets: map<string, Bucket>, s: Surface)
    ensures GateRows(ledger, lang, rows, buckets, s) == [] <==>
            forall r <- rows :: Asked(r, s) ==> Answer(ledger, lang, r.key, BucketOn(r, s).value, buckets).Some?
  {
    if rows != [] {
      GateRowsEmpty(ledger, lang, rows[..|rows| - 1], buckets, s);
      assert rows == rows[..|rows| - 1] + [rows[|rows| - 1]];
    }
  }

  function Unanswered(lang: string, r: Row, s: Surface): Unledgered
    requires Asked(r, s)
  {
    Unledgered(lang, if BucketOn(r, s).value.Same? then SameRet else In(BucketOn(r, s).value), r.key)
  }

  /** The row must be answered, nothing answers it, and it is reported as `u`. */
  predicate ReportedAs(ledger: Ledger, lang: string, r: Row, buckets: map<string, Bucket>, s: Surface, u: Unledgered) {
    Asked(r, s) && u == Unanswered(lang, r, s) &&
    Answer(ledger, lang, r.key, BucketOn(r, s).value, buckets).None?
  }

  lemma GateRowsSnoc(ledger: Ledger, lang: string, rows: seq<Row>, r: Row,
                     buckets: map<string, Bucket>, s: Surface, u: Unledgered)
    ensures u in GateRows(ledger, lang, rows + [r], buckets, s) <==>
            u in GateRows(ledger, lang, rows, buckets, s) || ReportedAs(ledger, lang, r, buckets, s, u)
  {
    assert (rows + [r])[..|rows|] == rows;
  }

  /** The gate reports exactly the asked rows that nothing answers. */
  lemma {:induction false} GateRowsMembers(ledger: Ledger, lang: string, rows: seq<Row>,
                                           buckets: map<string, Bucket>, s: Surface, u: Unledgered)
    ensures u in GateRows(ledger, lang, rows, buckets, s) <==>
            exists r <- rows :: ReportedAs(ledger, lang, r, buckets, s, u)
  {
    if rows != [] {
      var init, last := rows[..|rows| - 1], rows[|rows| - 1];
      assert rows == init + [last];
      GateRowsMembers(ledger, lang, init, buckets, s, u);
      GateRowsSnoc(ledger, lang, init, last, buckets, s, u);
    }
  }

  /** Writing one row, of any content, for each reported key clears the gate in one pass. */
  lemma OneRowPerReportClearsGate(ledger: Ledger, lang: string, rows: seq<Row>, s: Surface, more: Ledger)
    requires forall row <- ledger :: row in more
    requires forall u <- GateRows(ledger, lang, rows, BucketMap(rows, s), s) ::
               exists row <- more :: row.0 == LedgerKey(lang, u.key)
    ensures GateRows(more, lang, rows, BucketMap(rows, s), s) == []
  {
    var buckets := BucketMap(rows, s);
    forall r <- rows | Asked(r, s)
      ensures Answer(more, lang, r.key, BucketOn(r, s).value, buckets).Some?
    {
      if Answer(ledger, lang, r.key, BucketOn(r, s).value, buckets).Some? {
        AnsweredIsMonotone(ledger, more, lang, r.key, BucketOn(r, s).value, buckets);
      } else {
        var u := Unanswered(lang, r, s);
        assert ReportedAs(ledger, lang, r, buckets, s, u);
        GateRowsMembers(ledger, lang, rows, buckets, s, u);
        var row :| row in more && row.0 == LedgerKey(lang, u.key);
        assert IndexOf(more, LedgerKey(lang, r.key)).Some?;
      }
    }
    GateRowsEmpty(more, lang, rows, buckets, s);
  }

  // ------------------------------------------------------------- silent divergences

  predicate Said(d: Option<string>) { d.Some? && d.value != "" }

  predicate KindsNeverCorrespond(r: Row) {
    {r.oursKind, r.theirsKind} >= {Some("enum"), Some("type")}
  }

  /** An enum on either side and a struct-like type on the other. */
  lemma KindsNeverCorrespondIff(r: Row)
    ensures KindsNeverCorrespond(r) <==>
            (r.oursKind == Some("enum") && r.theirsKind == Some("type")) ||
            (r.oursKind == Some("type") && r.theirsKind == Some("enum"))
  {
    if KindsNeverCorrespond(r) {
      assert Some("enum") in {r.oursKind, r.theirsKind} && Some("type") in {r.oursKind, r.theirsKind};
    }
  }

  /** The row that answers a `same` name, when it is a `divergence` with no disposition. */
  function SilentRow(ledger: Ledger, lang: string, r: Row, buckets: map<string, Bucket>): (i: Option<nat>)
    ensures i.Some? ==> i.value < |ledger|
  {
    var a := Answer(ledger, lang, r.key, Same, buckets);
    if r.bucket == Some(Same) && !KindsNeverCorrespond(r) && a.Some? &&
       ledger[a.value].1.verdict == "divergence" && !Said(ledger[a.value].1.disposition)
    then a else None
  }

  function SameShaped(ledger: Ledger, lang: string, rows: seq<Row>, buckets: map<string, Bucket>): set<string> {
    set r | r in rows && SilentRow(ledger, lang, r, buckets).Some? ::
      ledger[SilentRow(ledger, lang, r, buckets).value].0
  }

  lemma SameShapedStep(ledger: Ledger, lang: string, rows: seq<Row>, buckets: map<string, Bucket>, i: nat)
    requires i < |rows|
    ensures SameShaped(ledger, lang, rows[..i + 1], buckets) ==
            var row := SilentRow(ledger, lang, rows[i], buckets);
            SameShaped(ledger, lang, rows[..i], buckets) + if row.Some? then {ledger[row.value].0} else {}
  {
    assert rows[..i + 1] == rows[..i] + [rows[i]];
    assert rows[i] in rows[..i + 1];
    assert forall r <- rows[..i] :: r in rows[..i + 1];
  }

  method SameShapedDivergences(ledger: Ledger, lang: string, rows: seq<Row>) returns (out: set<string>)
    ensures out == SameShaped(ledger, lang, rows, BucketMap(rows, Ported))
  {
    var buckets := CollectBuckets(rows, Ported);
    out := {};
    for i := 0 to |rows|
      invariant out == SameShaped(ledger, lang, rows[..i], buckets)
    {
      var r := rows[i];
      SameShapedStep(ledger, lang, rows, buckets, i);
      if r.bucket != Some(Same) {
        continue;
      }
      if KindsNeverCorrespond(r) {
        continue;
      }
      var row, inherited := Lookup(ledger, lang, r.key, Same, buckets);
      if row.None? || ledger[row.value].1.verdict != "divergence" {
        continue;
      }
      if Said(ledger[row.value].1.disposition) {
        continue;
      }
      var key := LedgerKey(lang, r.key);
      if inherited {
        key := ledger[row.value].0;
      }
      out := out + {key};
    }
    assert rows[..|rows|] == rows;
  }

  /** Write the disposition `d` on every row named in `keys`. */
  function Dispose(ledger: Ledger, keys: set<string>, d: string): (r: Ledger)
    ensures |r| == |ledger|
    ensures forall i :: 0 <= i < |ledger| ==>
              r[i] == (ledger[i].0, if ledger[i].0 in keys then ledger[i].1.(disposition := Some(d)) else ledger[i].1)
  {
    seq(|ledger|, i requires 0 <= i < |ledger| =>
      (ledger[i].0, if ledger[i].0 in keys then ledger[i].1.(disposition := Some(d)) else ledger[i].1))
  }

  lemma {:induction false} DisposeKeepsIndex(ledger: Ledger, keys: set<string>, d: string, lkey: string)
    ensures IndexOf(Dispose(ledger, keys, d), lkey) == IndexOf(ledger, lkey)
  {
    if ledger != [] {
      var m := |ledger| - 1;
      assert Dispose(ledger, keys, d)[..m] == Dispose(ledger[..m], keys, d);
      DisposeKeepsIndex(ledger[..m], keys, d, lkey);
    }
  }

  lemma DisposeKeepsBestGlob(ledger: Ledger, keys: set<string>, d: string, lang: string, key: string, bucket: Bucket)
    ensures BestGlob(Dispose(ledger, keys, d), lang, key, bucket) == BestGlob(ledger, lang, key, bucket)
  {
    assert CoverLengths(Dispose(ledger, keys, d), lang, key, bucket) == CoverLengths(ledger, lang, key, bucket);
  }

  lemma DisposeKeepsAnswer(ledger: Ledger, keys: set<string>, d: string, lang: string, key: string,
                           bucket: Bucket, buckets: map<string, Bucket>)
    ensures Answer(Dispose(ledger, keys, d), lang, key, bucket, buckets) == Answer(ledger, lang, key, bucket, buckets)
  {
    DisposeKeepsIndex(ledger, keys, d, LedgerKey(lang, key));
    if OwnerOf(key).Some? {
      DisposeKeepsIndex(ledger, keys, d, LedgerKey(lang, OwnerOf(key).value));
    }
    DisposeKeepsBestGlob(ledger, keys, d, lang, key, bucket);
  }

  /** Each disposition written removes exactly its own key from the report, so disposing of
      every reported key empties it in one pass and anything less does not. */
  lemma DisposingClearsExactly(ledger: Ledger, lang: string, rows: seq<Row>, keys: set<string>, d: string)
    requires d != ""
    ensures var buckets := BucketMap(rows, Ported);
            SameShaped(Dispose(ledger, keys, d), lang, rows, buckets)
            == SameShaped(ledger, lang, rows, buckets) - keys
  {
    var buckets := BucketMap(rows, Ported);
    var after := Dispose(ledger, keys, d);
    forall r <- rows
      ensures SilentRow(after, lang, r, buckets) ==
              var was := SilentRow(ledger, lang, r, buckets);
              if was.Some? && ledger[was.value].0 !in keys then was else None
    {
      DisposeKeepsAnswer(ledger, keys, d, lang, r.key, Same, buckets);
    }
  }

  // ------------------------------------------------------------- refusals nobody declares

  predicate FalseRefusal(ledger: Ledger, lang: string, r: Row, buckets: map<string, Bucket>) {
    r.bucket == Some(TheirsOnly) &&
    var a := Answer(ledger, lang, r.key, TheirsOnly, buckets);
    a.Some? && ledger[a.value].1.disposition == Some("refuse-loud")
  }

  /** A name upstream alone declares is no refusal of ours: a row of its own that refuses aloud is reported. */
  lemma OwnRefusalIsReported(ledger: Ledger, lang: string, r: Row, buckets: map<string, Bucket>, i: nat)
    requires IndexOf(ledger, LedgerKey(lang, r.key)) == Some(i)
    ensures FalseRefusal(ledger, lang, r, buckets) <==>
            r.bucket == Some(TheirsOnly) && ledger[i].1.disposition == Some("refuse-loud")
  {
  }

  function Misdeclared(ledger: Ledger, lang: string, rows: seq<Row>, buckets: map<string, Bucket>): set<string> {
    set r | r in rows && FalseRefusal(ledger, lang, r, buckets) :: LedgerKey(lang, r.key)
  }

  method MisdeclaredRefusals(ledger: Ledger, lang: string, rows: seq<Row>) returns (out: set<string>)
    ensures out == Misdeclared(ledger, lang, rows, BucketMap(rows, Ported))
  {
    var buckets := CollectBuckets(rows, Ported);
    out := {};
    for i := 0 to |rows|
      invariant out == Misdeclared(ledger, lang, rows[..i], buckets)
    {
      var r := rows[i];
      assert rows[..i + 1] == rows[..i] + [r];
      if r.bucket != Some(TheirsOnly) {
        continue;
      }
      var row, _ := Lookup(ledger, lang, r.key, TheirsOnly, buckets);
      if row.None? || ledger[row.value].1.disposition != Some("refuse-loud") {
        continue;
      }
      out := out + {LedgerKey(lang, r.key)};
    }
    assert rows[..|rows|] == rows;
  }

  /** The member rows a repair adds: their own `absent`, declaring no bucket. */
  predicate AbsentRows(rows: Ledger) {
    forall i :: 0 <= i < |rows| ==> rows[i].1.disposition == Some("absent") && rows[i].1.bucket.None?
  }

  lemma {:induction false} AppendIndex(ledger: Ledger, added: Ledger, lkey: string)
    ensures IndexOf(ledger + added, lkey) ==
            var j := IndexOf(added, lkey);
            if j.Some? then Some(|ledger| + j.value) else IndexOf(ledger, lkey)
  {
    if added == [] {
      assert ledger + added == ledger;
    } else {
      var m := |added| - 1;
      assert (ledger + added)[..|ledger + added| - 1] == ledger + added[..m];
      AppendIndex(ledger, added[..m], lkey);
    }
  }

  lemma {:induction false} LongestSkips(lengths: seq<int>, more: seq<int>)
    requires forall i :: 0 <= i < |more| ==> more[i] < 0
    ensures Longest(lengths + more) == Longest(lengths)
  {
    if more == [] {
      assert lengths + more == lengths;
    } else {
      assert (lengths + more)[..|lengths + more| - 1] == lengths + more[..|more| - 1];
      LongestSkips(lengths, more[..|more| - 1]);
    }
  }

  lemma AppendBestGlob(ledger: Ledger, added: Ledger, lang: string, key: string, bucket: Bucket)
    requires AbsentRows(added)
    ensures BestGlob(ledger + added, lang, key, bucket) == BestGlob(ledger, lang, key, bucket)
  {
    assert CoverLengths(ledger + added, lang, key, bucket)
        == CoverLengths(ledger, lang, key, bucket) + CoverLengths(added, lang, key, bucket);
    LongestSkips(CoverLengths(ledger, lang, key, bucket), CoverLengths(added, lang, key, bucket));
  }

  /** The remedy the gate names: give every reported member its own `absent`, by editing its
      row where it has one and adding one where the refusal was inherited. One pass clears
      the report, and no other refusal in the ledger is touched. */
  lemma AbsentRowsClearRefusals(ledger: Ledger, lang: string, rows: seq<Row>, added: Ledger)
    requires AbsentRows(added)
    requires var reported := Misdeclared(ledger, lang, rows, BucketMap(rows, Ported));
             forall k <- reported :: IndexOf(ledger, k).Some? || IndexOf(added, k).Some?
    ensures var buckets := BucketMap(rows, Ported);
            var reported := Misdeclared(ledger, lang, rows, buckets);
            Misdeclared(Dispose(ledger, reported, "absent") + added, lang, rows, buckets) == {}
  {
    var buckets := BucketMap(rows, Ported);
    var reported := Misdeclared(ledger, lang, rows, buckets);
    var edited := Dispose(ledger, reported, "absent");
    forall r <- rows ensures !FalseRefusal(edited + added, lang, r, buckets) {
      if r.bucket == Some(TheirsOnly) {
        AbsentAnswer(ledger, lang, r, reported, added, buckets);
      }
    }
  }

  lemma AbsentAnswer(ledger: Ledger, lang: string, r: Row, reported: set<string>, added: Ledger,
                     buckets: map<string, Bucket>)
    requires AbsentRows(added)
    requires FalseRefusal(ledger, lang, r, buckets) ==>
               LedgerKey(lang, r.key) in reported &&
               (IndexOf(ledger, LedgerKey(lang, r.key)).Some? || IndexOf(added, LedgerKey(lang, r.key)).Some?)
    ensures !FalseRefusal(Dispose(ledger, reported, "absent") + added, lang, r, buckets)
  {
    var edited := Dispose(ledger, reported, "absent");
    AppendIndex(edited, added, LedgerKey(lang, r.key));
    DisposeKeepsIndex(ledger, reported, "absent", LedgerKey(lang, r.key));
    if OwnerOf(r.key).Some? {
      var owner := LedgerKey(lang, OwnerOf(r.key).value);
      AppendIndex(edited, added, owner);
      DisposeKeepsIndex(ledger, reported, "absent", owner);
    }
    AppendBestGlob(edited, added, lang, r.key, TheirsOnly);
    DisposeKeepsBestGlob(ledger, reported, "absent", lang, r.key, TheirsOnly);
  }
}
