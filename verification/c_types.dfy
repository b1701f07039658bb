/** C types and parameter lists, read out of prototypes. */
module CTypes {
  import opened Text
  import opened BracketScanner

  const NOISE: set<string> :=
    {"RCL_PUBLIC", "RCL_WARN_UNUSED", "RCLC_PUBLIC", "RCL_ACTION_PUBLIC", "RCL_LIFECYCLE_PUBLIC",
     "RCLC_LIFECYCLE_PUBLIC", "RCLC_PARAMETER_PUBLIC", "RCUTILS_WARN_UNUSED",
     "RCLC_PARAMETER_WARN_UNUSED", "NROS_PUBLIC", "extern", "struct", "enum"}

  const ALIAS: map<string, string> :=
    map["rcutils_allocator_t" := "rcl_allocator_t",
        "rcutils_ret_t" := "rcl_ret_t",
        "rmw_ret_t" := "rcl_ret_t",
        "rcl_time_point_value_t" := "int64_t",
        "rcl_duration_value_t" := "int64_t",
        "rosidl_message_type_support_t" := "rclc_message_type_t",
        "rosidl_service_type_support_t" := "rclc_service_type_t",
        "rosidl_action_type_support_t" := "rclc_action_type_t"]

  // ---- Tokens

  predicate WordStart(c: char) { Letter(c) || c == '_' }

  predicate Identifier(s: string) { s != "" && WordStart(s[0]) && forall i | 0 <= i < |s| :: WordChar(s[i]) }

  predicate Token(s: string) { s == "*" || Identifier(s) }

  predicate AllTokens(toks: seq<string>) { forall i | 0 <= i < |toks| :: Token(toks[i]) }

  function Tokens(s: string): seq<string>
    decreases |s|
  {
    if s == "" then []
    else if s[0] == '*' then ["*"] + Tokens(s[1..])
    else if WordStart(s[0]) then [s[..WordRun(s)]] + Tokens(s[WordRun(s)..])
    else Tokens(s[1..])
  }

  lemma {:induction false} TokensAreTokens(s: string)
    ensures AllTokens(Tokens(s))
    decreases |s|
  {
    if s != "" {
      TokensAreTokens(if s[0] != '*' && WordStart(s[0]) then s[WordRun(s)..] else s[1..]);
    }
  }

  lemma TokenThenSpace(t: string, rest: string)
    requires Token(t) && (rest != "" ==> rest[0] == ' ')
    ensures Tokens(t + rest) == [t] + Tokens(rest)
  {
    var s := t + rest;
    if t == "*" {
      assert s[1..] == rest;
    } else {
      var n := WordRun(s);
      assert forall i | 0 <= i < |t| :: s[i] == t[i];
      assert rest != "" ==> s[|t|] == ' ' && !WordChar(' ');
      assert n == |t|;
      assert s[..n] == t && s[n..] == rest;
    }
  }

  /** Reading tokens undoes joining them with spaces. */
  lemma {:induction false} TokensOfJoin(toks: seq<string>)
    requires AllTokens(toks)
    ensures Tokens(Join(toks, " ")) == toks
  {
    if |toks| == 1 {
      TokenThenSpace(toks[0], "");
      assert toks[0] + "" == toks[0];
    } else if |toks| > 1 {
      var tail := Join(toks[1..], " ");
      TokensOfJoin(toks[1..]);
      TokenThenSpace(toks[0], " " + tail);
      assert (" " + tail)[1..] == tail;
      assert toks[0] + " " + tail == toks[0] + (" " + tail);
    }
  }

  // ---- Types

  /** Position of the first `c` at or after `i`, or the end. */
  function FirstAt(s: string, c: char, i: nat): (k: nat)
    requires i <= |s|
    ensures i <= k <= |s| && (k < |s| ==> s[k] == c) && forall j | i <= j < k :: s[j] != c
    decreases |s| - i
  {
    if i == |s| || s[i] == c then i else FirstAt(s, c, i + 1)
  }

  /** Each `[...]` becomes a `*`; a `[` that is never closed stays. */
  function ArraysToStars(s: string): string
    decreases |s|
  {
    if s == "" then ""
    else
      var k := FirstAt(s, ']', 0);
      if s[0] == '[' && k < |s| then "*" + ArraysToStars(s[k + 1..]) else [s[0]] + ArraysToStars(s[1..])
  }

  lemma {:induction false} NoArrays(s: string, rest: string)
    requires '[' !in s
    ensures ArraysToStars(s + rest) == s + ArraysToStars(rest)
  {
    if s == "" {
      assert s + rest == rest;
    } else {
      assert (s + rest)[1..] == s[1..] + rest;
      NoArrays(s[1..], rest);
    }
  }

  function Renamed(t: string): string { if t in ALIAS then ALIAS[t] else t }

  /** Drops the noise words and renames the aliases. */
  function Canonical(toks: seq<string>): seq<string> {
    if toks == [] then []
    else (if toks[0] in NOISE then [] else [Renamed(toks[0])]) + Canonical(toks[1..])
  }

  /** `char const` is `const char`. */
  function ConstFirst(toks: seq<string>): seq<string> {
    if |toks| >= 2 && toks[1] == "const" && toks[0] != "*" then [toks[1], toks[0]] + toks[2..] else toks
  }

  function TypeTokens(s: string): seq<string> { ConstFirst(Canonical(Tokens(ArraysToStars(s)))) }

  function NormType(s: string): string { Join(TypeTokens(s), " ") }

  predicate Settled(t: string) { Token(t) && t !in NOISE && t !in ALIAS }

  predicate AllSettled(toks: seq<string>) { forall i | 0 <= i < |toks| :: Settled(toks[i]) }

  lemma AliasValues(t: string)
    ensures t in ALIAS ==>
              ALIAS[t] in {"rcl_allocator_t", "rcl_ret_t", "int64_t",
                           "rclc_message_type_t", "rclc_service_type_t", "rclc_action_type_t"}
  {
  }

  lemma RclNamesSettle()
    ensures Settled("rcl_allocator_t") && Settled("rcl_ret_t") && Settled("int64_t")
  {
    assert Identifier("rcl_allocator_t");
    assert Identifier("rcl_ret_t");
    assert Identifier("int64_t");
  }

  lemma RclcNamesSettle()
    ensures Settled("rclc_message_type_t") && Settled("rclc_service_type_t") && Settled("rclc_action_type_t")
  {
    assert Identifier("rclc_message_type_t");
    assert Identifier("rclc_service_type_t");
    assert Identifier("rclc_action_type_t");
  }

  lemma RenamedSettles(t: string)
    requires Token(t) && t !in NOISE
    ensures Settled(Renamed(t))
  {
    AliasValues(t);
    RclNamesSettle();
    RclcNamesSettle();
  }

  lemma {:induction false} CanonicalSettles(toks: seq<string>)
    requires AllTokens(toks)
    ensures AllSettled(Canonical(toks))
  {
    if toks != [] {
      if toks[0] !in NOISE {
        RenamedSettles(toks[0]);
      }
      CanonicalSettles(toks[1..]);
    }
  }

  lemma {:induction false} SettledStays(toks: seq<string>)
    requires AllSettled(toks)
    ensures Canonical(toks) == toks
  {
    if toks != [] {
      assert Settled(toks[0]);
      SettledStays(toks[1..]);
    }
  }

  lemma TypeTokensSettle(s: string)
    ensures AllSettled(TypeTokens(s)) && ConstFirst(TypeTokens(s)) == TypeTokens(s)
  {
    TokensAreTokens(ArraysToStars(s));
    CanonicalSettles(Tokens(ArraysToStars(s)));
  }

  predicate TypeText(s: string) { forall i | 0 <= i < |s| :: WordChar(s[i]) || s[i] == '*' || s[i] == ' ' }

  lemma {:induction false} JoinIsTypeText(toks: seq<string>)
    requires AllTokens(toks)
    ensures TypeText(Join(toks, " "))
  {
    if toks != [] {
      assert Token(toks[0]);
      JoinIsTypeText(toks[1..]);
    }
  }

  /** A normalised type holds word characters, stars and spaces only. */
  lemma NormTypeText(s: string)
    ensures TypeText(NormType(s))
  {
    TypeTokensSettle(s);
    JoinIsTypeText(TypeTokens(s));
  }

  /** Reading a normalised type gives back the tokens it was written from. */
  lemma NormTypeKeepsTokens(s: string)
    ensures TypeTokens(NormType(s)) == TypeTokens(s)
  {
    var toks, t := TypeTokens(s), NormType(s);
    NormTypeText(s);
    NoArrays(t, "");
    assert t + "" == t;
    TypeTokensSettle(s);
    TokensOfJoin(toks);
    SettledStays(toks);
  }

  lemma NormTypeIdempotent(s: string)
    ensures NormType(NormType(s)) == NormType(s)
  {
    NormTypeKeepsTokens(s);
  }

  /** Two spellings normalise alike exactly when they have the same tokens. */
  lemma SameTypeIff(s: string, t: string)
    ensures NormType(s) == NormType(t) <==> TypeTokens(s) == TypeTokens(t)
  {
    NormTypeKeepsTokens(s);
    NormTypeKeepsTokens(t);
  }

  lemma TokensOfText(toks: seq<string>)
    requires AllTokens(toks)
    ensures TypeTokens(Join(toks, " ")) == ConstFirst(Canonical(toks))
  {
    var t := Join(toks, " ");
    JoinIsTypeText(toks);
    NoArrays(t, "");
    assert t + "" == t;
    TokensOfJoin(toks);
  }

  /** `T const ...` and `const T ...` are one type, spelled the second way. */
  lemma ConstOnEitherSide(base: string, rest: seq<string>)
    requires AllSettled([base, "const"] + rest) && base != "*"
    ensures NormType(Join([base, "const"] + rest, " ")) == Join(["const", base] + rest, " ")
    ensures NormType(Join(["const", base] + rest, " ")) == Join(["const", base] + rest, " ")
  {
    var after, before := [base, "const"] + rest, ["const", base] + rest;
    assert forall i | 2 <= i < |before| :: before[i] == after[i];
    assert before[0] == after[1] && before[1] == after[0];
    SettledTokens(after);
    SettledTokens(before);
    TokensOfText(after);
    TokensOfText(before);
    SettledStays(after);
    SettledStays(before);
    assert after[2..] == rest && before[2..] == rest;
  }

  lemma SettledTokens(toks: seq<string>)
    requires AllSettled(toks)
    ensures AllTokens(toks)
  {
    forall i | 0 <= i < |toks| ensures Token(toks[i]) { assert Settled(toks[i]); }
  }

  lemma {:induction false} CanonicalAppend(a: seq<string>, b: seq<string>)
    ensures Canonical(a + b) == Canonical(a) + Canonical(b)
  {
    if a == [] {
      assert a + b == b;
    } else {
      assert (a + b)[1..] == a[1..] + b && (a + b)[0] == a[0];
      CanonicalAppend(a[1..], b);
      Assoc(if a[0] in NOISE then [] else [Renamed(a[0])], Canonical(a[1..]), Canonical(b));
    }
  }

  lemma CanonicalOne(a: seq<string>, t: string, c: seq<string>)
    ensures Canonical(a + [t] + c) == Canonical(a) + (if t in NOISE then [] else [Renamed(t)]) + Canonical(c)
  {
    CanonicalAppend(a + [t], c);
    CanonicalAppend(a, [t]);
  }

  /** An export macro, `extern`, `struct` or `enum` makes no difference, wherever it stands. */
  lemma NoiseIsDropped(a: seq<string>, t: string, c: seq<string>)
    requires AllTokens(a + [t] + c) && AllTokens(a + c) && t in NOISE
    ensures NormType(Join(a + [t] + c, " ")) == NormType(Join(a + c, " "))
  {
    TokensOfText(a + [t] + c);
    TokensOfText(a + c);
    CanonicalOne(a, t, c);
    CanonicalAppend(a, c);
    assert Canonical(a) + [] == Canonical(a);
  }

  /** A typedef upstream spells a type through reads as the name a caller writes. */
  lemma AliasReadsAsName(a: seq<string>, t: string, c: seq<string>)
    requires AllTokens(a + [t] + c) && t in ALIAS && t !in NOISE && AllTokens(a + [ALIAS[t]] + c)
    requires ALIAS[t] !in NOISE && ALIAS[t] !in ALIAS
    ensures NormType(Join(a + [t] + c, " ")) == NormType(Join(a + [ALIAS[t]] + c, " "))
  {
    TokensOfText(a + [t] + c);
    TokensOfText(a + [ALIAS[t]] + c);
    CanonicalOne(a, t, c);
    CanonicalOne(a, ALIAS[t], c);
  }

  // ---- Parameters

  /** `[...]` as the last thing in a parameter. */
  predicate ArraySuffix(s: string) {
    |s| >= 2 && s[0] == '[' && FirstAt(s, ']', 1) == |s| - 1
  }

  /** What is left of `s` behind its leading word and the spaces after it. */
  function AfterWord(s: string): string { StripLeft(s[WordRun(s)..], SPACES) }

  /** A name, perhaps with an array suffix, and nothing else. */
  predicate NameTail(s: string) {
    s != "" && WordStart(s[0]) && (AfterWord(s) == "" || ArraySuffix(AfterWord(s)))
  }

  /** Where the parameter's name starts: the first place, on its first line, a name tail does. */
  function NameStart(a: string, p: nat): Option<nat>
    requires p <= |a|
    decreases |a| - p
  {
    if NameTail(a[p..]) then Some(p)
    else if p == |a| || a[p] == '\n' then None
    else NameStart(a, p + 1)
  }

  function TypePart(a: string): string {
    match NameStart(a, 0)
    case None => a
    case Some(p) => if p <= |a| && Strip(a[..p]) != "" then a[..p] + AfterWord(a[p..]) else a
  }

  function ParamType(a: string): string { NormType(TypePart(Strip(a))) }

  function ParamTypes(parts: seq<string>): seq<string> {
    seq(|parts|, i requires 0 <= i < |parts| => ParamType(parts[i]))
  }

  function SplitParams(p: string): seq<string> {
    if Strip(p) == "" || Strip(p) == "void" then [] else ParamTypes(Pieces(Strip(p), PARENS))
  }

  /** An empty list and the word `void` declare no parameters, whatever space is around them. */
  lemma NoParameters(before: string, after: string)
    requires (forall c <- before :: c in SPACES) && (forall c <- after :: c in SPACES)
    ensures SplitParams(before + "void" + after) == [] && SplitParams(before) == []
  {
    assert Trim("void", SPACES);
    StripPadding(before, "void", after, SPACES);
    OnlySpace(before);
  }

  lemma {:induction false} OnlySpace(s: string)
    requires forall c <- s :: c in SPACES
    ensures Strip(s) == ""
  {
    if s != "" {
      OnlySpace(s[1..]);
      assert StripLeft(s, SPACES) == StripLeft(s[1..], SPACES);
    }
  }

  /** A parameter that is a single word is a type without a name. */
  lemma UnnamedParameter(word: string)
    requires Identifier(word)
    ensures ParamType(word) == NormType(word)
  {
    WordRunIs(word, "");
    assert word + "" == word && word[|word|..] == "";
    assert word[0] !in SPACES && word[|word| - 1] !in SPACES;
    StripNothing(word, SPACES);
    assert word[0..] == word && NameTail(word[0..]);
    assert NameStart(word, 0) == Some(0);
  }

  method ReadParams(p: string) returns (out: seq<string>)
    ensures out == SplitParams(p)
  {
    var text := Strip(p);
    if text == "" || text == "void" {
      return [];
    }
    var parts := SplitParts(text);
    out := [];
    for i := 0 to |parts|
      invariant out == ParamTypes(parts)[..i]
    {
      out := out + [ParamType(parts[i])];
    }
    assert ParamTypes(parts)[..|parts|] == ParamTypes(parts);
  }

  method SplitParts(text: string) returns (parts: seq<string>)
    ensures parts == Pieces(text, PARENS)
  {
    var depth, cur := 0, "";
    parts := [];
    for i := 0 to |text|
      invariant parts + [cur] == Pieces(text[..i], PARENS)
      invariant depth == Net(text[..i], PARENS)
    {
      var ch := text[i];
      assert text[..i + 1] == text[..i] + [ch];
      PiecesSnoc(text[..i], ch, PARENS);
      NetSnoc(text[..i], ch, PARENS);
      depth := depth + (if ch == '(' then 1 else 0) - (if ch == ')' then 1 else 0);
      if ch == ',' && depth == 0 {
        parts := parts + [cur];
        cur := "";
      } else {
        ExtendAfter(parts, [cur], ch);
        cur := cur + [ch];
      }
    }
    assert text[..|text|] == text;
    parts := parts + [cur];
  }

  // ---- A declared parameter list is read back as its types

  /** One parameter: its type's text, its name, and an array suffix or nothing. `pad` is the space before it. */
  datatype Declared = Declared(pad: string, ty: string, name: string, suffix: string)

  function Body(d: Declared): string { d.ty + d.name + d.suffix }

  function TextOf(d: Declared): string { d.pad + Body(d) }

  /** The type ends in front of a word, on one line, and holds no bracket. */
  predicate WellDeclared(d: Declared) {
    && (forall i | 0 <= i < |d.pad| :: d.pad[i] in SPACES)
    && d.ty != "" && d.ty[0] !in SPACES && !WordChar(d.ty[|d.ty| - 1])
    && (forall i | 0 <= i < |d.ty| :: d.ty[i] != '\n' && d.ty[i] != '[')
    && Identifier(d.name)
    && (d.suffix == "" || ArraySuffix(d.suffix))
  }

  lemma {:induction false} StripLeftStops(x: string, y: string)
    requires y != "" && y[0] !in SPACES && y[0] != '[' && forall i | 0 <= i < |x| :: x[i] != '['
    ensures StripLeft(x + y, SPACES) != "" && StripLeft(x + y, SPACES)[0] != '['
  {
    if x == "" {
      assert x + y == y;
    } else {
      assert (x + y)[1..] == x[1..] + y;
      StripLeftStops(x[1..], y);
    }
  }

  lemma NoNameTail(t: string, y: string)
    requires t != "" && !WordChar(t[|t| - 1]) && (forall i | 0 <= i < |t| :: t[i] != '[')
    requires y != "" && WordStart(y[0])
    ensures !NameTail(t + y)
  {
    var s := t + y;
    var n := WordRun(s);
    assert s[|t| - 1] == t[|t| - 1];
    assert n < |t|;
    assert s[n..] == t[n..] + y;
    StripLeftStops(t[n..], y);
  }

  lemma NoNameInsideType(d: Declared, p: nat)
    requires WellDeclared(d) && p < |d.ty|
    ensures !NameTail(Body(d)[p..])
  {
    var t, y := d.ty[p..], d.name + d.suffix;
    Assoc(d.ty, d.name, d.suffix);
    assert (d.ty + y)[p..] == t + y;
    NoNameTail(t, y);
  }

  lemma NameTailAtName(d: Declared)
    requires WellDeclared(d)
    ensures Body(d)[|d.ty|..] == d.name + d.suffix
    ensures NameTail(d.name + d.suffix) && AfterWord(d.name + d.suffix) == d.suffix
  {
    var s := d.name + d.suffix;
    assert forall i | 0 <= i < |d.name| :: s[i] == d.name[i];
    assert d.suffix != "" ==> s[|d.name|] == '[';
    assert WordRun(s) == |d.name|;
    assert s[|d.name|..] == d.suffix;
  }

  lemma {:induction false} NameStartFound(d: Declared, p: nat)
    requires WellDeclared(d) && p <= |d.ty|
    ensures NameStart(Body(d), p) == Some(|d.ty|)
    decreases |d.ty| - p
  {
    if p == |d.ty| {
      NameTailAtName(d);
    } else {
      NoNameInsideType(d, p);
      assert Body(d)[p] == d.ty[p];
      NameStartFound(d, p + 1);
    }
  }

  lemma {:induction false} StripNonblank(s: string)
    requires s != "" && s[0] !in SPACES
    ensures Strip(s) != ""
  {
    assert StripLeft(s, SPACES) == s;
    StripRightKeepsHead(s);
  }

  lemma {:induction false} StripRightKeepsHead(s: string)
    requires s != "" && s[0] !in SPACES
    ensures StripRight(s, SPACES) != ""
  {
    if s[|s| - 1] in SPACES {
      StripRightKeepsHead(s[..|s| - 1]);
    }
  }

  lemma BodyTrim(d: Declared)
    requires WellDeclared(d)
    ensures Trim(Body(d), SPACES)
  {
    var b := Body(d);
    assert b[0] == d.ty[0];
    if d.suffix == "" {
      assert b[|b| - 1] == d.name[|d.name| - 1];
    } else {
      assert b[|b| - 1] == d.suffix[|d.suffix| - 1];
    }
  }

  /** A parameter's name is dropped and its type, with any array suffix, kept. */
  lemma NameIsDropped(d: Declared)
    requires WellDeclared(d)
    ensures ParamType(TextOf(d)) == NormType(d.ty + d.suffix)
  {
    BodyTrim(d);
    StripPadding(d.pad, Body(d), "", SPACES);
    assert d.pad + Body(d) + "" == TextOf(d);
    NameStartFound(d, 0);
    assert Body(d)[..|d.ty|] == d.ty;
    StripNonblank(d.ty);
    NameTailAtName(d);
  }

  function Texts(ds: seq<Declared>): seq<string> {
    seq(|ds|, i requires 0 <= i < |ds| => TextOf(ds[i]))
  }

  function Types(ds: seq<Declared>): seq<string> {
    seq(|ds|, i requires 0 <= i < |ds| => NormType(ds[i].ty + ds[i].suffix))
  }

  predicate AllWellDeclared(ds: seq<Declared>) {
    forall i | 0 <= i < |ds| :: WellDeclared(ds[i])
  }

  lemma ParamTypesOfTexts(ds: seq<Declared>)
    requires AllWellDeclared(ds)
    ensures ParamTypes(Texts(ds)) == Types(ds)
  {
    forall i | 0 <= i < |ds| ensures ParamTypes(Texts(ds))[i] == Types(ds)[i] { NameIsDropped(ds[i]); }
  }

  lemma LastOfAppend(a: string, b: string)
    requires b != ""
    ensures (a + b)[|a + b| - 1] == b[|b| - 1]
  {
  }

  lemma {:induction false} JoinEnds(parts: seq<string>)
    requires parts != [] && forall i | 0 <= i < |parts| :: parts[i] != ""
    ensures var s := Join(parts, ",");
            s != "" && s[0] == parts[0][0] && s[|s| - 1] == parts[|parts| - 1][|parts[|parts| - 1]| - 1]
  {
    if |parts| > 1 {
      JoinEnds(parts[1..]);
      LastOfAppend(parts[0] + ",", Join(parts[1..], ","));
    }
  }

  /** The text of a parameter, behind its padding, starts and ends with something to keep. */
  lemma TextEnds(d: Declared)
    requires WellDeclared(d)
    ensures TextOf(d) != "" && TextOf(d)[|TextOf(d)| - 1] !in SPACES
    ensures d.pad == "" ==> TextOf(d)[0] !in SPACES
  {
    BodyTrim(d);
    assert TextOf(d)[|TextOf(d)| - 1] == Body(d)[|Body(d)| - 1];
    assert d.pad == "" ==> TextOf(d) == Body(d);
  }

  lemma JoinedTextIsTrim(ds: seq<Declared>)
    requires ds != [] && ds[0].pad == "" && AllWellDeclared(ds)
    ensures Trim(Join(Texts(ds), ","), SPACES)
  {
    forall i | 0 <= i < |ds| ensures Texts(ds)[i] != "" { TextEnds(ds[i]); }
    JoinEnds(Texts(ds));
    TextEnds(ds[0]);
    TextEnds(ds[|ds| - 1]);
  }

  /** A declared list is not the word `void`, which has no name after its type. */
  lemma NotVoid(ds: seq<Declared>)
    requires ds != [] && ds[0].pad == "" && WellDeclared(ds[0])
    ensures Join(Texts(ds), ",") != "void"
  {
    var p, d := Join(Texts(ds), ","), ds[0];
    var k := |d.ty| - 1;
    assert Texts(ds)[0] == d.pad + (d.ty + d.name + d.suffix);
    assert k < |p| && p[k] == d.ty[k] && !WordChar(p[k]);
    var v := "void";
    assert forall i | 0 <= i < |v| :: WordChar(v[i]);
  }

  /** Reading a comma-separated list of declared parameters gives exactly their types, in order. */
  lemma ParametersAreRead(ds: seq<Declared>)
    requires ds != [] && ds[0].pad == "" && AllWellDeclared(ds) && Separable(Texts(ds), PARENS)
    ensures SplitParams(Join(Texts(ds), ",")) == Types(ds)
  {
    var p := Join(Texts(ds), ",");
    JoinedTextIsTrim(ds);
    StripNothing(p, SPACES);
    PiecesOfJoin(Texts(ds), PARENS);
    NotVoid(ds);
    ParamTypesOfTexts(ds);
  }

  /** An array parameter has the type of a pointer. */
  lemma ArrayIsPointer(ty: string, suffix: string)
    requires '[' !in ty && ArraySuffix(suffix)
    ensures NormType(ty + suffix) == NormType(ty + "*")
  {
    NoArrays(ty, suffix);
    NoArrays(ty, "*");
    assert FirstAt(suffix, ']', 0) == |suffix| - 1;
    assert suffix[|suffix|..] == "";
    assert "*"[1..] == "";
    assert ArraysToStars(suffix) == "*" + ArraysToStars("");
    assert ArraysToStars("*") == "*" + ArraysToStars("");
  }
}
