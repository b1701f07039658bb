/** The line reader of `nros-platform.toml` (`parse_platform_file`). */
module PlatformFileReader {
  import opened Text
  import opened ArchProfiles

  // ------------------------------------------------------------- lexical helpers

  /** A line without its `#` comment and surrounding space. */
  function Clean(raw: string): string {
    if "#" <= Strip(raw) then "" else Strip(Before(raw, "#"))
  }

  function NextQuote(s: string): (n: nat)
    ensures n <= |s| && '"' !in s[..n]
    ensures n < |s| ==> s[n] == '"'
  {
    if s == "" || s[0] == '"' then 0 else
      assert s[..1 + NextQuote(s[1..])] == [s[0]] + s[1..][..NextQuote(s[1..])];
      1 + NextQuote(s[1..])
  }

  /** The double-quoted strings of `s` holding at least `least` characters, left to right. */
  function Quoted(s: string, least: nat): seq<string> {
    if s == "" then []
    else if s[0] != '"' then Quoted(s[1..], least)
    else
      var n := NextQuote(s[1..]);
      if n >= least && n + 1 < |s| then [s[1..n + 1]] + Quoted(s[n + 2..], least)
      else Quoted(s[1..], least)
  }

  /** `key = value`, the key a bare identifier. */
  function KeyValue(line: string): Option<(string, string)> {
    if line == "" || !(Letter(line[0]) || line[0] == '_') then None else
      var n := WordRun(line);
      var rest := StripLeft(line[n..], SPACES);
      if rest != "" && rest[0] == '=' then Some((line[..n], Strip(rest[1..]))) else None
  }

  // ------------------------------------------------------------- the reader

  datatype Reader = Reader(
    section: string,             // current table path
    current: Option<string>,     // the `[arch.<name>]` block being filled
    pendingKey: Option<string>,  // a `key = [` whose array spans lines
    pending: seq<string>,
    profiles: map<string, Profile>,
    declared: seq<string>,
    inherits: bool)

  const START := Reader("", None, None, [], map[], [], false)
  const BLANK := Profile(None, None, None)
  const BRACKETS: set<char> := {'[', ']'}

  function SetCflags(r: Reader, flags: seq<string>): Reader {
    if r.current.Some? && r.current.value in r.profiles then
      r.(profiles := r.profiles[r.current.value := r.profiles[r.current.value].(cflags := Some(flags))])
    else r
  }

  function Header(r: Reader, line: string): Reader {
    var section := Strip(StripChars(line, BRACKETS));
    var r' := r.(section := section, current := None, pendingKey := None);
    if "arch." <= section then
      var name := section[5..];
      r'.(current := Some(name),
          profiles := if name in r.profiles then r.profiles else r.profiles[name := BLANK])
    else r'
  }

  function Continue(r: Reader, line: string): Reader
    requires r.pendingKey.Some?
  {
    var r' := r.(pending := r.pending + [line]);
    if ']' !in line then r' else
      var items := Quoted(Join(r'.pending, " "), 1);
      var r'' := if r.pendingKey.value == "arch" then r'.(declared := r.declared + items)
                 else SetCflags(r', items);
      r''.(pendingKey := None)
  }

  function Assign(r: Reader, key: string, value: string): Reader {
    var r' := if key == "inherits" && r.section == "" && value != "\"\"" && value != "''"
              then r.(inherits := true) else r;
    if key == "arch_profiles" && r.section == "" then
      if "[" <= value && ']' !in value then r'.(pendingKey := Some("arch"), pending := [value])
      else r'.(declared := r.declared + Quoted(value, 1))
    else if r.current.None? || r.current.value !in r.profiles then r'
    else
      var name, p := r.current.value, r.profiles[r.current.value];
      if key == "target_match" then
        var got := Quoted(value, 0);
        if got == [] then r' else r'.(profiles := r.profiles[name := p.(targetMatch := Some(got[0]))])
      else if key == "target_exclude" then
        var got := Quoted(value, 0);
        if got == [] then r' else r'.(profiles := r.profiles[name := p.(targetExclude := Some(got[0]))])
      else if key == "cflags" then
        if "[" <= value && ']' !in value then r'.(pendingKey := Some("cflags"), pending := [value])
        else SetCflags(r', Quoted(value, 1))
      else r'
  }

  function ReadLine(r: Reader, raw: string): Reader {
    var line := Clean(raw);
    if line == "" then r
    else if line[0] == '[' then Header(r, line)
    else if r.pendingKey.Some? then Continue(r, line)
    else
      var kv := KeyValue(line);
      if kv.None? then r else Assign(r, kv.value.0, kv.value.1)
  }

  /** A comment behind a line changes nothing. */
  lemma CommentIsIgnored(r: Reader, line: string, comment: string)
    requires '#' !in line
    ensures ReadLine(r, line + "#" + comment) == ReadLine(r, line)
  {
    CleanComment(line, comment);
  }

  lemma CleanComment(line: string, comment: string)
    requires '#' !in line
    ensures Clean(line + "#" + comment) == Strip(line) == Clean(line)
  {
    Assoc(line, "#", comment);
    BeforeFirst(line, "#" + comment, '#');
    BeforeAbsent(line, '#');
    StripKeeps(line);
    if "#" <= Strip(line + "#" + comment) {
      CommentFirst(line, "#" + comment);
    }
  }

  /** Stripping adds no character. */
  lemma {:induction false} StripLeftKeeps(s: string)
    ensures forall c <- StripLeft(s, SPACES) :: c in s
  {
    if s != "" && s[0] in SPACES {
      StripLeftKeeps(s[1..]);
    }
  }

  lemma {:induction false} StripRightKeeps(s: string)
    ensures forall c <- StripRight(s, SPACES) :: c in s
  {
    if s != "" && s[|s| - 1] in SPACES {
      StripRightKeeps(s[..|s| - 1]);
    }
  }

  lemma StripKeeps(s: string)
    ensures forall c <- Strip(s) :: c in s
  {
    StripLeftKeeps(s);
    StripRightKeeps(StripLeft(s, SPACES));
  }

  lemma {:induction false} StripRightStarts(s: string)
    ensures StripRight(s, SPACES) <= s
  {
    if s != "" && s[|s| - 1] in SPACES {
      StripRightStarts(s[..|s| - 1]);
    }
  }

  /** A line whose first character that counts is a comment's has nothing else in front of the comment. */
  lemma CommentFirst(line: string, rest: string)
    requires '#' !in line && "#" <= Strip(line + rest)
    ensures Strip(line) == ""
  {
    StripRightStarts(StripLeft(line + rest, SPACES));
    BlankFront(line, rest);
  }

  lemma {:induction false} BlankFront(line: string, rest: string)
    requires '#' !in line && "#" <= StripLeft(line + rest, SPACES)
    ensures StripLeft(line, SPACES) == ""
  {
    if line != "" {
      assert (line + rest)[0] == line[0] && (line + rest)[1..] == line[1..] + rest;
      BlankFront(line[1..], rest);
    }
  }

  function ReadLines(r: Reader, lines: seq<string>): Reader
    decreases lines
  {
    if lines == [] then r else ReadLines(ReadLine(r, lines[0]), lines[1..])
  }

  lemma {:induction false} ReadLinesAppend(r: Reader, a: seq<string>, b: seq<string>)
    ensures ReadLines(r, a + b) == ReadLines(ReadLines(r, a), b)
    decreases a
  {
    if a == [] {
      assert a + b == b;
    } else {
      assert (a + b)[1..] == a[1..] + b;
      ReadLinesAppend(ReadLine(r, a[0]), a[1..], b);
    }
  }

  method ParsePlatformFile(lines: seq<string>)
    returns (profiles: map<string, Profile>, declared: seq<string>, inherits: bool)
    ensures var r := ReadLines(START, lines);
            profiles == r.profiles && declared == r.declared && inherits == r.inherits
  {
    var section: string, current: Option<string> := "", None;
    var pendingKey: Option<string>, pending: seq<string> := None, [];
    profiles, declared, inherits := map[], [], false;
    for i := 0 to |lines|
      invariant Reader(section, current, pendingKey, pending, profiles, declared, inherits)
                == ReadLines(START, lines[..i])
      invariant current.Some? ==> current.value in profiles
    {
      ghost var r := ReadLines(START, lines[..i]);
      ReadLinesAppend(START, lines[..i], [lines[i]]);
      assert lines[..i + 1] == lines[..i] + [lines[i]];
      assert ReadLines(START, lines[..i + 1]) == ReadLine(r, lines[i]);
      var line := Clean(lines[i]);
      if line == "" {
        continue;
      }
      if line[0] == '[' {
        section := Strip(StripChars(line, BRACKETS));
        current := None;
        pendingKey := None;
        if "arch." <= section {
          current := Some(section[5..]);
          if section[5..] !in profiles {
            profiles := profiles[section[5..] := BLANK];
          }
        }
        continue;
      }
      if pendingKey.Some? {
        pending := pending + [line];
        if ']' in line {
          var items := Quoted(Join(pending, " "), 1);
          if pendingKey.value == "arch" {
            declared := declared + items;
          } else if current.Some? {
            profiles := profiles[current.value := profiles[current.value].(cflags := Some(items))];
          }
          pendingKey := None;
        }
        continue;
      }
      var kv := KeyValue(line);
      if kv.None? {
        continue;
      }
      var (key, value) := kv.value;
      if key == "inherits" && section == "" && value != "\"\"" && value != "''" {
        inherits := true;
      }
      if key == "arch_profiles" && section == "" {
        if "[" <= value && ']' !in value {
          pendingKey, pending := Some("arch"), [value];
        } else {
          declared := declared + Quoted(value, 1);
        }
        continue;
      }
      if current.None? {
        continue;
      }
      var p := profiles[current.value];
      if key == "target_match" || key == "target_exclude" {
        var got := Quoted(value, 0);
        if got != [] {
          profiles := profiles[current.value :=
            if key == "target_match" then p.(targetMatch := Some(got[0])) else p.(targetExclude := Some(got[0]))];
        }
      } else if key == "cflags" {
        if "[" <= value && ']' !in value {
          pendingKey, pending := Some("cflags"), [value];
        } else {
          profiles := profiles[current.value := p.(cflags := Some(Quoted(value, 1)))];
        }
      }
    }
    assert lines[..|lines|] == lines;
  }
}
