/**
 * The GUI's copy of the CMake converter (`gui/src-tauri/src/cmake_converter.rs`).
 * It shares the command-line converter's shape but differs in detail: a
 * backslash escapes only inside a quoted string, empty argument lists are
 * dropped, variables are substituted in one pass with defaults for a few
 * well-known names, comments are stripped line by line before anything is
 * parsed, and the emitted targets are not filtered as strictly.
 */
module CmakeGui {
  import opened Wrappers
  import Strings
  import Seqs
  import Paths
  import Config
  import CmakeLex
  import CmakeCli

  // ---------------------------------------------------------------------------
  // extract_command
  // ---------------------------------------------------------------------------

  /** The argument lists that are not empty, in order. */
  function NonEmpty(ls: seq<seq<string>>): (r: seq<seq<string>>)
    ensures |r| <= |ls|
    ensures forall x :: x in r <==> x in ls && |x| > 0
    decreases |ls|
  {
    if |ls| == 0 then []
    else
      assert forall x :: x in ls <==> x == ls[0] || x in ls[1..] by {
        assert ls == [ls[0]] + ls[1..];
      }
      if |ls[0]| > 0 then [ls[0]] + NonEmpty(ls[1..]) else NonEmpty(ls[1..])
  }

  /** `args` are the arguments between some start in `starts` and the `)` that closes it. */
  ghost predicate ArgumentsOf(content: string, starts: seq<nat>, args: seq<string>) {
    exists a: nat, e: nat ::
      && a in starts && a <= e < |content|
      && CmakeLex.FindClose(CmakeLex.EscapeInQuotes, content, a) == Some(e)
      && args == CmakeLex.ParseArgs(CmakeLex.DropBlank, content[a..e])
  }

  function AllArguments(content: string, spans: seq<(nat, nat)>): (r: seq<seq<string>>)
    requires forall j :: 0 <= j < |spans| ==> spans[j].0 <= spans[j].1 <= |content|
    ensures |r| == |spans|
  {
    seq(|spans|, j requires 0 <= j < |spans| => CmakeLex.ParseArgs(CmakeLex.DropBlank, content[spans[j].0..spans[j].1]))
  }

  /**
   * `extract_command`: for each occurrence of the command the arguments up
   * to the matching `)`, where a backslash escapes only inside a quoted
   * string; occurrences without arguments are dropped.
   */
  function ExtractCommand(content: string, starts: seq<nat>): (r: seq<seq<string>>)
    requires forall i :: 0 <= i < |starts| ==> starts[i] <= |content|
    ensures |r| <= |starts|
    ensures forall j :: 0 <= j < |r| ==> |r[j]| > 0 && ArgumentsOf(content, starts, r[j])
  {
    var spans := CmakeLex.Spans(CmakeLex.EscapeInQuotes, content, starts);
    var r := NonEmpty(AllArguments(content, spans));
    ExtractedArguments(content, starts, spans, r);
    r
  }

  /** Every argument list kept comes from a closed command. */
  lemma ExtractedArguments(content: string, starts: seq<nat>, spans: seq<(nat, nat)>, r: seq<seq<string>>)
    requires forall i :: 0 <= i < |starts| ==> starts[i] <= |content|
    requires spans == CmakeLex.Spans(CmakeLex.EscapeInQuotes, content, starts)
    requires r == NonEmpty(AllArguments(content, spans))
    ensures forall j :: 0 <= j < |r| ==> |r[j]| > 0 && ArgumentsOf(content, starts, r[j])
  {
    var all := AllArguments(content, spans);
    forall k | 0 <= k < |r| ensures |r[k]| > 0 && ArgumentsOf(content, starts, r[k]) {
      var x := r[k];
      assert x in r;
      var j :| 0 <= j < |all| && all[j] == x;
      var a, e := spans[j].0, spans[j].1;
      assert a in starts && a <= e < |content|;
      assert x == CmakeLex.ParseArgs(CmakeLex.DropBlank, content[a..e]);
    }
  }

  /**
   * On text without backslashes the two converters extract the same
   * argument lists, except that this one drops the empty ones.
   */
  lemma ConvertersExtractAlike(content: string, starts: seq<nat>)
    requires forall i :: 0 <= i < |starts| ==> starts[i] <= |content|
    requires '\\' !in content
    ensures ExtractCommand(content, starts) == NonEmpty(CmakeCli.ExtractCommand(content, starts))
  {
    CmakeLex.SpansAgreeWithoutBackslash(content, starts);
    var spans := CmakeLex.Spans(CmakeLex.EscapeInQuotes, content, starts);
    var cli := CmakeCli.ExtractCommand(content, starts);
    var gui := AllArguments(content, spans);
    assert |cli| == |gui|;
    forall j | 0 <= j < |gui| ensures cli[j] == gui[j] {
      CmakeLex.TokenizersAgree(content[spans[j].0..spans[j].1]);
    }
    assert cli == gui;
  }

  // ---------------------------------------------------------------------------
  // normalize_include_path
  // ---------------------------------------------------------------------------

  /**
   * `normalize_include_path`: a path not already under the CMake directory
   * is joined onto it, then the components are resolved (`..` pops, `.`,
   * empty and root components vanish) and joined with `/`, `.` when none
   * are left.
   */
  function NormalizeIncludePath(path: string, dir: string): (r: string)
    ensures r != ""
    ensures r == "." || forall i :: 0 <= i < |Strings.Split(r, Paths.Sep)| ==> Paths.IsNormalSegment(Strings.Split(r, Paths.Sep)[i])
  {
    Paths.Normalize(if Strings.StartsWith(path, dir) then path else Paths.Join(dir, path))
  }

  /** A normalised include path is its own normal form, so normalising it again under `.` changes nothing. */
  lemma NormalizeIncludePathIdempotent(path: string, dir: string)
    ensures var p := NormalizeIncludePath(path, dir);
      Paths.Normalize(p) == p
  {
    var full := if Strings.StartsWith(path, dir) then path else Paths.Join(dir, path);
    Paths.NormalizeIdempotent(full);
  }

  /** A path already under the CMake directory is only normalised, never joined again. */
  lemma PrefixedPathNotJoined(dir: string, rest: string)
    ensures NormalizeIncludePath(dir + rest, dir) == Paths.Normalize(dir + rest)
  {
    assert (dir + rest)[..|dir|] == dir;
  }

  // ---------------------------------------------------------------------------
  // resolve_variable
  // ---------------------------------------------------------------------------

  /** The value an undefined well-known variable stands for. */
  function DefaultValue(name: string): (r: Option<string>)
    ensures r.Some? <==> name in {"CMAKE_CURRENT_SOURCE_DIR", "CMAKE_SOURCE_DIR", "PROJECT_SOURCE_DIR",
      "CMAKE_CURRENT_BINARY_DIR", "CMAKE_BINARY_DIR", "PROJECT_BINARY_DIR", "CMAKE_MODULE_PATH"}
  {
    if name == "CMAKE_CURRENT_SOURCE_DIR" || name == "CMAKE_SOURCE_DIR" || name == "PROJECT_SOURCE_DIR" then Some(".")
    else if name == "CMAKE_CURRENT_BINARY_DIR" || name == "CMAKE_BINARY_DIR" || name == "PROJECT_BINARY_DIR" then Some("build")
    else if name == "CMAKE_MODULE_PATH" then Some("cmake")
    else None
  }

  /** What `${name}` is replaced by: its definition, else its default, else nothing. */
  function Substitution(name: string, vars: map<string, string>): (r: Option<string>)
    ensures name in vars ==> r == Some(vars[name])
    ensures name !in vars ==> r == DefaultValue(name)
  {
    if name in vars then Some(vars[name]) else DefaultValue(name)
  }

  /** The reference text `${name}`. */
  function Reference(name: string): (r: string)
    ensures |r| == |name| + 3
  {
    CmakeLex.VarOpen + name + "}"
  }

  /** Replaces, in `result`, every reference found in the original `value`, one match after another. */
  function SubstituteMatches(result: string, value: string, ms: seq<(nat, nat)>, vars: map<string, string>): (r: string)
    requires CmakeLex.ValidMatches(value, ms, CmakeLex.VarOpen)
    ensures |ms| == 0 ==> r == result
    decreases |ms|
  {
    if |ms| == 0 then result
    else
      var name := CmakeLex.MatchName(value, ms[0], CmakeLex.VarOpen);
      var next := match Substitution(name, vars)
        case Some(v) => Strings.ReplaceAll(result, Reference(name), v)
        case None => result;
      SubstituteMatches(next, value, ms[1..], vars)
  }

  /**
   * `resolve_variable`: one pass over the references of the original value;
   * each defined or well-known name has every occurrence of its reference
   * replaced in the text as it stands after the earlier replacements, so a
   * reference that an earlier value brought in is replaced too when its name
   * is matched later. A value without references is returned as it is.
   */
  function ResolveVariable(value: string, vars: map<string, string>): (r: string)
    ensures CmakeLex.Matches(value, 0, CmakeLex.VarOpen) == [] ==> r == value
  {
    SubstituteMatches(value, value, CmakeLex.Matches(value, 0, CmakeLex.VarOpen), vars)
  }

  /** Text without a `$` has no reference and is returned as it is. */
  lemma NoDollarUnchanged(value: string, vars: map<string, string>)
    requires '$' !in value
    ensures ResolveVariable(value, vars) == value
  {
    CmakeLex.NoDollarNoMatches(value, 0, CmakeLex.VarOpen);
  }

  /**
   * A lone reference becomes its definition or default, exactly as given,
   * even when that text holds references itself; an unknown name stays.
   */
  lemma SingleReferenceResolved(name: string, vars: map<string, string>)
    requires |name| > 0 && '}' !in name
    ensures ResolveVariable(Reference(name), vars) ==
      match Substitution(name, vars)
      case Some(v) => v
      case None => Reference(name)
  {
    var s := Reference(name);
    CmakeLex.SingleReference(name);
    var ms := CmakeLex.Matches(s, 0, CmakeLex.VarOpen);
    assert ms == [(0, |s|)];
    assert CmakeLex.MatchName(s, ms[0], CmakeLex.VarOpen) == name;
    match Substitution(name, vars)
    case Some(v) =>
      CmakeLex.ReplaceWhole(s, v);
      assert SubstituteMatches(s, s, ms, vars) == SubstituteMatches(v, s, ms[1..], vars);
    case None =>
      assert SubstituteMatches(s, s, ms, vars) == SubstituteMatches(s, s, ms[1..], vars);
  }

  /** The two references of `${A}${B}`. */
  lemma ExampleMatches()
    ensures var s := "${A}${B}";
      var ms := CmakeLex.Matches(s, 0, CmakeLex.VarOpen);
      && ms == [(0, 4), (4, 8)]
      && CmakeLex.MatchName(s, ms[0], CmakeLex.VarOpen) == "A"
      && CmakeLex.MatchName(s, ms[1], CmakeLex.VarOpen) == "B"
  {
    var s := "${A}${B}";
    var open := CmakeLex.VarOpen;
    assert s[0..2] == open && s[4..6] == open;
    assert CmakeLex.CloseBrace(s, 2) == Some(3);
    assert CmakeLex.MatchAt(s, 0, open) == Some(4);
    assert CmakeLex.CloseBrace(s, 6) == Some(7);
    assert CmakeLex.MatchAt(s, 4, open) == Some(8);
    assert CmakeLex.Matches(s, 8, open) == [];
    assert s[2..3] == "A" && s[6..7] == "B";
  }

  /** Replacing `${A}` by `${B}` in `${A}${B}`, then `${B}` by `x`. */
  lemma ExampleReplacements()
    ensures Strings.ReplaceAll("${A}${B}", Reference("A"), "${B}") == "${B}${B}"
    ensures Strings.ReplaceAll("${B}" + "${B}", Reference("B"), "x") == "x" + "x"
  {
    var s := "${A}${B}";
    assert Reference("A") == "${A}" && Reference("B") == "${B}";
    assert Strings.StartsWith(s, "${A}");
    var rest := s[4..];
    assert rest == "${B}";
    assert !Strings.Contains(rest, "${A}") by {
      assert !Strings.Contains(rest[4..], "${A}");
      assert !Strings.Contains(rest[3..], "${A}") by { assert rest[3..][1..] == rest[4..]; }
      assert !Strings.Contains(rest[2..], "${A}") by { assert rest[2..][1..] == rest[3..]; }
      assert !Strings.Contains(rest[1..], "${A}") by { assert rest[1..][1..] == rest[2..]; }
      assert rest[2] != "${A}"[2];
    }
    ReplaceTwice("${B}", "x");
  }

  /** A text made of two copies of a pattern becomes two copies of the replacement. */
  lemma ReplaceTwice(p: string, v: string)
    requires |p| > 0
    ensures Strings.ReplaceAll(p + p, p, v) == v + v
  {
    assert Strings.StartsWith(p + p, p);
    assert (p + p)[|p|..] == p;
    CmakeLex.ReplaceWhole(p, v);
  }

  /**
   * Text substituted in is searched by the later replacements: with `A`
   * defined as `${B}` and `B` as `x`, `${A}${B}` becomes `xx`.
   */
  lemma SubstitutedTextReplacedAgain()
    ensures ResolveVariable("${A}${B}", map["A" := "${B}", "B" := "x"]) == "xx"
  {
    var s := "${A}${B}";
    var vars := map["A" := "${B}", "B" := "x"];
    ExampleMatches();
    ExampleReplacements();
    var ms := CmakeLex.Matches(s, 0, CmakeLex.VarOpen);
    assert SubstituteMatches(s, s, ms, vars) == SubstituteMatches("${B}${B}", s, ms[1..], vars);
    assert SubstituteMatches("${B}${B}", s, ms[1..], vars) == SubstituteMatches("xx", s, ms[2..], vars);
  }

  /** A reference to an unknown name is left as it is. */
  lemma UnknownReferenceKept(name: string, vars: map<string, string>)
    requires |name| > 0 && '}' !in name
    requires name !in vars && DefaultValue(name).None?
    ensures ResolveVariable(Reference(name), vars) == Reference(name)
  {
    SingleReferenceResolved(name, vars);
  }

  /** The variables every CMakeLists.txt starts with: both source-directory names point at its directory. */
  function InitialVariables(dir: string): (r: map<string, string>)
    ensures r.Keys == {"PROJECT_SOURCE_DIR", "CMAKE_CURRENT_SOURCE_DIR"}
  {
    map["PROJECT_SOURCE_DIR" := dir, "CMAKE_CURRENT_SOURCE_DIR" := dir]
  }

  /** With the initial variables, `${PROJECT_SOURCE_DIR}` is the file's own directory, not the default `.`. */
  lemma ProjectSourceDirResolved(dir: string)
    ensures ResolveVariable(Reference("PROJECT_SOURCE_DIR"), InitialVariables(dir)) == dir
  {
    SingleReferenceResolved("PROJECT_SOURCE_DIR", InitialVariables(dir));
  }

  // ---------------------------------------------------------------------------
  // Comment stripping
  // ---------------------------------------------------------------------------

  /** Length of the first line of `s`: the index of its first `\n`, or `|s|`. */
  function LineLength(s: string): (n: nat)
    ensures n <= |s|
    ensures '\n' !in s[..n]
    ensures n < |s| ==> s[n] == '\n'
    decreases |s|
  {
    if |s| == 0 || s[0] == '\n' then 0
    else
      var n := 1 + LineLength(s[1..]);
      assert s[..n] == [s[0]] + s[1..][..n - 1];
      n
  }

  /** A line ended by `\n` loses one `\r` before it. */
  function StripCarriageReturn(line: string): (r: string)
    ensures '\r' !in line ==> r == line
  {
    if |line| > 0 && line[|line| - 1] == '\r' then line[..|line| - 1] else line
  }

  /** A line cut at its first `#`. */
  function BeforeHash(line: string): (r: string)
    ensures |r| <= |line| && line[..|r|] == r
    ensures '#' !in r
    ensures |r| < |line| ==> line[|r|] == '#'
    decreases |line|
  {
    if |line| == 0 || line[0] == '#' then ""
    else
      var rest := BeforeHash(line[1..]);
      assert ([line[0]] + rest)[1..] == rest;
      [line[0]] + rest
  }

  /** A line with no `#` is kept whole. */
  lemma BeforeHashNoHash(line: string)
    requires '#' !in line
    ensures BeforeHash(line) == line
  {
  }

  /**
   * The text commands are extracted from: the lines of the content as Rust's
   * `str::lines` yields them (split at `\n`, one `\r` before a `\n`
   * dropped, no empty piece after a final `\n`), each cut at its first `#`,
   * joined again with `\n`.
   */
  function StripComments(content: string): (r: string)
    ensures '#' !in r
    decreases |content|
  {
    if |content| == 0 then ""
    else
      var n := LineLength(content);
      if n == |content| then BeforeHash(content)
      else
        var line := BeforeHash(StripCarriageReturn(content[..n]));
        if n + 1 == |content| then line
        else line + "\n" + StripComments(content[n + 1..])
  }

  /** A single line is cut at its first `#`. */
  lemma OneLineStripped(line: string)
    requires '\n' !in line
    ensures StripComments(line) == BeforeHash(line)
  {
    if |line| != 0 {
      assert LineLength(line) == |line|;
    }
  }

  /** A `\r\n` line ending is read as `\n`: the carriage return never reaches the commands. */
  lemma CrLfReadAsLf(line: string, rest: string)
    requires '\n' !in line && '\r' !in line && |rest| > 0
    ensures StripComments(line + "\r\n" + rest) == StripComments(line + "\n" + rest)
  {
    var cr := line + "\r";
    assert '\n' !in cr;
    assert line + "\r\n" + rest == cr + "\n" + rest;
    FirstLine(cr, rest);
    FirstLine(line, rest);
    assert StripCarriageReturn(cr) == line;
  }

  /** Text that starts with a line and a `\n` strips that line first. */
  lemma FirstLine(line: string, rest: string)
    requires '\n' !in line && |rest| > 0
    ensures StripComments(line + "\n" + rest) ==
      BeforeHash(StripCarriageReturn(line)) + "\n" + StripComments(rest)
  {
    var s := line + "\n" + rest;
    LineAt(s, |line|);
    assert s[..|line|] == line;
    assert s[|line| + 1..] == rest;
  }

  /** The first line ends at the first `\n`. */
  lemma {:induction false} LineAt(s: string, n: nat)
    requires n < |s| && s[n] == '\n' && '\n' !in s[..n]
    ensures LineLength(s) == n
    decreases n
  {
    if n > 0 {
      assert s[0] == s[..n][0];
      assert s[1..][..n - 1] == s[..n][1..];
      LineAt(s[1..], n - 1);
    }
  }

  /** Text with a first line splits at its `\n`. */
  lemma SplitAtLine(content: string)
    requires LineLength(content) < |content|
    ensures var n := LineLength(content);
      content == content[..n] + "\n" + content[n + 1..]
  {
    var n := LineLength(content);
    Seqs.SplitAround(content, n);
    assert [content[n]] == "\n";
  }

  /** A character missing from a text is missing from every slice of it. */
  lemma NotInSlice(s: string, c: char, i: nat, j: nat)
    requires c !in s && i <= j <= |s|
    ensures c !in s[i..j]
  {
  }

  /** Text with no comment, no `\r` and no trailing newline passes through unchanged. */
  lemma {:induction false} NoCommentUnchanged(content: string)
    requires '#' !in content && '\r' !in content
    requires |content| == 0 || content[|content| - 1] != '\n'
    ensures StripComments(content) == content
    decreases |content|
  {
    if |content| != 0 {
      var n := LineLength(content);
      if n == |content| {
        BeforeHashNoHash(content);
      } else {
        var line := content[..n];
        var rest := content[n + 1..];
        SplitAtLine(content);
        NotInSlice(content, '#', 0, n);
        NotInSlice(content, '\r', 0, n);
        NotInSlice(content, '#', n + 1, |content|);
        NotInSlice(content, '\r', n + 1, |content|);
        BeforeHashNoHash(line);
        NoCommentUnchanged(rest);
        FirstLine(line, rest);
      }
    }
  }

  // ---------------------------------------------------------------------------
  // set()
  // ---------------------------------------------------------------------------

  /** Keywords that end a `set()` value, compared after Rust's `to_uppercase`. */
  predicate IsStopKeyword(arg: string) {
    var u := Strings.ToUpper(arg);
    u == "CACHE" || u == "INTERNAL" || u == "FORCE" || u == "PARENT_SCOPE"
  }

  /** Cache type keywords, skipped together with the argument after them. */
  predicate IsTypeKeyword(arg: string) {
    var u := Strings.ToUpper(arg);
    u == "STRING" || u == "BOOL" || u == "PATH" || u == "FILEPATH"
  }

  /** The value arguments of a `set()` after the variable name. */
  function ValueParts(args: seq<string>): (r: seq<string>)
    ensures |r| <= |args|
    ensures forall i :: 0 <= i < |r| ==> r[i] in args && !IsStopKeyword(r[i]) && !IsTypeKeyword(r[i])
    decreases |args|
  {
    if |args| == 0 || IsStopKeyword(args[0]) then []
    else if IsTypeKeyword(args[0]) then (if |args| >= 2 then ValueParts(args[2..]) else [])
    else
      var rest := ValueParts(args[1..]);
      assert forall x :: x in rest ==> x in args;
      [args[0]] + rest
  }

  /** Without keywords every argument is part of the value. */
  lemma {:induction false} PlainValueKept(args: seq<string>)
    requires forall i :: 0 <= i < |args| ==> !IsStopKeyword(args[i]) && !IsTypeKeyword(args[i])
    ensures ValueParts(args) == args
    decreases |args|
  {
    if |args| > 0 {
      PlainValueKept(args[1..]);
    }
  }

  /** Everything from a stop keyword on is ignored. */
  lemma {:induction false} StopKeywordEndsValue(before: seq<string>, stop: string, after: seq<string>)
    requires forall i :: 0 <= i < |before| ==> !IsStopKeyword(before[i]) && !IsTypeKeyword(before[i])
    requires IsStopKeyword(stop)
    ensures ValueParts(before + [stop] + after) == before
    decreases |before|
  {
    if |before| == 0 {
      assert (before + [stop] + after)[0] == stop;
    } else {
      assert (before + [stop] + after)[1..] == before[1..] + [stop] + after;
      StopKeywordEndsValue(before[1..], stop, after);
    }
  }

  /** A value word in front is kept and the rest of the arguments are read on. */
  lemma PlainWordKept(w: string, rest: seq<string>)
    requires !IsStopKeyword(w) && !IsTypeKeyword(w)
    ensures ValueParts([w] + rest) == [w] + ValueParts(rest)
  {
    assert ([w] + rest)[0] == w;
    assert ([w] + rest)[1..] == rest;
  }

  lemma TypeKeywordFirst(t: string, x: string, after: seq<string>)
    requires IsTypeKeyword(t) && !IsStopKeyword(t)
    ensures ValueParts([t, x] + after) == ValueParts(after)
  {
    var args := [t, x] + after;
    assert args[0] == t;
    assert args[2..] == after;
  }

  /**
   * A cache type keyword is dropped together with the argument after it (a
   * value word too), and the value continues after that argument.
   */
  lemma {:induction false} TypeKeywordSkipsNext(before: seq<string>, t: string, x: string, after: seq<string>)
    requires forall i :: 0 <= i < |before| ==> !IsStopKeyword(before[i]) && !IsTypeKeyword(before[i])
    requires IsTypeKeyword(t) && !IsStopKeyword(t)
    ensures ValueParts(before + ([t, x] + after)) == before + ValueParts(after)
    decreases |before|
  {
    if |before| == 0 {
      assert before + ([t, x] + after) == [t, x] + after;
      TypeKeywordFirst(t, x, after);
    } else {
      TypeKeywordSkipsNext(before[1..], t, x, after);
      PlainWordBefore(before[0], before[1..], [t, x] + after, ValueParts(after));
      assert before == [before[0]] + before[1..];
    }
  }

  /** A value word in front of arguments whose value is known extends that value. */
  lemma PlainWordBefore(w: string, b: seq<string>, more: seq<string>, v: seq<string>)
    requires !IsStopKeyword(w) && !IsTypeKeyword(w)
    requires ValueParts(b + more) == b + v
    ensures ValueParts([w] + b + more) == [w] + b + v
  {
    assert [w] + b + more == [w] + (b + more);
    PlainWordKept(w, b + more);
  }

  /** A cache type keyword in last place is dropped alone. */
  lemma {:induction false} TrailingTypeKeyword(before: seq<string>, t: string)
    requires forall i :: 0 <= i < |before| ==> !IsStopKeyword(before[i]) && !IsTypeKeyword(before[i])
    requires IsTypeKeyword(t) && !IsStopKeyword(t)
    ensures ValueParts(before + [t]) == before
    decreases |before|
  {
    var args := before + [t];
    if |before| == 0 {
      assert args == [t];
    } else {
      var tail := before[1..] + [t];
      assert args == [before[0]] + tail;
      assert forall i :: 0 <= i < |before[1..]| ==> before[1..][i] == before[i + 1];
      TrailingTypeKeyword(before[1..], t);
      assert ValueParts(tail) == before[1..];
      PlainWordKept(before[0], tail);
      assert before == [before[0]] + before[1..];
    }
  }

  /**
   * What one `set()` assigns: the first argument names the variable and the
   * value parts joined with spaces are its value. Fewer than two arguments
   * or no value parts assign nothing.
   */
  function SetCommand(args: seq<string>): (r: Option<(string, string)>)
    ensures r.Some? <==> |args| >= 2 && |ValueParts(args[1..])| > 0
    ensures r.Some? ==> r.value == (args[0], Strings.Join(ValueParts(args[1..]), " "))
  {
    if |args| >= 2 && |ValueParts(args[1..])| > 0 then Some((args[0], Strings.Join(ValueParts(args[1..]), " ")))
    else None
  }

  /** The variables after every `set()` in order. */
  function SetVariables(vars: map<string, string>, cmds: seq<seq<string>>): (r: map<string, string>)
    ensures vars.Keys <= r.Keys
    decreases |cmds|
  {
    if |cmds| == 0 then vars
    else
      var next := match SetCommand(cmds[0])
        case Some(nv) => vars[nv.0 := nv.1]
        case None => vars;
      SetVariables(next, cmds[1..])
  }

  /** A variable no `set()` assigns keeps its value. */
  lemma {:induction false} UnassignedKept(vars: map<string, string>, cmds: seq<seq<string>>, name: string)
    requires forall i :: 0 <= i < |cmds| ==> SetCommand(cmds[i]).None? || SetCommand(cmds[i]).value.0 != name
    ensures name in vars ==> name in SetVariables(vars, cmds) && SetVariables(vars, cmds)[name] == vars[name]
    ensures name !in vars ==> name !in SetVariables(vars, cmds)
    decreases |cmds|
  {
    if |cmds| > 0 {
      var next := match SetCommand(cmds[0])
        case Some(nv) => vars[nv.0 := nv.1]
        case None => vars;
      assert name in next <==> name in vars;
      assert name in vars ==> next[name] == vars[name];
      UnassignedKept(next, cmds[1..], name);
    }
  }

  /** The last `set()` that assigns a variable decides its value. */
  lemma LastAssignmentWins(vars: map<string, string>, cmds: seq<seq<string>>, last: seq<string>)
    requires SetCommand(last).Some?
    ensures var (name, value) := SetCommand(last).value;
      var r := SetVariables(vars, cmds + [last]);
      name in r && r[name] == value
  {
    SetVariablesSnoc(vars, cmds, last);
  }

  lemma {:induction false} SetVariablesSnoc(vars: map<string, string>, cmds: seq<seq<string>>, last: seq<string>)
    ensures SetVariables(vars, cmds + [last]) ==
      match SetCommand(last)
      case Some(nv) => SetVariables(vars, cmds)[nv.0 := nv.1]
      case None => SetVariables(vars, cmds)
    decreases |cmds|
  {
    if |cmds| == 0 {
      assert cmds + [last] == [last];
    } else {
      assert (cmds + [last])[1..] == cmds[1..] + [last];
      var next := match SetCommand(cmds[0])
        case Some(nv) => vars[nv.0 := nv.1]
        case None => vars;
      SetVariablesSnoc(next, cmds[1..], last);
    }
  }

  // ---------------------------------------------------------------------------
  // Target names
  // ---------------------------------------------------------------------------

  /**
   * The name a target command refers to: the first argument resolved; skipped
   * when references remain, and with every `::` turned into `_`.
   */
  function TargetName(raw: string, vars: map<string, string>): (r: Option<string>)
    ensures r.Some? ==> !Strings.Contains(r.value, "::")
    ensures var t := ResolveVariable(raw, vars);
      r.None? <==> CmakeCli.HasUnresolved(t)
  {
    var t := ResolveVariable(raw, vars);
    if CmakeCli.HasUnresolved(t) then None
    else
      CmakeLex.UnderscoredHasNoDoubleColon(t);
      Some(CmakeLex.Underscored(t))
  }

  /** A plain name is taken as it is. */
  lemma PlainTargetName(raw: string, vars: map<string, string>)
    requires '$' !in raw && ':' !in raw
    ensures TargetName(raw, vars) == Some(raw)
  {
    NoDollarUnchanged(raw, vars);
    CmakeLex.NoCharNotContained(raw, "${");
    CmakeLex.NoCharNotContained(raw, "$<");
  }

  // ---------------------------------------------------------------------------
  // convert_to_toml
  // ---------------------------------------------------------------------------

  /** A target as the GUI parser collects it. */
  datatype GuiTarget = GuiTarget(
    name: string,
    targetType: string,
    sources: seq<string>,
    includeDirs: seq<string>,
    libDirs: seq<string>,
    libs: seq<string>,
    flags: seq<string>,
    deps: seq<string>,
    compileDefinitions: seq<string>,
    sourceDir: Option<string>)

  /** Sources that are written out: not headers, `OBJECT` or unresolved. */
  predicate KeptSource(s: string) {
    !CmakeCli.IsHeader(s) && !CmakeCli.HasUnresolved(s) && s != "OBJECT"
  }

  /** The path a kept source is written as. */
  function SourcePath(s: string, dir: Option<string>): (r: string)
    ensures dir.None? ==> r == s
    ensures dir.Some? ==> Strings.StartsWith(r, dir.value + "/") && r[|dir.value| + 1..] == s
  {
    match dir
    case Some(d) =>
      assert (d + "/" + s)[..|d| + 1] == d + "/";
      d + "/" + s
    case None => s
  }

  /** The emitted `sources`: the kept sources in order, under the target's directory when it has one. */
  function GuiSources(t: GuiTarget): (r: seq<string>)
    ensures |r| <= |t.sources|
    ensures forall x :: x in r <==>
      exists i :: 0 <= i < |t.sources| && KeptSource(t.sources[i]) && x == SourcePath(t.sources[i], t.sourceDir)
  {
    SourcesMembers(t.sources, t.sourceDir);
    Sources(t.sources, t.sourceDir)
  }

  /**
   * Each kept source in its written form, in order; when every source is
   * kept, the list maps one to one.
   */
  function Sources(sources: seq<string>, dir: Option<string>): (r: seq<string>)
    ensures |r| <= |sources|
    ensures (forall i :: 0 <= i < |sources| ==> KeptSource(sources[i])) ==>
      |r| == |sources| && forall i :: 0 <= i < |r| ==> r[i] == SourcePath(sources[i], dir)
    decreases |sources|
  {
    if |sources| == 0 then []
    else
      var rest := Sources(sources[1..], dir);
      if KeptSource(sources[0]) then [SourcePath(sources[0], dir)] + rest else rest
  }

  /** The sources of a concatenation are the sources of each part, in order: the filter keeps the input order. */
  lemma {:induction false} SourcesConcat(a: seq<string>, b: seq<string>, dir: Option<string>)
    ensures Sources(a + b, dir) == Sources(a, dir) + Sources(b, dir)
    decreases |a|
  {
    if |a| == 0 {
      assert a + b == b;
    } else {
      assert (a + b)[0] == a[0];
      assert (a + b)[1..] == a[1..] + b;
      SourcesConcat(a[1..], b, dir);
    }
  }

  /** A single source contributes its written form when kept and nothing otherwise. */
  lemma GuiSourcesOne(t: GuiTarget, before: seq<string>, s: string, after: seq<string>)
    requires t.sources == before + [s] + after
    ensures GuiSources(t) ==
      Sources(before, t.sourceDir) + (if KeptSource(s) then [SourcePath(s, t.sourceDir)] else []) + Sources(after, t.sourceDir)
  {
    SourcesOne(before, s, after, t.sourceDir);
  }

  /** `Sources` over one source between two lists: that source's part sits in place. */
  lemma SourcesOne(before: seq<string>, s: string, after: seq<string>, dir: Option<string>)
    ensures Sources(before + [s] + after, dir) ==
      Sources(before, dir) + (if KeptSource(s) then [SourcePath(s, dir)] else []) + Sources(after, dir)
  {
    var m := if KeptSource(s) then [SourcePath(s, dir)] else [];
    SourcesSingle(s, dir);
    SourcesConcat(before, [s], dir);
    assert Sources(before + [s], dir) == Sources(before, dir) + m;
    SourcesConcat(before + [s], after, dir);
  }

  /** One source gives its written form when kept, and nothing otherwise. */
  lemma SourcesSingle(s: string, dir: Option<string>)
    ensures Sources([s], dir) == if KeptSource(s) then [SourcePath(s, dir)] else []
  {
    assert [s][1..] == [];
  }

  /** An emitted source is exactly the written form of some kept source. */
  lemma {:induction false} SourcesMembers(sources: seq<string>, dir: Option<string>)
    ensures forall x :: x in Sources(sources, dir) <==>
      exists i :: 0 <= i < |sources| && KeptSource(sources[i]) && x == SourcePath(sources[i], dir)
    decreases |sources|
  {
    if |sources| > 0 {
      SourcesMembers(sources[1..], dir);
      forall x | exists i :: 0 <= i < |sources| && KeptSource(sources[i]) && x == SourcePath(sources[i], dir)
        ensures x in Sources(sources, dir)
      {
        var i :| 0 <= i < |sources| && KeptSource(sources[i]) && x == SourcePath(sources[i], dir);
        if i > 0 {
          assert sources[1..][i - 1] == sources[i];
        }
      }
      forall x | x in Sources(sources[1..], dir)
        ensures exists i :: 0 <= i < |sources| && KeptSource(sources[i]) && x == SourcePath(sources[i], dir)
      {
        var i :| 0 <= i < |sources[1..]| && KeptSource(sources[1..][i]) && x == SourcePath(sources[1..][i], dir);
        assert sources[i + 1] == sources[1..][i];
      }
    }
  }

  /** Without a directory every emitted source is a kept source of the target, never a header or unresolved. */
  lemma GuiSourcesFiltered(t: GuiTarget)
    requires t.sourceDir.None?
    ensures forall x :: x in GuiSources(t) ==> x in t.sources && KeptSource(x)
  {
    SourcesMembers(t.sources, t.sourceDir);
  }

  /** `x` is the non-empty parent of one of the sources. */
  ghost predicate ParentOfSome(sources: seq<string>, x: string) {
    exists i :: 0 <= i < |sources| && x != "" && Paths.Parent(sources[i]) == Some(x)
  }

  /** A parent of some source is the first source's or a parent of some later one. */
  lemma ParentOfSomeCons(sources: seq<string>)
    requires |sources| > 0
    ensures forall x :: ParentOfSome(sources, x) <==>
      (x != "" && Paths.Parent(sources[0]) == Some(x)) || ParentOfSome(sources[1..], x)
  {
    forall x | ParentOfSome(sources, x)
      ensures (x != "" && Paths.Parent(sources[0]) == Some(x)) || ParentOfSome(sources[1..], x)
    {
      var i :| 0 <= i < |sources| && x != "" && Paths.Parent(sources[i]) == Some(x);
      if i > 0 { assert sources[1..][i - 1] == sources[i]; }
    }
    forall x | ParentOfSome(sources[1..], x) ensures ParentOfSome(sources, x) {
      var i :| 0 <= i < |sources[1..]| && x != "" && Paths.Parent(sources[1..][i]) == Some(x);
      assert sources[i + 1] == sources[1..][i];
    }
  }

  /** The directories a target's sources suggest: its own directory, or else the parents of its sources. */
  function SourceDirCandidates(sources: seq<string>, dir: Option<string>): (r: seq<string>)
    ensures dir.Some? ==> forall i :: 0 <= i < |r| ==> r[i] == dir.value
    ensures dir.None? ==> forall i :: 0 <= i < |r| ==> r[i] != ""
    ensures dir.Some? ==> |r| == |sources|
    ensures dir.None? ==> forall x :: x in r <==> ParentOfSome(sources, x)
    decreases |sources|
  {
    if |sources| == 0 then []
    else
      var rest := SourceDirCandidates(sources[1..], dir);
      ParentOfSomeCons(sources);
      match dir
      case Some(d) => [d] + rest
      case None =>
        match Paths.Parent(sources[0])
        case Some(p) => if p != "" then [p] + rest else rest
        case None => rest
  }

  /**
   * The emitted `include_dirs`: the target's include directories, then its
   * own directory (when it has sources) or the non-empty parents of its
   * sources, each new one once.
   */
  function GuiIncludeDirs(t: GuiTarget): (r: seq<string>)
    ensures Seqs.AppendsOnlyNew(t.includeDirs, r)
    ensures t.sourceDir.Some? && |t.sources| > 0 ==> t.sourceDir.value in r
    ensures t.sourceDir.Some? ==> forall x :: x in r ==> x in t.includeDirs || x == t.sourceDir.value
    ensures t.sourceDir.Some? ==> forall x :: x in r <==> x in t.includeDirs || (|t.sources| > 0 && x == t.sourceDir.value)
    ensures t.sourceDir.None? ==> forall x :: x in r <==> x in t.includeDirs || ParentOfSome(t.sources, x)
  {
    var c := SourceDirCandidates(t.sources, t.sourceDir);
    assert t.sourceDir.Some? && |t.sources| > 0 ==> c[0] == t.sourceDir.value;
    Seqs.AppendMissing(t.includeDirs, c)
  }

  /** The emitted flags: the target's flags without generator expressions, then a `-D` flag per definition. */
  function GuiFlags(flags: seq<string>, defs: seq<string>): (r: seq<string>)
    ensures forall i :: 0 <= i < |r| - |defs| ==> !Strings.Contains(r[i], "$<")
    ensures |r| >= |defs|
    ensures forall i :: 0 <= i < |defs| ==> r[|r| - |defs| + i] == "-D" + defs[i]
    decreases |flags|
  {
    if |flags| == 0 then seq(|defs|, i requires 0 <= i < |defs| => "-D" + defs[i])
    else if Strings.Contains(flags[0], "$<") then GuiFlags(flags[1..], defs)
    else [flags[0]] + GuiFlags(flags[1..], defs)
  }

  /** Flags without generator expressions are all emitted, before the definitions. */
  lemma {:induction false} PlainFlagsKept(flags: seq<string>, defs: seq<string>)
    requires forall i :: 0 <= i < |flags| ==> !Strings.Contains(flags[i], "$<")
    ensures |GuiFlags(flags, defs)| == |flags| + |defs| && GuiFlags(flags, defs)[..|flags|] == flags
    decreases |flags|
  {
    if |flags| > 0 {
      PlainFlagsKept(flags[1..], defs);
    }
  }

  // The `flags` block as text lines.

  const FlagsOpen := "flags = ["
  const ArrayClose := "]"

  /** An array entry line. */
  function Item(x: string): (r: string)
    ensures |r| > 0 && r[0] == ' '
  {
    "    \"" + x + "\","
  }

  function Items(xs: seq<string>): (r: seq<string>)
    ensures |r| == |xs|
    ensures forall i :: 0 <= i < |r| ==> r[i] == Item(xs[i])
  {
    seq(|xs|, i requires 0 <= i < |xs| => Item(xs[i]))
  }

  /** A well-formed `flags` block: nothing, or the opening line, entry lines, and the closing line. */
  predicate WellFormedFlagsBlock(lines: seq<string>) {
    lines == [] ||
    (&& |lines| >= 2 && lines[0] == FlagsOpen && lines[|lines| - 1] == ArrayClose
     && forall i :: 1 <= i < |lines| - 1 ==> |lines[i]| > 0 && lines[i][0] == ' ')
  }

  function Kept(flags: seq<string>): (r: seq<string>)
    decreases |flags|
  {
    if |flags| == 0 then []
    else if Strings.Contains(flags[0], "$<") then Kept(flags[1..])
    else [flags[0]] + Kept(flags[1..])
  }

  function Definitions(defs: seq<string>): (r: seq<string>)
    ensures |r| == |defs|
  {
    seq(|defs|, i requires 0 <= i < |defs| => "-D" + defs[i])
  }

  lemma {:induction false} GuiFlagsSplit(flags: seq<string>, defs: seq<string>)
    ensures GuiFlags(flags, defs) == Kept(flags) + Definitions(defs)
    decreases |flags|
  {
    if |flags| > 0 {
      GuiFlagsSplit(flags[1..], defs);
    }
  }

  /**
   * The lines `convert_to_toml` writes for flags and definitions as the code
   * stands: when the target has flags, the array is closed before the
   * definition lines are written.
   */
  function FlagsLinesAsWritten(flags: seq<string>, defs: seq<string>): (r: seq<string>)
    ensures |flags| == 0 && |defs| == 0 ==> r == []
  {
    var flagLines := if |flags| > 0 then [FlagsOpen] + Items(Kept(flags)) + [ArrayClose] else [];
    var defLines :=
      if |defs| == 0 then []
      else if |flags| == 0 then [FlagsOpen] + Items(Definitions(defs)) + [ArrayClose]
      else Items(Definitions(defs));
    flagLines + defLines
  }

  /** With both flags and definitions, the definition entries land after the array is closed. */
  lemma DefinitionsOutsideArray(flags: seq<string>, defs: seq<string>)
    requires |flags| > 0 && |defs| > 0
    ensures !WellFormedFlagsBlock(FlagsLinesAsWritten(flags, defs))
  {
    var r := FlagsLinesAsWritten(flags, defs);
    assert r[|r| - 1] == Item("-D" + defs[|defs| - 1]);
  }

  /** The corrected block: one array holding the kept flags and then the definitions. */
  function FlagsLines(flags: seq<string>, defs: seq<string>): (r: seq<string>)
    ensures WellFormedFlagsBlock(r)
    ensures r != [] ==> r[1..|r| - 1] == Items(GuiFlags(flags, defs))
    ensures r == [] <==> |flags| == 0 && |defs| == 0
  {
    if |flags| == 0 && |defs| == 0 then []
    else
      var items := Items(GuiFlags(flags, defs));
      var r := [FlagsOpen] + items + [ArrayClose];
      assert r[1..|r| - 1] == items;
      r
  }

  /** Where the code has only flags or only definitions, it already writes the corrected block. */
  lemma FlagsLinesAgree(flags: seq<string>, defs: seq<string>)
    requires |flags| == 0 || |defs| == 0
    ensures FlagsLinesAsWritten(flags, defs) == FlagsLines(flags, defs)
  {
    GuiFlagsSplit(flags, defs);
    if |flags| == 0 {
      assert Kept(flags) == [];
      assert GuiFlags(flags, defs) == Definitions(defs);
    } else {
      assert Definitions(defs) == [];
      assert GuiFlags(flags, defs) == Kept(flags);
    }
  }

  /** One emitted `[[target]]` block; `sources` is always written, any other empty list is an omitted field. */
  datatype GuiTomlTarget = GuiTomlTarget(
    name: string,
    targetType: string,
    sources: seq<string>,
    includeDirs: seq<string>,
    libDirs: seq<string>,
    libs: seq<string>,
    flags: seq<string>,
    deps: seq<string>,
    compiler: string)

  /** The fixed compiler every GUI-converted target names. */
  const GuiCompiler := "g++"

  function ConvertTarget(t: GuiTarget): (r: GuiTomlTarget)
    ensures r.name == t.name && r.targetType == t.targetType
    ensures r.libDirs == t.libDirs && r.libs == t.libs && r.deps == t.deps
    ensures Config.ParseCompiler(r.compiler) == Some(Config.DefaultCompiler)
    ensures Seqs.AppendsOnlyNew(t.includeDirs, r.includeDirs)
  {
    Config.DefaultCompilerCommand();
    GuiTomlTarget(t.name, t.targetType, GuiSources(t), GuiIncludeDirs(t), t.libDirs, t.libs,
      GuiFlags(t.flags, t.compileDefinitions), t.deps, GuiCompiler)
  }

  /** The `[[target]]` blocks of `convert_to_toml`, one per target in order, each ending with the compiler. */
  function ConvertToToml(ts: seq<GuiTarget>): (r: seq<GuiTomlTarget>)
    ensures |r| == |ts|
    ensures forall i :: 0 <= i < |r| ==> r[i].name == ts[i].name && r[i].compiler == GuiCompiler
  {
    seq(|ts|, i requires 0 <= i < |ts| => ConvertTarget(ts[i]))
  }
}
