/**
 * The character-level machinery both CMake converters build on: the
 * parenthesis/quote scanner that finds where a command's argument list ends,
 * the argument tokenizer, the `${NAME}` / `$ENV{NAME}` pattern as the regex
 * engine matches it (leftmost, non-overlapping), and the `::` to `_` renaming
 * of namespaced target names.
 *
 * The two converters differ in small ways, so the scanner and the tokenizer
 * take the variant as a parameter: the command-line converter treats a
 * backslash as an escape anywhere and keeps whitespace-only text pending in
 * the tokenizer; the GUI converter escapes only inside quotes and discards
 * such text.
 */
module CmakeLex {
  import opened Wrappers
  import Strings

  // ---------------------------------------------------------------------------
  // The command scanner
  // ---------------------------------------------------------------------------

  /** Where a backslash escapes the next character. */
  datatype EscapeRule = EscapeAnywhere | EscapeInQuotes

  /** Nesting depth (1 just after the opening parenthesis), quoting and a pending escape. */
  datatype ScanState = ScanState(depth: int, inString: bool, escaped: bool)

  const ScanStart := ScanState(1, false, false)

  predicate Escapes(rule: EscapeRule, st: ScanState) {
    rule == EscapeAnywhere || st.inString
  }

  /** The effect of one character on the scanner when it does not end the command. */
  function Step(rule: EscapeRule, st: ScanState, c: char): ScanState {
    if st.escaped then st.(escaped := false)
    else if c == '\\' && Escapes(rule, st) then st.(escaped := true)
    else if c == '"' then st.(inString := !st.inString)
    else if c == '(' && !st.inString then st.(depth := st.depth + 1)
    else if c == ')' && !st.inString then st.(depth := st.depth - 1)
    else st
  }

  /** The scanner state after reading `s[start..k]`. */
  function StateAt(rule: EscapeRule, s: string, start: nat, k: nat): ScanState
    requires start <= k <= |s|
    decreases k - start
  {
    if k == start then ScanStart else Step(rule, StateAt(rule, s, start, k - 1), s[k - 1])
  }

  /** `s[k]` is an unescaped, unquoted `)` that brings the depth to 0. */
  predicate ClosesAt(rule: EscapeRule, s: string, start: nat, k: nat)
    requires start <= k < |s|
  {
    var st := StateAt(rule, s, start, k);
    !st.escaped && !st.inString && st.depth == 1 && s[k] == ')'
  }

  function ScanFrom(rule: EscapeRule, s: string, i: nat, st: ScanState): (r: Option<nat>)
    requires i <= |s|
    ensures r.Some? ==> i <= r.value < |s|
    decreases |s| - i
  {
    if i == |s| then None
    else if !st.escaped && !st.inString && st.depth == 1 && s[i] == ')' then Some(i)
    else ScanFrom(rule, s, i + 1, Step(rule, st, s[i]))
  }

  /** The index of the `)` that closes a command whose arguments start at `start`, if any. */
  function FindClose(rule: EscapeRule, s: string, start: nat): (r: Option<nat>)
    requires start <= |s|
    ensures r.Some? ==> start <= r.value < |s| && s[r.value] == ')'
  {
    FindCloseIsFirst(rule, s, start);
    ScanFrom(rule, s, start, ScanStart)
  }

  lemma {:induction false} ScanFromFirst(rule: EscapeRule, s: string, start: nat, i: nat, st: ScanState)
    requires start <= i <= |s| && st == StateAt(rule, s, start, i)
    requires forall k :: start <= k < i ==> !ClosesAt(rule, s, start, k)
    ensures match ScanFrom(rule, s, i, st)
      case Some(e) => ClosesAt(rule, s, start, e) && forall k :: start <= k < e ==> !ClosesAt(rule, s, start, k)
      case None => forall k :: start <= k < |s| ==> !ClosesAt(rule, s, start, k)
    decreases |s| - i
  {
    if i < |s| {
      if !st.escaped && !st.inString && st.depth == 1 && s[i] == ')' {
        assert ClosesAt(rule, s, start, i);
      } else {
        assert !ClosesAt(rule, s, start, i);
        ScanFromFirst(rule, s, start, i + 1, Step(rule, st, s[i]));
      }
    }
  }

  /**
   * The scanner stops at the first closing `)`, and finds nothing exactly
   * when no character closes the command.
   */
  lemma FindCloseIsFirst(rule: EscapeRule, s: string, start: nat)
    requires start <= |s|
    ensures match ScanFrom(rule, s, start, ScanStart)
      case Some(e) => ClosesAt(rule, s, start, e) && forall k :: start <= k < e ==> !ClosesAt(rule, s, start, k)
      case None => forall k :: start <= k < |s| ==> !ClosesAt(rule, s, start, k)
  {
    ScanFromFirst(rule, s, start, start, ScanStart);
  }

  lemma {:induction false} ScanAgreesWithoutBackslash(s: string, i: nat, st: ScanState)
    requires i <= |s|
    requires forall k :: i <= k < |s| ==> s[k] != '\\'
    ensures ScanFrom(EscapeAnywhere, s, i, st) == ScanFrom(EscapeInQuotes, s, i, st)
    decreases |s| - i
  {
    if i < |s| {
      assert Step(EscapeAnywhere, st, s[i]) == Step(EscapeInQuotes, st, s[i]);
      ScanAgreesWithoutBackslash(s, i + 1, Step(EscapeAnywhere, st, s[i]));
    }
  }

  /**
   * The two escape rules only differ on backslashes: without one after the
   * opening parenthesis both scanners close the command at the same place.
   */
  lemma ScannersAgreeWithoutBackslash(s: string, start: nat)
    requires start <= |s|
    requires forall k :: start <= k < |s| ==> s[k] != '\\'
    ensures FindClose(EscapeAnywhere, s, start) == FindClose(EscapeInQuotes, s, start)
  {
    if start < |s| && !ScanStart.escaped {
      ScanAgreesWithoutBackslash(s, start, ScanStart);
    }
  }

  /** The spans `(start, end)` of the commands that close, one per start, in order. */
  function Spans(rule: EscapeRule, s: string, starts: seq<nat>): (r: seq<(nat, nat)>)
    requires forall i :: 0 <= i < |starts| ==> starts[i] <= |s|
    ensures |r| <= |starts|
    ensures forall j :: 0 <= j < |r| ==> r[j].0 in starts && FindClose(rule, s, r[j].0) == Some(r[j].1)
    ensures forall j :: 0 <= j < |r| ==> r[j].0 <= r[j].1 < |s|
    ensures forall a :: a in starts && FindClose(rule, s, a).Some? ==> (a, FindClose(rule, s, a).value) in r
    decreases |starts|
  {
    if |starts| == 0 then []
    else
      var rest := Spans(rule, s, starts[1..]);
      match FindClose(rule, s, starts[0])
      case Some(e) => [(starts[0], e)] + rest
      case None => rest
  }

  /** Without backslashes, both escape rules find the same argument spans. */
  lemma {:induction false} SpansAgreeWithoutBackslash(s: string, starts: seq<nat>)
    requires forall i :: 0 <= i < |starts| ==> starts[i] <= |s|
    requires '\\' !in s
    ensures Spans(EscapeAnywhere, s, starts) == Spans(EscapeInQuotes, s, starts)
    decreases |starts|
  {
    if |starts| > 0 {
      SpansAgreeWithoutBackslash(s, starts[1..]);
      ScannersAgreeWithoutBackslash(s, starts[0]);
    }
  }

  /** A start whose command never closes contributes no span. */
  lemma UnclosedYieldsNothing(rule: EscapeRule, s: string, starts: seq<nat>, a: nat)
    requires forall i :: 0 <= i < |starts| ==> starts[i] <= |s|
    requires a <= |s|
    requires forall k :: a <= k < |s| ==> !ClosesAt(rule, s, a, k)
    ensures forall j :: 0 <= j < |Spans(rule, s, starts)| ==> Spans(rule, s, starts)[j].0 != a
  {
    FindCloseIsFirst(rule, s, a);
  }

  // ---------------------------------------------------------------------------
  // The argument tokenizer
  // ---------------------------------------------------------------------------

  /**
   * What happens to whitespace-only text at a separator: the command-line
   * converter keeps it pending, the GUI converter throws it away.
   */
  datatype BlankRule = KeepBlank | DropBlank

  datatype ArgsState = ArgsState(args: seq<string>, current: string, quoted: bool, escaped: bool)

  const ArgsStart := ArgsState([], "", false, false)

  predicate IsSeparator(c: char) {
    c == ' ' || c == '\t' || c == '\n' || c == '\r'
  }

  /** Ends the pending token: its trimmed text becomes an argument unless it is blank. */
  function Flush(rule: BlankRule, st: ArgsState): ArgsState {
    var t := Strings.Trim(st.current);
    match rule
    case KeepBlank =>
      if t != [] then st.(args := st.args + [t], current := []) else st
    case DropBlank =>
      if st.current != [] then st.(args := st.args + (if t != [] then [t] else []), current := [])
      else st
  }

  function ArgStep(rule: BlankRule, st: ArgsState, c: char): ArgsState {
    if st.escaped then st.(current := st.current + [c], escaped := false)
    else if c == '\\' then st.(escaped := true)
    else if c == '"' then st.(quoted := !st.quoted)
    else if IsSeparator(c) && !st.quoted then Flush(rule, st)
    else st.(current := st.current + [c])
  }

  function Feed(rule: BlankRule, st: ArgsState, w: string): ArgsState
    decreases |w|
  {
    if |w| == 0 then st else Feed(rule, ArgStep(rule, st, w[0]), w[1..])
  }

  /** Splits an argument list into arguments. */
  function ParseArgs(rule: BlankRule, s: string): (r: seq<string>)
    ensures forall i :: 0 <= i < |r| ==> |r[i]| > 0
    ensures forall i :: 0 <= i < |r| ==> !Strings.IsWhitespace(r[i][0]) && !Strings.IsWhitespace(r[i][|r[i]| - 1])
  {
    FeedKeepsTrimmed(rule, ArgsStart, s);
    Flush(rule, Feed(rule, ArgsStart, s)).args
  }

  /** Every argument is non-empty and has no leading or trailing whitespace. */
  ghost predicate Trimmed(args: seq<string>) {
    forall i :: 0 <= i < |args| ==>
      |args[i]| > 0 && !Strings.IsWhitespace(args[i][0]) && !Strings.IsWhitespace(args[i][|args[i]| - 1])
  }

  lemma FlushKeepsTrimmed(rule: BlankRule, st: ArgsState)
    requires Trimmed(st.args)
    ensures Trimmed(Flush(rule, st).args)
  {
    var t := Strings.Trim(st.current);
    if t != [] {
      TrimmedSnoc(st.args, t);
    }
    assert Flush(rule, st).args == st.args || (t != [] && Flush(rule, st).args == st.args + [t]);
  }

  /** Appending a trimmed argument keeps every argument trimmed. */
  lemma TrimmedSnoc(args: seq<string>, t: string)
    requires Trimmed(args)
    requires |t| > 0 && !Strings.IsWhitespace(t[0]) && !Strings.IsWhitespace(t[|t| - 1])
    ensures Trimmed(args + [t])
  {
    forall i | 0 <= i < |args + [t]|
      ensures |(args + [t])[i]| > 0 && !Strings.IsWhitespace((args + [t])[i][0])
        && !Strings.IsWhitespace((args + [t])[i][|(args + [t])[i]| - 1])
    {
      if i < |args| {
        assert (args + [t])[i] == args[i];
      } else {
        assert (args + [t])[i] == t;
      }
    }
  }

  lemma {:induction false} FeedKeepsTrimmed(rule: BlankRule, st: ArgsState, w: string)
    requires Trimmed(st.args)
    ensures Trimmed(Feed(rule, st, w).args)
    ensures Trimmed(Flush(rule, Feed(rule, st, w)).args)
    decreases |w|
  {
    if |w| > 0 {
      StepKeepsTrimmed(rule, st, w[0]);
      FeedKeepsTrimmed(rule, ArgStep(rule, st, w[0]), w[1..]);
    } else {
      FlushKeepsTrimmed(rule, st);
    }
  }

  lemma StepKeepsTrimmed(rule: BlankRule, st: ArgsState, c: char)
    requires Trimmed(st.args)
    ensures Trimmed(ArgStep(rule, st, c).args)
  {
    FlushKeepsTrimmed(rule, st);
    assert ArgStep(rule, st, c).args == st.args || ArgStep(rule, st, c).args == Flush(rule, st).args;
  }

  lemma {:induction false} FeedConcat(rule: BlankRule, st: ArgsState, a: string, b: string)
    ensures Feed(rule, st, a + b) == Feed(rule, Feed(rule, st, a), b)
    decreases |a|
  {
    if |a| > 0 {
      assert (a + b)[0] == a[0];
      assert (a + b)[1..] == a[1..] + b;
      FeedConcat(rule, ArgStep(rule, st, a[0]), a[1..], b);
    } else {
      assert a + b == b;
    }
  }

  /** The characters no argument may contain: those of `bad`. */
  ghost predicate Avoids(st: ArgsState, bad: char -> bool) {
    && (forall i :: 0 <= i < |st.current| ==> !bad(st.current[i]))
    && (forall i, j :: 0 <= i < |st.args| && 0 <= j < |st.args[i]| ==> !bad(st.args[i][j]))
  }

  lemma FlushAvoids(rule: BlankRule, st: ArgsState, bad: char -> bool)
    requires Avoids(st, bad)
    ensures Avoids(Flush(rule, st), bad)
  {
    var t := Strings.Trim(st.current);
    Strings.TrimChars(st.current);
    forall j | 0 <= j < |t|
      ensures !bad(t[j])
    {
      assert t[j] in st.current;
    }
  }

  /**
   * Without backslashes the only characters copied are the unescaped ones
   * that are neither quotes nor unquoted separators.
   */
  lemma {:induction false} FeedAvoids(rule: BlankRule, st: ArgsState, w: string, bad: char -> bool)
    requires !st.escaped && Avoids(st, bad)
    requires forall i :: 0 <= i < |w| ==> w[i] != '\\'
    requires forall i :: 0 <= i < |w| ==> bad(w[i]) ==> w[i] == '"' || (IsSeparator(w[i]) && !st.quoted && '"' !in w)
    ensures Avoids(Feed(rule, st, w), bad)
    ensures Avoids(Flush(rule, Feed(rule, st, w)), bad)
    decreases |w|
  {
    if |w| > 0 {
      var next := ArgStep(rule, st, w[0]);
      if IsSeparator(w[0]) && !st.quoted {
        FlushAvoids(rule, st, bad);
      }
      assert !next.escaped && Avoids(next, bad);
      assert next.quoted == st.quoted || w[0] == '"';
      FeedAvoids(rule, next, w[1..], bad);
    } else {
      FlushAvoids(rule, st, bad);
    }
  }

  /** Without backslashes in the input, no argument contains a quote character. */
  lemma QuotesNeverCopied(rule: BlankRule, s: string)
    requires '\\' !in s
    ensures forall i :: 0 <= i < |ParseArgs(rule, s)| ==> '"' !in ParseArgs(rule, s)[i]
  {
    var bad := (c: char) => c == '"';
    FeedAvoids(rule, ArgsStart, s, bad);
    var r := ParseArgs(rule, s);
    forall i | 0 <= i < |r|
      ensures '"' !in r[i]
    {
      assert forall j :: 0 <= j < |r[i]| ==> !bad(r[i][j]);
    }
  }

  /** Without backslashes or quotes, the separators split the input: no argument contains one. */
  lemma SeparatorsSplit(rule: BlankRule, s: string)
    requires '\\' !in s && '"' !in s
    ensures forall i, j :: 0 <= i < |ParseArgs(rule, s)| && 0 <= j < |ParseArgs(rule, s)[i]| ==>
      !IsSeparator(ParseArgs(rule, s)[i][j])
  {
    var bad := (c: char) => IsSeparator(c);
    FeedAvoids(rule, ArgsStart, s, bad);
  }

  lemma EscapedFeed(rule: BlankRule, c: char)
    ensures Feed(rule, ArgsStart, ['\\', c]) == ArgsState([], [c], false, false)
  {
    var bs: string := ['\\'];
    assert ['\\', c] == bs + [c];
    FeedConcat(rule, ArgsStart, bs, [c]);
    FeedOne(rule, ArgsStart, '\\');
    var e := ArgsState([], "", false, true);
    assert Feed(rule, ArgsStart, bs) == e;
    FeedOne(rule, e, c);
  }

  /** A backslash is dropped and the character after it is copied verbatim, whatever it is. */
  lemma EscapedCharacterKept(rule: BlankRule, c: char)
    ensures ParseArgs(rule, ['\\', c]) == if Strings.IsWhitespace(c) then [] else [[c]]
  {
    EscapedFeed(rule, c);
    var st := ArgsState([], [c], false, false);
    assert ParseArgs(rule, ['\\', c]) == Flush(rule, st).args;
    FlushArgs(rule, st);
    assert st.args == [] && st.current == [c];
    Strings.TrimOne(c);
  }

  /** Both flushing rules add the trimmed pending text exactly when it is not blank. */
  lemma FlushArgs(rule: BlankRule, st: ArgsState)
    ensures var t := Strings.Trim(st.current);
      Flush(rule, st).args == st.args + (if t != [] then [t] else [])
  {
    var t := Strings.Trim(st.current);
    if t != [] {
      assert !Strings.AllWhitespace(st.current);
    }
  }

  lemma FeedOne(rule: BlankRule, st: ArgsState, c: char)
    ensures Feed(rule, st, [c]) == ArgStep(rule, st, c)
  {
    assert [c][1..] == [];
  }

  /** Inside quotes, characters other than quotes and backslashes are all copied. */
  lemma {:induction false} FeedQuoted(rule: BlankRule, st: ArgsState, w: string)
    requires st.quoted && !st.escaped
    requires '"' !in w && '\\' !in w
    ensures Feed(rule, st, w) == st.(current := st.current + w)
    decreases |w|
  {
    if |w| > 0 {
      assert st.current + w == st.current + [w[0]] + w[1..];
      FeedQuoted(rule, st.(current := st.current + [w[0]]), w[1..]);
    } else {
      assert st.current + w == st.current;
    }
  }

  lemma QuotedFeed(rule: BlankRule, w: string)
    requires '"' !in w && '\\' !in w
    ensures Feed(rule, ArgsStart, "\"" + w + "\"") == ArgsState([], w, false, false)
  {
    var open: string := ['"'];
    assert "\"" + w + "\"" == open + w + open;
    FeedConcat(rule, ArgsStart, open + w, open);
    FeedConcat(rule, ArgsStart, open, w);
    FeedOne(rule, ArgsStart, '"');
    var q := ArgsState([], "", true, false);
    assert Feed(rule, ArgsStart, open) == q;
    FeedQuoted(rule, q, w);
    assert "" + w == w;
    FeedOne(rule, q.(current := w), '"');
  }

  /** A quoted argument is one argument, separators included. */
  lemma QuotedArgument(rule: BlankRule, w: string)
    requires '"' !in w && '\\' !in w
    requires Strings.Trim(w) != []
    ensures ParseArgs(rule, "\"" + w + "\"") == [Strings.Trim(w)]
  {
    QuotedFeed(rule, w);
    var st := ArgsState([], w, false, false);
    assert ParseArgs(rule, "\"" + w + "\"") == Flush(rule, st).args;
    assert w != [];
    assert Flush(rule, st).args == [Strings.Trim(w)];
  }

  /** The pending text of the keep-blank tokenizer: whitespace followed by the drop-blank one's. */
  ghost predicate Simulates(keep: ArgsState, drop: ArgsState) {
    && keep.args == drop.args
    && keep.quoted == drop.quoted
    && keep.escaped == drop.escaped
    && |drop.current| <= |keep.current|
    && keep.current[|keep.current| - |drop.current|..] == drop.current
    && Strings.AllWhitespace(keep.current[..|keep.current| - |drop.current|])
  }

  lemma SimulatesTrim(keep: ArgsState, drop: ArgsState)
    requires Simulates(keep, drop)
    ensures Strings.Trim(keep.current) == Strings.Trim(drop.current)
  {
    var p := keep.current[..|keep.current| - |drop.current|];
    assert keep.current == p + drop.current;
    Strings.TrimAfterWhitespace(p, drop.current);
  }

  lemma FlushSimulates(keep: ArgsState, drop: ArgsState)
    requires Simulates(keep, drop)
    ensures Simulates(Flush(KeepBlank, keep), Flush(DropBlank, drop))
  {
    SimulatesTrim(keep, drop);
    var k2 := Flush(KeepBlank, keep);
    var d2 := Flush(DropBlank, drop);
    if Strings.Trim(drop.current) == [] && drop.current != [] {
      assert k2 == keep;
      assert d2.current == [];
      assert Strings.AllWhitespace(drop.current);
      assert keep.current[..|keep.current|] == keep.current;
      assert Strings.AllWhitespace(keep.current) by {
        var p := keep.current[..|keep.current| - |drop.current|];
        assert keep.current == p + drop.current;
      }
    }
    assert k2.current[..|k2.current|] == k2.current;
  }

  lemma StepSimulates(keep: ArgsState, drop: ArgsState, c: char)
    requires Simulates(keep, drop)
    ensures Simulates(ArgStep(KeepBlank, keep, c), ArgStep(DropBlank, drop, c))
  {
    if keep.escaped || (c != '\\' && c != '"' && !(IsSeparator(c) && !keep.quoted)) {
      AppendSimulates(keep, drop, c);
    } else if IsSeparator(c) && !keep.quoted && c != '\\' && c != '"' {
      FlushSimulates(keep, drop);
    }
  }

  /** Both tokenizers append a copied character to their pending text. */
  lemma AppendSimulates(keep: ArgsState, drop: ArgsState, c: char)
    requires Simulates(keep, drop)
    ensures Simulates(keep.(current := keep.current + [c]), drop.(current := drop.current + [c]))
  {
    var n := |keep.current| - |drop.current|;
    var k2 := keep.current + [c];
    assert k2[..n] == keep.current[..n];
    assert k2[n..] == keep.current[n..] + [c];
  }

  lemma {:induction false} FeedSimulates(keep: ArgsState, drop: ArgsState, w: string)
    requires Simulates(keep, drop)
    ensures Simulates(Feed(KeepBlank, keep, w), Feed(DropBlank, drop, w))
    decreases |w|
  {
    if |w| > 0 {
      StepSimulates(keep, drop, w[0]);
      FeedSimulates(ArgStep(KeepBlank, keep, w[0]), ArgStep(DropBlank, drop, w[0]), w[1..]);
    }
  }

  /**
   * The two tokenizers produce the same arguments on every input: whitespace
   * the command-line one keeps pending is trimmed off the next argument anyway.
   */
  lemma TokenizersAgree(s: string)
    ensures ParseArgs(KeepBlank, s) == ParseArgs(DropBlank, s)
  {
    assert Simulates(ArgsStart, ArgsStart);
    FeedSimulates(ArgsStart, ArgsStart, s);
    FlushSimulates(Feed(KeepBlank, ArgsStart, s), Feed(DropBlank, ArgsStart, s));
  }

  // ---------------------------------------------------------------------------
  // `${NAME}` and `$ENV{NAME}` references
  // ---------------------------------------------------------------------------

  const VarOpen := "${"
  const EnvOpen := "$ENV{"

  /** The first `}` at or after `k`. */
  function CloseBrace(s: string, k: nat): (r: Option<nat>)
    requires k <= |s|
    ensures r.Some? ==> k <= r.value < |s| && s[r.value] == '}'
    ensures r.Some? ==> forall j :: k <= j < r.value ==> s[j] != '}'
    ensures r.None? ==> forall j :: k <= j < |s| ==> s[j] != '}'
    decreases |s| - k
  {
    if k == |s| then None else if s[k] == '}' then Some(k) else CloseBrace(s, k + 1)
  }

  /**
   * The regex `\$\{([^}]+)\}` (or its `$ENV{` form) anchored at `i`: the end
   * of the match, just past its `}`, when one or more non-`}` characters
   * follow the opening and are closed by a `}`.
   */
  function MatchAt(s: string, i: nat, open: string): (r: Option<nat>)
    requires i <= |s|
    ensures r.Some? ==> i + |open| + 1 < r.value <= |s| && s[i..i + |open|] == open && s[r.value - 1] == '}'
    ensures r.Some? ==> forall j :: i + |open| <= j < r.value - 1 ==> s[j] != '}'
  {
    if i + |open| <= |s| && s[i..i + |open|] == open then
      match CloseBrace(s, i + |open|)
      case Some(j) => if j > i + |open| then Some(j + 1) else None
      case None => None
    else None
  }

  /** Every span in `ms` is a match of the pattern in `s`. */
  predicate ValidMatches(s: string, ms: seq<(nat, nat)>, open: string) {
    forall j :: 0 <= j < |ms| ==> ms[j].0 <= |s| && MatchAt(s, ms[j].0, open) == Some(ms[j].1)
  }

  /** The leftmost non-overlapping matches at or after `i`, as `(start, end)` spans. */
  function Matches(s: string, i: nat, open: string): (r: seq<(nat, nat)>)
    requires i <= |s|
    ensures forall j :: 0 <= j < |r| ==> i <= r[j].0
    ensures ValidMatches(s, r, open)
    decreases |s| - i
  {
    if i == |s| then []
    else match MatchAt(s, i, open)
      case Some(e) => [(i, e)] + Matches(s, e, open)
      case None => Matches(s, i + 1, open)
  }

  /** The name a match captures: what lies between the opening and the `}`. */
  function MatchName(s: string, m: (nat, nat), open: string): (r: string)
    requires m.0 <= |s| && MatchAt(s, m.0, open) == Some(m.1)
    ensures |r| > 0 && '}' !in r
    ensures s[m.0..m.1] == open + r + "}"
  {
    var r := s[m.0 + |open|..m.1 - 1];
    assert s[m.0..m.1] == s[m.0..m.0 + |open|] + r + [s[m.1 - 1]];
    r
  }

  /** With no `$` in the text there is nothing to match. */
  lemma {:induction false} NoDollarNoMatches(s: string, i: nat, open: string)
    requires i <= |s| && |open| > 0 && open[0] == '$'
    requires '$' !in s
    ensures Matches(s, i, open) == []
    decreases |s| - i
  {
    if i < |s| {
      assert s[i] != '$';
      if i + |open| <= |s| {
        assert s[i..i + |open|][0] == s[i];
      }
      NoDollarNoMatches(s, i + 1, open);
    }
  }

  /** A lone reference `${NAME}` is one match, capturing `NAME`. */
  lemma SingleReference(name: string)
    requires |name| > 0 && '}' !in name
    ensures var s := VarOpen + name + "}";
      && Matches(s, 0, VarOpen) == [(0, |s|)]
      && MatchAt(s, 0, VarOpen) == Some(|s|)
      && MatchName(s, (0, |s|), VarOpen) == name
  {
    var s := VarOpen + name + "}";
    assert s[0..2] == VarOpen;
    assert s[|name| + 2] == '}';
    forall j | 2 <= j < |name| + 2
      ensures s[j] != '}'
    {
      assert s[j] == name[j - 2];
    }
    var c := CloseBrace(s, 2);
    assert c == Some(|name| + 2);
    assert MatchAt(s, 0, VarOpen) == Some(|s|);
    assert Matches(s, |s|, VarOpen) == [];
    assert s[2..|s| - 1] == name;
  }

  /** Replacing a whole string by a value gives the value. */
  lemma ReplaceWhole(s: string, v: string)
    requires |s| > 0
    ensures Strings.ReplaceAll(s, s, v) == v
  {
    assert s[..|s|] == s;
    assert s[|s|..] == [];
    assert v + [] == v;
  }

  /** Replaces each pattern in turn, every occurrence of it, as successive `str::replace` calls do. */
  function ReplaceEach(s: string, reps: seq<(string, string)>): (r: string)
    requires forall i :: 0 <= i < |reps| ==> |reps[i].0| > 0
    ensures |reps| == 0 ==> r == s
    decreases |reps|
  {
    if |reps| == 0 then s else ReplaceEach(Strings.ReplaceAll(s, reps[0].0, reps[0].1), reps[1..])
  }

  // ---------------------------------------------------------------------------
  // Namespaced names
  // ---------------------------------------------------------------------------

  /** `name.replace("::", "_")`: `bsoncxx::test` becomes `bsoncxx_test`. */
  function Underscored(name: string): (r: string)
    ensures ':' !in name ==> r == name
  {
    assert ':' !in name ==> !Strings.Contains(name, "::") by {
      if ':' !in name {
        NoCharNotContained(name, "::");
      }
    }
    Strings.ReplaceAll(name, "::", "_")
  }

  lemma {:induction false} NoCharNotContained(s: string, p: string)
    requires |p| > 0 && p[0] !in s
    ensures !Strings.Contains(s, p)
    decreases |s|
  {
    if |s| > 0 {
      NoCharNotContained(s[1..], p);
    }
  }

  lemma ReplacedHead(s: string)
    requires |s| > 0
    ensures var r := Strings.ReplaceAll(s, "::", "_");
      |r| > 0 && r[0] == if Strings.StartsWith(s, "::") then '_' else s[0]
  {
  }

  /** After renaming, no `::` is left anywhere in the name. */
  lemma {:induction false} UnderscoredHasNoDoubleColon(name: string)
    ensures !Strings.Contains(Underscored(name), "::")
    decreases |name|
  {
    var r := Strings.ReplaceAll(name, "::", "_");
    if |name| == 0 {
    } else if Strings.StartsWith(name, "::") {
      var rest := Strings.ReplaceAll(name[2..], "::", "_");
      UnderscoredHasNoDoubleColon(name[2..]);
      assert r == "_" + rest;
      assert r[1..] == rest;
    } else {
      var rest := Strings.ReplaceAll(name[1..], "::", "_");
      UnderscoredHasNoDoubleColon(name[1..]);
      assert r == [name[0]] + rest;
      assert r[1..] == rest;
      if name[0] == ':' && |rest| > 0 {
        assert |name| > 1 && name[1] != ':';
        ReplacedHead(name[1..]);
        assert !Strings.StartsWith(name[1..], "::");
        assert rest[0] != ':';
      }
    }
  }
}
