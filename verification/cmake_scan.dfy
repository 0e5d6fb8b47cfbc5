/** The three regular-expression steps of the extractor over the text of a
    generated CMake targets file (conanfile.py:176, 178 and 191), written
    out as scanners with Python `re` semantics: leftmost match, greedy
    repetition with backtracking, and `findall` resuming after each match. */
module CMakeScan {
  import opened Wrappers
  import opened PyStrings

  /** Python's `\s` on `str` patterns: the characters for which
      `str.isspace()` holds. */
  predicate IsPySpace(c: char) {
    || ('\U{0009}' <= c <= '\U{000D}')
    || ('\U{001C}' <= c <= '\U{001F}')
    || c == ' ' || c == '\U{0085}' || c == '\U{00A0}' || c == '\U{1680}'
    || ('\U{2000}' <= c <= '\U{200A}')
    || c == '\U{2028}' || c == '\U{2029}' || c == '\U{202F}' || c == '\U{205F}'
    || c == '\U{3000}'
  }

  /** The character class `[\n|\s]` (also written `[\s|\n]`): whitespace or
      a literal bar. */
  predicate IsSep(c: char) {
    c == '|' || IsPySpace(c)
  }

  /** Length of the longest prefix of separator characters. */
  function SepRun(s: string): (n: nat)
    ensures n <= |s|
    ensures n < |s| ==> !IsSep(s[n])
    decreases |s|
  {
    if |s| > 0 && IsSep(s[0]) then 1 + SepRun(s[1..]) else 0
  }

  /** Length of the longest prefix without separator characters. */
  function WordRun(s: string): (n: nat)
    ensures n <= |s|
    ensures n < |s| ==> IsSep(s[n])
    decreases |s|
  {
    if |s| > 0 && !IsSep(s[0]) then 1 + WordRun(s[1..]) else 0
  }

  /** `c` does not occur in `s`. */
  predicate Lacks(s: string, c: char)
    decreases |s|
  {
    |s| == 0 || (s[0] != c && Lacks(s[1..], c))
  }

  /** Length of the longest prefix not containing `c`. */
  function SpanNot(s: string, c: char): (n: nat)
    ensures n <= |s|
    ensures Lacks(s[..n], c)
    ensures n < |s| ==> s[n] == c
    decreases |s|
  {
    if |s| > 0 && s[0] != c then
      assert s[..1 + SpanNot(s[1..], c)][1..] == s[1..][..SpanNot(s[1..], c)];
      1 + SpanNot(s[1..], c)
    else 0
  }

  /** The span stops at the first `c`, when the text before it lacks `c`. */
  lemma {:induction false} SpanNotStops(x: string, c: char, rest: string)
    requires Lacks(x, c)
    ensures SpanNot(x + ([c] + rest), c) == |x|
    decreases |x|
  {
    var s := x + ([c] + rest);
    if |x| > 0 {
      assert s[0] == x[0];
      assert s[1..] == x[1..] + ([c] + rest);
      SpanNotStops(x[1..], c, rest);
    } else {
      assert s[0] == c;
    }
  }

  /** `Lacks` is the negation of membership. */
  lemma {:induction false} LacksIffNotIn(s: string, c: char)
    ensures Lacks(s, c) <==> c !in s
    decreases |s|
  {
    if |s| > 0 {
      LacksIffNotIn(s[1..], c);
      assert s == [s[0]] + s[1..];
    }
  }

  /** No separator character anywhere in `s`. */
  predicate NoSep(s: string)
    decreases |s|
  {
    |s| == 0 || (!IsSep(s[0]) && NoSep(s[1..]))
  }

  /** A string is free of separators exactly when it is all leading word. */
  lemma {:induction false} NoSepIffWord(s: string)
    ensures NoSep(s) <==> WordRun(s) == |s|
    decreases |s|
  {
    if |s| > 0 {
      NoSepIffWord(s[1..]);
    }
  }

  /** The leading word itself holds no separator. */
  lemma {:induction false} LeadingWordIsWord(s: string)
    ensures NoSep(s[..WordRun(s)])
    decreases |s|
  {
    if |s| > 0 && !IsSep(s[0]) {
      LeadingWordIsWord(s[1..]);
      assert s[..WordRun(s)][1..] == s[1..][..WordRun(s[1..])];
    }
  }

  /** The leading word of a separator-free word followed by more text
      runs through the whole word. */
  lemma {:induction false} WordRunAppend(w: string, rest: string)
    requires NoSep(w)
    ensures WordRun(w + rest) == |w| + WordRun(rest)
    decreases |w|
  {
    if |w| > 0 {
      assert (w + rest)[1..] == w[1..] + rest;
      WordRunAppend(w[1..], rest);
    } else {
      assert w + rest == rest;
    }
  }

  /** Splitting at the leftmost maximal runs of separators with at most
      `maxsplit` cuts left; the rest stays in the last piece. The extractor
      passes 2, and `SplitArgs(s, 2)` is `re.split(r"[\s|\n]+", s,
      maxsplit=2)` (conanfile.py:178). For 0 this makes no cut, whereas
      Python reads `maxsplit=0` as "no limit"; the recursion only reaches 0
      with the cuts used up. */
  function SplitArgs(s: string, maxsplit: nat): (pieces: seq<string>)
    ensures 1 <= |pieces| <= maxsplit + 1
    decreases maxsplit
  {
    var i := WordRun(s);
    if maxsplit == 0 || i == |s| then [s]
    else
      var j := i + SepRun(s[i..]);
      [s[..i]] + SplitArgs(s[j..], maxsplit - 1)
  }

  /** The first piece of `SplitArgs(s, maxsplit)` is the leading word of `s`
      (all of `s` when nothing is cut) and holds no separator when a cut is
      made; a cut happens exactly when cuts are allowed and `s` holds a
      separator. */
  lemma SplitArgsFirstPiece(s: string, maxsplit: nat)
    ensures var pieces := SplitArgs(s, maxsplit);
      && (|pieces| > 1 <==> maxsplit > 0 && !NoSep(s))
      && pieces[0] == (if |pieces| > 1 then s[..WordRun(s)] else s)
      && (|pieces| > 1 ==> NoSep(pieces[0]))
  {
    NoSepIffWord(s);
    LeadingWordIsWord(s);
  }

  /** A non-empty run of separator characters, such as the spaces, or the
      newline and indentation, CMake writes between arguments. */
  predicate SepString(sep: string) {
    |sep| > 0 && AllSep(sep)
  }

  /** Every character of `s` is a separator. */
  predicate AllSep(s: string)
    decreases |s|
  {
    |s| == 0 || (IsSep(s[0]) && AllSep(s[1..]))
  }

  /** A run of separators followed by a non-separator is taken whole. */
  lemma {:induction false} SepRunAppend(sep: string, rest: string)
    requires AllSep(sep)
    requires |rest| > 0 && !IsSep(rest[0])
    ensures SepRun(sep + rest) == |sep|
    decreases |sep|
  {
    if |sep| > 0 {
      assert (sep + rest)[0] == sep[0];
      assert (sep + rest)[1..] == sep[1..] + rest;
      SepRunAppend(sep[1..], rest);
    } else {
      assert sep + rest == rest;
    }
  }

  /** One cut of `SplitArgs` at a run of separators between a word and the
      rest. */
  lemma SplitArgsStep(w: string, sep: string, t: string, maxsplit: nat)
    requires |w| > 0 && NoSep(w) && SepString(sep)
    requires |t| > 0 && !IsSep(t[0])
    requires maxsplit > 0
    ensures SplitArgs(w + sep + t, maxsplit) == [w] + SplitArgs(t, maxsplit - 1)
  {
    var s := w + sep + t;
    assert s == w + (sep + t);
    WordRunAppend(w, sep + t);
    assert (sep + t)[0] == sep[0];
    assert WordRun(sep + t) == 0;
    assert s[|w|..] == sep + t;
    SepRunAppend(sep, t);
    assert s[|w| + |sep|..] == t;
    assert s[..|w|] == w;
  }

  /** A single word is not cut. */
  lemma SplitArgsOfWord(w: string, maxsplit: nat)
    requires NoSep(w)
    ensures SplitArgs(w, maxsplit) == [w]
  {
    SplitArgsFirstPiece(w, maxsplit);
  }

  /** Two words with any run of separators between them split into the two
      words. */
  lemma SplitArgsOfTwoWords(name: string, sep: string, kind: string)
    requires |name| > 0 && NoSep(name) && SepString(sep)
    requires |kind| > 0 && NoSep(kind)
    ensures SplitArgs(name + sep + kind, 2) == [name, kind]
  {
    SplitArgsStep(name, sep, kind, 2);
    SplitArgsOfWord(kind, 1);
  }

  /** Two words and the rest, as in `add_library(NAME TYPE IMPORTED)` or
      `set_target_properties(NAME PROPERTIES` followed by a newline, the
      indented properties and a newline: the third piece is the whole rest,
      separators and newlines included. */
  lemma SplitArgsOfThreeParts(name: string, sep1: string, word: string, sep2: string, rest: string)
    requires |name| > 0 && NoSep(name) && SepString(sep1)
    requires |word| > 0 && NoSep(word) && SepString(sep2)
    requires |rest| > 0 && !IsSep(rest[0])
    ensures SplitArgs(name + sep1 + word + sep2 + rest, 2) == [name, word, rest]
  {
    var tail := word + sep2 + rest;
    assert name + sep1 + word + sep2 + rest == name + sep1 + tail;
    assert SplitArgs(tail, 1) == [word, rest] by {
      SplitArgsOfWordAndRest(word, sep2, rest);
    }
    assert SplitArgs(name + sep1 + tail, 2) == [name] + SplitArgs(tail, 1) by {
      assert tail[0] == word[0];
      SplitArgsStep(name, sep1, tail, 2);
    }
  }

  /** With one cut left, a word and the rest split at the first run of
      separators. */
  lemma SplitArgsOfWordAndRest(word: string, sep: string, rest: string)
    requires |word| > 0 && NoSep(word) && SepString(sep)
    requires |rest| > 0 && !IsSep(rest[0])
    ensures SplitArgs(word + sep + rest, 1) == [word, rest]
  {
    SplitArgsStep(word, sep, rest, 1);
    assert SplitArgs(rest, 0) == [rest];
  }

  // ---------------------------------------------------------------------
  // Statements: `(add_library|set_target_properties)[\n|\s]*\([\n|\s]*([^)]*)\)`

  /** The two CMake commands the extractor looks for. */
  datatype CMakeFunction = AddLibrary | SetTargetProperties

  function FunctionName(f: CMakeFunction): string {
    match f
    case AddLibrary => "add_library"
    case SetTargetProperties => "set_target_properties"
  }

  /** One `findall` hit: the command and the text between the parentheses. */
  datatype Statement = Statement(func: CMakeFunction, args: string)

  /** What `[\n|\s]*([^)]*)\)` can capture: no closing parenthesis, and
      no leading separator (the greedy run before it took them all). */
  predicate Delimited(args: string) {
    Lacks(args, ')') && (args == [] || !IsSep(args[0]))
  }

  /** The command name `s` starts with, if any. */
  function MatchFunctionName(s: string): (f: Option<CMakeFunction>)
    ensures f.Some? ==> StartsWith(s, FunctionName(f.value))
  {
    if StartsWith(s, FunctionName(AddLibrary)) then Some(AddLibrary)
    else if StartsWith(s, FunctionName(SetTargetProperties)) then Some(SetTargetProperties)
    else None
  }

  /** The part of the statement pattern after the command name,
      `[\n|\s]*\([\n|\s]*([^)]*)\)`, matched at the start of `s`: the
      captured arguments and the length of the match. The runs of
      separators are greedy; since neither `(` nor `)` is a separator,
      backtracking cannot produce another match. */
  function MatchCall(s: string): (m: Option<(string, nat)>)
    ensures m.Some? ==> 0 < m.value.1 <= |s| && Delimited(m.value.0)
  {
    var k := SepRun(s);
    if k < |s| && s[k] == '(' then
      var afterParen := s[k + 1..];
      var body := afterParen[SepRun(afterParen)..];
      var j := SpanNot(body, ')');
      if j < |body| then Some((body[..j], |s| - |body| + j + 1)) else None
    else None
  }

  /** The rest of the statement pattern once command name `f` has matched
      at the start of `s`. */
  function MatchStatementAfter(s: string, f: CMakeFunction): (m: Option<(Statement, nat)>)
    requires StartsWith(s, FunctionName(f))
    ensures m.Some? ==> 0 < m.value.1 <= |s| && Delimited(m.value.0.args)
  {
    var n := |FunctionName(f)|;
    var c := MatchCall(s[n..]);
    if c.None? then None else Some((Statement(f, c.value.0), n + c.value.1))
  }

  /** The statement pattern matched at the start of `s`, with the length of
      the match. */
  function MatchStatement(s: string): (m: Option<(Statement, nat)>)
    ensures m.Some? ==> 0 < m.value.1 <= |s| && Delimited(m.value.0.args)
  {
    match MatchFunctionName(s)
    case None => None
    case Some(f) => MatchStatementAfter(s, f)
  }

  /** `re.findall` of the statement pattern over the whole text, in textual
      order: try to match at each position; after a match, resume behind it. */
  function ScanStatements(s: string): (sts: seq<Statement>)
    ensures forall k :: 0 <= k < |sts| ==> Delimited(sts[k].args)
    decreases |s|
  {
    if |s| == 0 then []
    else match MatchStatement(s)
      case Some((st, n)) => [st] + ScanStatements(s[n..])
      case None => ScanStatements(s[1..])
  }

  /** The text of one statement as CMake writes it, followed by `rest`. */
  function RenderStatementOnto(st: Statement, rest: string): string {
    FunctionName(st.func) + ("(" + (st.args + (")" + rest)))
  }

  /** The text of a sequence of statements, one after another. */
  function RenderStatements(sts: seq<Statement>): string
    decreases |sts|
  {
    if |sts| == 0 then "" else RenderStatementOnto(sts[0], RenderStatements(sts[1..]))
  }

  /** A parenthesised argument list is matched exactly to its end. */
  lemma MatchCallRendered(args: string, rest: string)
    requires Delimited(args)
    ensures MatchCall("(" + (args + (")" + rest))) == Some((args, |args| + 2))
  {
    var body := args + (")" + rest);
    var s := "(" + body;
    assert SepRun(s) == 0;
    assert s[1..] == body;
    assert SepRun(body) == 0 by {
      if |args| > 0 {
        assert body[0] == args[0];
      }
    }
    assert body[0..] == body;
    SpanNotStops(args, ')', rest);
    assert body[..|args|] == args;
  }

  /** A text that starts with a command name is read as that command. */
  lemma MatchFunctionNameOf(f: CMakeFunction, rest: string)
    ensures MatchFunctionName(FunctionName(f) + rest) == Some(f)
  {
    StartsWithAppend(FunctionName(f), rest);
    if f == SetTargetProperties {
      NotStartsWithAt(FunctionName(f) + rest, FunctionName(AddLibrary), 0);
    }
  }

  /** `MatchStatementAfter` composed from the command name and the call. */
  lemma MatchStatementParts(name: string, f: CMakeFunction, afterName: string, args: string, len: nat)
    requires name == FunctionName(f)
    requires MatchCall(afterName) == Some((args, len))
    ensures MatchStatementAfter(name + afterName, f) == Some((Statement(f, args), |name| + len))
  {
    StartsWithAppend(name, afterName);
    assert (name + afterName)[|name|..] == afterName;
  }

  /** A rendered statement is matched at its start, exactly to its end. */
  lemma MatchRendered(st: Statement, rest: string)
    requires Delimited(st.args)
    ensures MatchStatement(RenderStatementOnto(st, rest))
            == Some((st, |FunctionName(st.func)| + |st.args| + 2))
  {
    var afterName := "(" + (st.args + (")" + rest));
    MatchFunctionNameOf(st.func, afterName);
    MatchCallRendered(st.args, rest);
    MatchStatementParts(FunctionName(st.func), st.func, afterName, st.args, |st.args| + 2);
  }

  /** After a match of length `n`, scanning resumes behind it. */
  lemma ScanAfterMatch(s: string, st: Statement, n: nat, rest: string)
    requires MatchStatement(s) == Some((st, n))
    requires n <= |s| && s[n..] == rest
    ensures ScanStatements(s) == [st] + ScanStatements(rest)
  {
  }

  /** What follows a rendered statement is the text it was rendered onto. */
  lemma RenderedStatementRest(st: Statement, rest: string)
    ensures var n := |FunctionName(st.func)| + |st.args| + 2;
      n <= |RenderStatementOnto(st, rest)| && RenderStatementOnto(st, rest)[n..] == rest
  {
    var inner := st.args + (")" + rest);
    assert inner[|st.args| + 1..] == rest;
    assert ("(" + inner)[|st.args| + 2..] == rest;
  }

  /** A rendered statement is read as that statement, and scanning goes on
      behind its closing parenthesis. */
  lemma ScanOfStatement(st: Statement, rest: string)
    requires Delimited(st.args)
    ensures ScanStatements(RenderStatementOnto(st, rest)) == [st] + ScanStatements(rest)
  {
    var n := |FunctionName(st.func)| + |st.args| + 2;
    MatchRendered(st, rest);
    RenderedStatementRest(st, rest);
    match st.func
    case AddLibrary =>
      ScanAfterMatch(RenderStatementOnto(st, rest), st, n, rest);
    case SetTargetProperties =>
      ScanAfterMatch(RenderStatementOnto(st, rest), st, n, rest);
  }

  /** Scanning rendered statements gives them back, in order. */
  lemma {:induction false} ScanRendered(sts: seq<Statement>)
    requires forall k :: 0 <= k < |sts| ==> Delimited(sts[k].args)
    ensures ScanStatements(RenderStatements(sts)) == sts
    decreases |sts|
  {
    if |sts| > 0 {
      ScanOfStatement(sts[0], RenderStatements(sts[1..]));
      ScanRendered(sts[1..]);
      assert [sts[0]] + sts[1..] == sts;
    }
  }

  // ---------------------------------------------------------------------
  // Properties: `(INTERFACE_COMPILE_DEFINITIONS|INTERFACE_INCLUDE_DIRECTORIES|
  //              INTERFACE_LINK_LIBRARIES)[\n|\s]+(.+)`

  /** The three target properties the extractor looks for. */
  datatype PropertyName = CompileDefinitions | IncludeDirectories | LinkLibraries

  function PropertyKeyword(name: PropertyName): string {
    match name
    case CompileDefinitions => "INTERFACE_COMPILE_DEFINITIONS"
    case IncludeDirectories => "INTERFACE_INCLUDE_DIRECTORIES"
    case LinkLibraries => "INTERFACE_LINK_LIBRARIES"
  }

  /** One `findall` hit: the property and its value, the rest of its line. */
  datatype Property = Property(name: PropertyName, value: string)

  /** What `(.+)` can capture: at least one character and no newline. */
  predicate IsLineValue(v: string) {
    |v| > 0 && Lacks(v, '\n')
  }

  /** The property keyword `s` starts with, if any. */
  function MatchPropertyName(s: string): (name: Option<PropertyName>)
    ensures name.Some? ==> StartsWith(s, PropertyKeyword(name.value))
  {
    if StartsWith(s, PropertyKeyword(CompileDefinitions)) then Some(CompileDefinitions)
    else if StartsWith(s, PropertyKeyword(IncludeDirectories)) then Some(IncludeDirectories)
    else if StartsWith(s, PropertyKeyword(LinkLibraries)) then Some(LinkLibraries)
    else None
  }

  /** Where `(.+)` starts after the keyword: the greedy `[\n|\s]+` first
      takes the whole run of `run` separators and gives characters back, one
      at a time, until `.` can match the next one (anything but a newline). */
  function ValueStart(t: string, run: nat): (start: Option<nat>)
    requires run <= |t|
    ensures start.Some? ==> 0 < start.value <= run && start.value < |t| && t[start.value] != '\n'
    ensures start.Some? ==> forall k :: start.value < k <= run ==> k >= |t| || t[k] == '\n'
    ensures start.None? ==> forall k :: 0 < k <= run ==> k >= |t| || t[k] == '\n'
    decreases run
  {
    if run == 0 then None
    else if run < |t| && t[run] != '\n' then Some(run)
    else ValueStart(t, run - 1)
  }

  /** The part of the property pattern after the keyword, `[\n|\s]+(.+)`,
      matched at the start of `s`: the captured value and the length of the
      match. */
  function MatchValue(s: string): (m: Option<(string, nat)>)
    ensures m.Some? ==> 0 < m.value.1 <= |s| && IsLineValue(m.value.0)
  {
    match ValueStart(s, SepRun(s))
    case None => None
    case Some(start) =>
      var line := s[start..];
      var len := SpanNot(line, '\n');
      Some((line[..len], start + len))
  }

  /** The rest of the property pattern once keyword `name` has matched at
      the start of `s`. */
  function MatchPropertyAfter(s: string, name: PropertyName): (m: Option<(Property, nat)>)
    requires StartsWith(s, PropertyKeyword(name))
    ensures m.Some? ==> 0 < m.value.1 <= |s| && IsLineValue(m.value.0.value)
  {
    var n := |PropertyKeyword(name)|;
    var v := MatchValue(s[n..]);
    if v.None? then None else Some((Property(name, v.value.0), n + v.value.1))
  }

  /** The property pattern matched at the start of `s`, with the length of
      the match. */
  function MatchProperty(s: string): (m: Option<(Property, nat)>)
    ensures m.Some? ==> 0 < m.value.1 <= |s| && IsLineValue(m.value.0.value)
  {
    match MatchPropertyName(s)
    case None => None
    case Some(name) => MatchPropertyAfter(s, name)
  }

  /** `re.findall` of the property pattern over a text, in textual order. */
  function FindProperties(s: string): (props: seq<Property>)
    ensures forall k :: 0 <= k < |props| ==> IsLineValue(props[k].value)
    decreases |s|
  {
    if |s| == 0 then []
    else match MatchProperty(s)
      case Some((p, n)) => [p] + FindProperties(s[n..])
      case None => FindProperties(s[1..])
  }

  /** What a value must look like to be read back unchanged: a line value
      that does not begin with a separator. */
  predicate Renderable(p: Property) {
    IsLineValue(p.value) && !IsSep(p.value[0])
  }

  /** One property line as CMake writes it inside `set_target_properties`,
      indented by two spaces, followed by the text `rest`. */
  function RenderPropertyOnto(p: Property, rest: string): string {
    "  " + (PropertyKeyword(p.name) + (" " + (p.value + ("\n" + rest))))
  }

  function RenderProperties(props: seq<Property>): string
    decreases |props|
  {
    if |props| == 0 then "" else RenderPropertyOnto(props[0], RenderProperties(props[1..]))
  }

  /** A character that cannot start a keyword is skipped. */
  lemma FindPropertiesSkips(c: char, rest: string)
    requires c != 'I'
    ensures FindProperties([c] + rest) == FindProperties(rest)
  {
    var s := [c] + rest;
    assert s[0] == c;
    NotStartsWithAt(s, PropertyKeyword(CompileDefinitions), 0);
    NotStartsWithAt(s, PropertyKeyword(IncludeDirectories), 0);
    NotStartsWithAt(s, PropertyKeyword(LinkLibraries), 0);
    assert s[1..] == rest;
  }

  /** A value after one space is matched exactly to its end. */
  lemma MatchValueRendered(value: string, rest: string)
    requires IsLineValue(value) && !IsSep(value[0])
    ensures MatchValue(" " + (value + ("\n" + rest))) == Some((value, 1 + |value|))
  {
    var line := value + ("\n" + rest);
    var s := " " + line;
    assert s[1..] == line;
    assert s[1] == value[0];
    assert SepRun(s) == 1;
    SpanNotStops(value, '\n', rest);
    assert line[..|value|] == value;
  }

  /** A text that starts with a keyword is read as that keyword. */
  lemma MatchPropertyNameOf(name: PropertyName, rest: string)
    ensures MatchPropertyName(PropertyKeyword(name) + rest) == Some(name)
  {
    var s := PropertyKeyword(name) + rest;
    StartsWithAppend(PropertyKeyword(name), rest);
    match name
    case CompileDefinitions =>
    case IncludeDirectories =>
      NotStartsWithAt(s, PropertyKeyword(CompileDefinitions), 10);
    case LinkLibraries =>
      NotStartsWithAt(s, PropertyKeyword(CompileDefinitions), 10);
      NotStartsWithAt(s, PropertyKeyword(IncludeDirectories), 10);
  }

  /** `MatchProperty` composed from its keyword and value parts. */
  lemma MatchPropertyParts(key: string, name: PropertyName, afterKey: string, value: string, len: nat)
    requires key == PropertyKeyword(name)
    requires MatchValue(afterKey) == Some((value, len))
    ensures MatchPropertyAfter(key + afterKey, name) == Some((Property(name, value), |key| + len))
  {
    StartsWithAppend(key, afterKey);
    assert (key + afterKey)[|key|..] == afterKey;
  }

  /** A keyword, one space and a value are matched exactly to the value's end. */
  lemma MatchPropertyRendered(p: Property, rest: string)
    requires Renderable(p)
    ensures MatchProperty(PropertyKeyword(p.name) + (" " + (p.value + ("\n" + rest))))
            == Some((p, |PropertyKeyword(p.name)| + 1 + |p.value|))
  {
    var key := PropertyKeyword(p.name);
    var afterKey := " " + (p.value + ("\n" + rest));
    MatchPropertyNameOf(p.name, afterKey);
    MatchValueRendered(p.value, rest);
    MatchPropertyParts(key, p.name, afterKey, p.value, 1 + |p.value|);
  }

  /** After a match of length `n`, scanning resumes behind it. */
  lemma FindPropertiesAfterMatch(s: string, p: Property, n: nat, rest: string)
    requires MatchProperty(s) == Some((p, n))
    requires n <= |s| && s[n..] == rest
    ensures FindProperties(s) == [p] + FindProperties(rest)
  {
  }

  /** The two-space indentation of a property line is skipped. */
  lemma FindPropertiesSkipsIndent(line: string)
    ensures FindProperties("  " + line) == FindProperties(line)
  {
    assert "  " + line == [' '] + ([' '] + line);
    FindPropertiesSkips(' ', [' '] + line);
    FindPropertiesSkips(' ', line);
  }

  /** What follows a keyword, a space and a value is the text behind them. */
  lemma RenderedValueRest(key: string, value: string, rest: string)
    ensures var n := |key| + 1 + |value|;
      n <= |key + (" " + (value + rest))| && (key + (" " + (value + rest)))[n..] == rest
  {
    var inner := " " + (value + rest);
    assert inner[1 + |value|..] == rest;
    assert (key + inner)[|key|..] == inner;
  }

  /** A keyword, a space and a value are read as one property, and scanning
      goes on at the newline behind the value. */
  lemma FindPropertiesOfValue(p: Property, rest: string, line: string)
    requires Renderable(p)
    requires line == PropertyKeyword(p.name) + (" " + (p.value + ("\n" + rest)))
    ensures FindProperties(line) == [p] + FindProperties("\n" + rest)
  {
    MatchPropertyRendered(p, rest);
    RenderedValueRest(PropertyKeyword(p.name), p.value, "\n" + rest);
    FindPropertiesAfterMatch(line, p, |PropertyKeyword(p.name)| + 1 + |p.value|, "\n" + rest);
  }

  /** A rendered property line is read as that property, and scanning goes
      on after its newline. */
  lemma FindPropertiesOfLine(p: Property, rest: string, s: string)
    requires Renderable(p)
    requires s == RenderPropertyOnto(p, rest)
    ensures FindProperties(s) == [p] + FindProperties(rest)
  {
    var line := PropertyKeyword(p.name) + (" " + (p.value + ("\n" + rest)));
    FindPropertiesSkipsIndent(line);
    FindPropertiesOfValue(p, rest, line);
    FindPropertiesSkips('\n', rest);
  }

  /** Scanning rendered property lines gives the properties back, in order. */
  lemma {:induction false} FindRenderedProperties(props: seq<Property>)
    requires forall k :: 0 <= k < |props| ==> Renderable(props[k])
    ensures FindProperties(RenderProperties(props)) == props
    decreases |props|
  {
    if |props| > 0 {
      FindPropertiesOfLine(props[0], RenderProperties(props[1..]), RenderProperties(props));
      FindRenderedProperties(props[1..]);
      assert [props[0]] + props[1..] == props;
    }
  }
}
