/** The resolved `.config` parser of crates/vmcell-artifact-validator/src/kconfig.rs. */
module Kconfig {
  import opened Basics
  import opened Text

  datatype Value = Yes | Module | No | Other(text: string)

  /** A parse: the symbol map, or the 1-based number and trimmed text of the first bad line. */
  datatype Parsed = Ok(values: map<string, Value>) | Bad(line: nat, text: string)

  /** What one line contributes. */
  datatype Entry = Nothing | Binding(symbol: string, value: Value) | Malformed

  const SYMBOL_PREFIX: string := "CONFIG_"
  const NOT_SET_SUFFIX: string := " is not set"

  // ---------------------------------------------------------------------------------------------
  // Meaning of a text
  // ---------------------------------------------------------------------------------------------

  /** Symbols a line may bind: `CONFIG_`-prefixed and free of whitespace. */
  predicate IsSymbol(s: string) {
    SYMBOL_PREFIX <= s && forall i :: 0 <= i < |s| ==> !IsWhitespace(s[i])
  }

  predicate EndsWith(s: string, suffix: string) {
    |suffix| <= |s| && s[|s| - |suffix|..] == suffix
  }

  /** Backslash makes the next character literal; a lone final backslash stands for itself. */
  function Unescape(s: string): string {
    if s == [] then [] else if s[0] == '\\' then Literal(s[1..]) else [s[0]] + Unescape(s[1..])
  }

  function Literal(s: string): string {
    if s == [] then "\\" else [s[0]] + Unescape(s[1..])
  }

  /** A quoted value loses its quotes and escapes; anything else is verbatim. */
  function Unquoted(raw: string): string {
    if |raw| >= 2 && raw[0] == '"' && raw[|raw| - 1] == '"' then Unescape(raw[1..|raw| - 1]) else raw
  }

  function ValueOf(text: string): Option<Value> {
    var raw := Trim(text);
    if raw == "" then None
    else if raw == "y" then Some(Yes)
    else if raw == "m" then Some(Module)
    else if raw == "n" then Some(No)
    else Some(Other(Unquoted(raw)))
  }

  function CommentEntry(comment: string): Entry {
    if EndsWith(comment, NOT_SET_SUFFIX) && IsSymbol(comment[..|comment| - |NOT_SET_SUFFIX|])
    then Binding(comment[..|comment| - |NOT_SET_SUFFIX|], No)
    else Nothing
  }

  function AssignmentEntry(line: string): Entry {
    var i := IndexOf(line, '=');
    if i == |line| || !IsSymbol(line[..i]) then Malformed
    else match ValueOf(line[i + 1..])
      case None => Malformed
      case Some(v) => Binding(line[..i], v)
  }

  function TrimmedEntry(line: string): Entry {
    if line == "" then Nothing
    else if line[0] == '#' then CommentEntry(Trim(line[1..]))
    else AssignmentEntry(line)
  }

  function EntryOf(raw: string): Entry {
    TrimmedEntry(Trim(raw))
  }

  function Bound(e: Entry): map<string, Value> {
    if e.Binding? then map[e.symbol := e.value] else map[]
  }

  /** Put an already consumed prefix, its bindings and its line count, in front of an outcome. */
  function Prefixed(values: map<string, Value>, lines: nat, rest: Parsed): Parsed {
    match rest
    case Ok(more) => Ok(values + more)
    case Bad(line, text) => Bad(lines + line, text)
  }

  function Outcome(lines: seq<string>): Parsed {
    if lines == [] then Ok(map[])
    else if EntryOf(lines[0]).Malformed? then Bad(1, Trim(lines[0]))
    else Prefixed(Bound(EntryOf(lines[0])), 1, Outcome(lines[1..]))
  }

  function ParseText(text: string): Parsed {
    Outcome(Lines(text))
  }

  // ---------------------------------------------------------------------------------------------
  // The program
  // ---------------------------------------------------------------------------------------------

  method Unquote(raw: string) returns (out: string)
    ensures out == Unquoted(raw)
  {
    if !(|raw| >= 2 && raw[0] == '"' && raw[|raw| - 1] == '"') {
      return raw;
    }
    out := UnescapeChars(raw[1..|raw| - 1]);
  }

  /** The escape state machine: one flag, one output buffer. */
  method UnescapeChars(inner: string) returns (out: string)
    ensures out == Unescape(inner)
  {
    out := "";
    var escaped := false;
    assert inner[0..] == inner;
    assert Emitted("", inner, false) == Unescape(inner);
    hide Emitted, Unescape;
    for i := 0 to |inner|
      invariant Emitted(out, inner[i..], escaped) == Unescape(inner)
    {
      var c := inner[i];
      EmittedStep(out, inner, i, escaped);
      if escaped {
        out := out + [c];
        escaped := false;
      } else if c == '\\' {
        escaped := true;
      } else {
        out := out + [c];
      }
    }
    EmittedEnd(out, inner, escaped);
    if escaped {
      out := out + "\\";
    }
  }

  /** The whole output, given what is written, the rest of the input and the escape flag. */
  function Emitted(out: string, rest: string, escaped: bool): string {
    out + if escaped then Literal(rest) else Unescape(rest)
  }

  lemma EmittedStep(out: string, inner: string, i: nat, escaped: bool)
    requires i < |inner|
    ensures Emitted(out, inner[i..], escaped)
         == if !escaped && inner[i] == '\\' then Emitted(out, inner[i + 1..], true)
            else Emitted(out + [inner[i]], inner[i + 1..], false)
  {
    var c, rest := inner[i], inner[i + 1..];
    assert inner[i..][1..] == rest;
    assert out + ([c] + Unescape(rest)) == (out + [c]) + Unescape(rest);
  }

  lemma EmittedEnd(out: string, inner: string, escaped: bool)
    ensures Emitted(out, inner[|inner|..], escaped) == if escaped then out + "\\" else out
  {
    assert inner[|inner|..] == "";
  }

  method ParseValue(text: string) returns (v: Option<Value>)
    ensures v == ValueOf(text)
  {
    var raw := Trim(text);
    if raw == "" {
      return None;
    } else if raw == "y" {
      return Some(Yes);
    } else if raw == "m" {
      return Some(Module);
    } else if raw == "n" {
      return Some(No);
    }
    var s := Unquote(raw);
    return Some(Other(s));
  }

  method ParseEntry(raw: string) returns (e: Entry)
    ensures e == EntryOf(raw)
  {
    hide IsSymbol, IndexOf, ValueOf, Trim;
    var line := Trim(raw);
    if line == "" {
      return Nothing;
    }
    if line[0] == '#' {
      var comment := Trim(line[1..]);
      if EndsWith(comment, NOT_SET_SUFFIX) {
        var symbol := comment[..|comment| - |NOT_SET_SUFFIX|];
        if IsSymbol(symbol) {
          return Binding(symbol, No);
        }
      }
      return Nothing;
    }
    var eq := IndexOf(line, '=');
    if eq == |line| {
      return Malformed;
    }
    if !IsSymbol(line[..eq]) {
      return Malformed;
    }
    var value := ParseValue(line[eq + 1..]);
    if value == None {
      return Malformed;
    }
    return Binding(line[..eq], value.value);
  }

  method Parse(text: string) returns (r: Parsed)
    ensures r == ParseText(text)
  {
    hide EntryOf, Trim, Lines;
    var lines := Lines(text);
    var values: map<string, Value> := map[];
    assert lines[0..] == lines;
    PrefixNothing(Outcome(lines));
    for idx := 0 to |lines|
      invariant Outcome(lines) == Prefixed(values, idx, Outcome(lines[idx..]))
    {
      assert lines[idx..][1..] == lines[idx + 1..];
      var entry := ParseEntry(lines[idx]);
      if entry == Malformed {
        return Bad(idx + 1, Trim(lines[idx]));
      }
      PrefixStep(values, idx, lines[idx..]);
      hide Outcome, Prefixed;
      if entry.Binding? {
        values := values[entry.symbol := entry.value];
      }
    }
    assert lines[|lines|..] == [];
    r := Ok(values);
  }

  lemma PrefixNothing(p: Parsed)
    ensures Prefixed(map[], 0, p) == p
  {
    if p.Ok? {
      assert map[] + p.values == p.values;
    }
  }

  lemma PrefixPrefix(a: map<string, Value>, i: nat, b: map<string, Value>, j: nat, p: Parsed)
    ensures Prefixed(a, i, Prefixed(b, j, p)) == Prefixed(a + b, i + j, p)
  {
    if p.Ok? {
      assert a + (b + p.values) == (a + b) + p.values;
    }
  }

  lemma PrefixStep(values: map<string, Value>, idx: nat, rest: seq<string>)
    requires rest != [] && !EntryOf(rest[0]).Malformed?
    ensures var e := EntryOf(rest[0]);
            Prefixed(values, idx, Outcome(rest))
              == Prefixed(if e.Binding? then values[e.symbol := e.value] else values, idx + 1, Outcome(rest[1..]))
  {
    hide EntryOf;
    var e := EntryOf(rest[0]);
    PrefixPrefix(values, idx, Bound(e), 1, Outcome(rest[1..]));
    hide Prefixed;
    assert values + Bound(e) == if e.Binding? then values[e.symbol := e.value] else values;
  }

  // ---------------------------------------------------------------------------------------------
  // What a line means
  // ---------------------------------------------------------------------------------------------

  /** A comment of the not-set form, whatever the blanks around it. */
  ghost predicate IsNotSet(line: string, symbol: string) {
    && line != "" && line[0] == '#'
    && Trim(line[1..]) == symbol + NOT_SET_SUFFIX
    && IsSymbol(symbol)
  }

  /** An assignment: split at the first `=`, a symbol before it. */
  ghost predicate IsAssignment(line: string, symbol: string, rhs: string) {
    line == symbol + "=" + rhs && '=' !in symbol && IsSymbol(symbol)
  }

  ghost predicate AllBlank(s: string) {
    forall i :: 0 <= i < |s| ==> IsWhitespace(s[i])
  }

  lemma BlankIsTrimmed(s: string)
    ensures Trim(s) == "" <==> AllBlank(s)
  {
    var t := TrimEnd(s);
    if AllBlank(s) {
      assert t == "";
    }
    if Trim(s) == "" {
      forall i | 0 <= i < |s| ensures IsWhitespace(s[i]) {
        assert i < |t| ==> t[i] == s[i];
      }
    }
  }

  /** The one place where an assignment splits. */
  lemma AssignmentSplits(line: string)
    ensures var i := IndexOf(line, '=');
            && (i < |line| ==> (IsSymbol(line[..i]) <==> IsAssignment(line, line[..i], line[i + 1..])))
            && (forall symbol, rhs :: IsAssignment(line, symbol, rhs) ==>
                  i < |line| && symbol == line[..i] && rhs == line[i + 1..])
  {
    hide IsSymbol, IndexOf;
    forall symbol, rhs | IsAssignment(line, symbol, rhs)
      ensures IndexOf(line, '=') == |symbol| && symbol == line[..|symbol|] && rhs == line[|symbol| + 1..]
    {
      IndexOfPrefix(symbol, '=', rhs);
      assert "=" == ['='];
    }
  }

  /**
   A line is refused exactly when, trimmed, it is neither empty nor a comment, and is no assignment of
   something to a symbol: no `=`, a bad symbol before the first one, or only blanks after it.
   */
  lemma MalformedIff(raw: string)
    ensures var line := Trim(raw);
            EntryOf(raw).Malformed? <==>
              && line != "" && line[0] != '#'
              && forall symbol, rhs :: IsAssignment(line, symbol, rhs) ==> AllBlank(rhs)
  {
    hide IsSymbol, IndexOf, Trim, AllBlank, IsAssignment;
    var line := Trim(raw);
    AssignmentSplits(line);
    var i := IndexOf(line, '=');
    if i < |line| {
      BlankIsTrimmed(line[i + 1..]);
    }
  }

  /** A line binds a symbol exactly when it is of the not-set form, or assigns it something of that value. */
  lemma BindingIff(raw: string, symbol: string, value: Value)
    ensures var line := Trim(raw);
            EntryOf(raw) == Binding(symbol, value) <==>
              || (IsNotSet(line, symbol) && value == No)
              || (line != "" && line[0] != '#' &&
                  exists rhs :: IsAssignment(line, symbol, rhs) && ValueOf(rhs) == Some(value))
  {
    hide IsSymbol, IndexOf, Trim, IsAssignment, ValueOf;
    var line := Trim(raw);
    AssignmentSplits(line);
    if line != "" && line[0] == '#' {
      var comment := Trim(line[1..]);
      if EndsWith(comment, NOT_SET_SUFFIX) {
        assert comment == comment[..|comment| - |NOT_SET_SUFFIX|] + NOT_SET_SUFFIX;
      }
      if comment == symbol + NOT_SET_SUFFIX {
        assert comment[|symbol|..] == NOT_SET_SUFFIX && comment[..|symbol|] == symbol;
      }
    }
  }

  /** The three tristate values, wherever the blanks are; anything else unquoted is taken verbatim. */
  lemma AssignedValue(symbol: string, t: string)
    requires IsSymbol(symbol) && '=' !in symbol
    requires t != [] && !IsWhitespace(t[0]) && !IsWhitespace(t[|t| - 1])
    ensures EntryOf(symbol + "=y") == Binding(symbol, Yes)
    ensures EntryOf(symbol + "=m") == Binding(symbol, Module)
    ensures EntryOf(symbol + "=n") == Binding(symbol, No)
    ensures t !in {"y", "m", "n"} && !(|t| >= 2 && t[0] == '"' && t[|t| - 1] == '"') ==>
              EntryOf(symbol + "=" + t) == Binding(symbol, Other(t))
  {
    hide EntryOf, IsSymbol, Trim;
    TristateValues();
    AssignmentRendered(symbol, "y");
    AssignmentRendered(symbol, "m");
    AssignmentRendered(symbol, "n");
    assert symbol + "=y" == symbol + "=" + "y" && symbol + "=m" == symbol + "=" + "m" && symbol + "=n" == symbol + "=" + "n";
    AssignmentRendered(symbol, t);
    TrimOfTrimmed(t);
  }

  /** `s` spelled with a backslash before the marked characters, and before every backslash. */
  function Spelled(s: string, marked: seq<bool>): string
    requires |marked| == |s|
  {
    if s == [] then []
    else (if marked[0] || s[0] == '\\' then ['\\', s[0]] else [s[0]]) + Spelled(s[1..], marked[1..])
  }

  /** Unescaping undoes every spelling, and a backslash with nothing after it stands for itself. */
  lemma {:induction false} UnescapeSpelled(s: string, marked: seq<bool>)
    requires |marked| == |s|
    ensures Unescape(Spelled(s, marked)) == s
    ensures Unescape(Spelled(s, marked) + "\\") == s + "\\"
  {
    if s == [] {
      assert Unescape("\\") == Literal([]);
    } else {
      var rest := Spelled(s[1..], marked[1..]);
      UnescapeSpelled(s[1..], marked[1..]);
      UnescapeOne(s[0], rest, marked[0]);
      UnescapeOne(s[0], rest + "\\", marked[0]);
      hide Unescape;
      var one := if marked[0] || s[0] == '\\' then ['\\', s[0]] else [s[0]];
      assert one + rest + "\\" == one + (rest + "\\");
      assert [s[0]] + s[1..] == s && [s[0]] + (s[1..] + "\\") == s + "\\";
    }
  }

  lemma UnescapeOne(c: char, rest: string, marked: bool)
    ensures Unescape((if marked || c == '\\' then ['\\', c] else [c]) + rest) == [c] + Unescape(rest)
  {
    if marked || c == '\\' {
      assert (['\\', c] + rest)[1..] == [c] + rest && ([c] + rest)[1..] == rest;
    } else {
      assert ([c] + rest)[1..] == rest;
    }
  }

  /** Every text is a spelling, or a spelling and one backslash: the law above covers all of them. */
  lemma {:induction false} EveryTextIsSpelled(text: string) returns (s: string, marked: seq<bool>, lone: bool)
    ensures |marked| == |s| && text == Spelled(s, marked) + if lone then "\\" else ""
    decreases |text|
  {
    if text == [] {
      s, marked, lone := [], [], false;
    } else if text[0] != '\\' {
      s, marked, lone := EveryTextIsSpelled(text[1..]);
      s, marked := [text[0]] + s, [false] + marked;
    } else if |text| == 1 {
      s, marked, lone := [], [], true;
    } else {
      s, marked, lone := EveryTextIsSpelled(text[2..]);
      s, marked := [text[1]] + s, [true] + marked;
    }
  }

  /** A quoted value loses its quotes and its escapes, whatever is between the quotes. */
  lemma QuotedAssignment(symbol: string, s: string, marked: seq<bool>)
    requires IsSymbol(symbol) && '=' !in symbol && |marked| == |s|
    ensures EntryOf(symbol + "=" + ("\"" + Spelled(s, marked) + "\"")) == Binding(symbol, Other(s))
  {
    hide EntryOf, IsSymbol, Trim, Spelled;
    var inner := Spelled(s, marked);
    var raw := "\"" + inner + "\"";
    UnescapeSpelled(s, marked);
    TrimOfTrimmed(raw);
    assert raw[1..|raw| - 1] == inner;
    AssignmentRendered(symbol, raw);
  }

  // ---------------------------------------------------------------------------------------------
  // What an outcome says about the lines
  // ---------------------------------------------------------------------------------------------

  /** A parse fails exactly when some line is malformed, and reports the first such line, trimmed. */
  lemma {:induction false} FirstBadLine(lines: seq<string>)
    ensures Outcome(lines).Ok? <==> forall i :: 0 <= i < |lines| ==> !EntryOf(lines[i]).Malformed?
    ensures Outcome(lines).Bad? ==>
              var k := Outcome(lines).line - 1;
              && 0 <= k < |lines| && EntryOf(lines[k]).Malformed? && Outcome(lines).text == Trim(lines[k])
              && forall i :: 0 <= i < k ==> !EntryOf(lines[i]).Malformed?
  {
    hide EntryOf, Trim;
    if lines == [] || EntryOf(lines[0]).Malformed? {
    } else {
      FirstBadLine(lines[1..]);
      assert forall i :: 0 < i < |lines| ==> lines[1..][i - 1] == lines[i];
    }
  }

  ghost predicate Binds(line: string, symbol: string) {
    EntryOf(line).Binding? && EntryOf(line).symbol == symbol
  }

  /** The map holds exactly the symbols some line binds, each with the value of its last binding. */
  lemma {:induction false} LastBindingWins(lines: seq<string>, symbol: string)
    requires Outcome(lines).Ok?
    ensures symbol in Outcome(lines).values <==> exists i :: 0 <= i < |lines| && Binds(lines[i], symbol)
    ensures forall i :: 0 <= i < |lines| && Binds(lines[i], symbol)
                        && (forall j :: i < j < |lines| ==> !Binds(lines[j], symbol))
                        ==> Outcome(lines).values[symbol] == EntryOf(lines[i]).value
  {
    hide EntryOf;
    if lines == [] {
    } else {
      var rest := lines[1..];
      LastBindingWins(rest, symbol);
      assert forall i :: 0 < i < |lines| ==> rest[i - 1] == lines[i];
      assert Outcome(lines).values == Bound(EntryOf(lines[0])) + Outcome(rest).values;
    }
  }

  // ---------------------------------------------------------------------------------------------
  // Appending a fragment
  // ---------------------------------------------------------------------------------------------

  lemma {:induction false} OutcomeConcat(a: seq<string>, b: seq<string>)
    ensures Outcome(a + b) == match Outcome(a)
                              case Bad(line, text) => Bad(line, text)
                              case Ok(values) => Prefixed(values, |a|, Outcome(b))
  {
    hide EntryOf, Trim;
    if a == [] {
      assert a + b == b;
      PrefixNothing(Outcome(b));
    } else {
      assert (a + b)[1..] == a[1..] + b;
      OutcomeConcat(a[1..], b);
      var e := Bound(EntryOf(a[0]));
      if Outcome(a[1..]).Ok? {
        PrefixPrefix(e, 1, Outcome(a[1..]).values, |a| - 1, Outcome(b));
      }
    }
  }

  lemma EntryOfStripped(line: string)
    ensures EntryOf(StripCarriageReturn(line)) == EntryOf(line)
    ensures Trim(StripCarriageReturn(line)) == Trim(line)
  {
    hide TrimmedEntry, Trim;
    if line != [] && line[|line| - 1] == '\r' {
      TrimDropsTrailing(line[..|line| - 1], '\r');
      assert line == line[..|line| - 1] + ['\r'];
    }
  }

  lemma FirstLine(text: string) returns (line: string, rest: string)
    requires '\n' in text
    ensures '\n' !in line && text == line + ['\n'] + rest
  {
    var i := IndexOf(text, '\n');
    line, rest := text[..i], text[i + 1..];
  }

  /** Ending the text with one more newline changes nothing. */
  lemma {:induction false} OutcomeOfTerminated(text: string)
    ensures Outcome(Lines(text + ['\n'])) == Outcome(Lines(text))
    ensures |Lines(text + ['\n'])| == Newlines(text) + 1
    decreases |text|
  {
    hide EntryOf, Trim, Lines, StripCarriageReturn, Newlines;
    if '\n' in text {
      var line, rest := FirstLine(text);
      OutcomeOfTerminated(rest);
      LinesOfTerminated(line, rest);
      LinesOfTerminated(line, rest + ['\n']);
      NewlinesOfTerminated(line, rest);
      assert text + ['\n'] == line + ['\n'] + (rest + ['\n']);
    } else {
      LinesOfTerminated(text, []);
      NewlinesAbsent(text);
      assert text + ['\n'] + [] == text + ['\n'];
      LinesOfLast(text);
      EntryOfStripped(text);
      BlankLine();
    }
  }

  lemma LinesOfLast(text: string)
    requires '\n' !in text
    ensures Lines([]) == [] && Lines(text) == if text == [] then [] else [text]
  {
  }

  lemma BlankLine()
    ensures EntryOf([]) == Nothing
  {
  }

  lemma {:induction false} LinesSplit(a: string, b: string)
    ensures Lines(a + ['\n'] + b) == Lines(a + ['\n']) + Lines(b)
    decreases |a|
  {
    hide Lines, StripCarriageReturn;
    if '\n' in a {
      var line, rest := FirstLine(a);
      LinesSplit(rest, b);
      assert a + ['\n'] + b == line + ['\n'] + (rest + ['\n'] + b);
      assert a + ['\n'] == line + ['\n'] + (rest + ['\n']);
      LinesOfTerminated(line, rest + ['\n'] + b);
      LinesOfTerminated(line, rest + ['\n']);
    } else {
      LinesOfTerminated(a, b);
      LinesOfTerminated(a, []);
      LinesOfLast([]);
      assert a + ['\n'] + [] == a + ['\n'];
    }
  }

  /**
   Appending a fragment after a newline: both parts must parse, the fragment's symbols override, and
   the first bad line of either part is reported at its place in the whole.
   */
  lemma AppendFragment(base: string, fragment: string)
    ensures ParseText(base + ['\n'] + fragment)
         == match ParseText(base)
            case Bad(line, text) => Bad(line, text)
            case Ok(values) => match ParseText(fragment)
              case Bad(line, text) => Bad(Newlines(base) + 1 + line, text)
              case Ok(more) => Ok(values + more)
  {
    hide Lines, Outcome, Newlines;
    LinesSplit(base, fragment);
    OutcomeOfTerminated(base);
    OutcomeConcat(Lines(base + ['\n']), Lines(fragment));
  }

  // ---------------------------------------------------------------------------------------------
  // Printing an accepted map
  // ---------------------------------------------------------------------------------------------

  function QuoteMarks(s: string): (marked: seq<bool>)
    ensures |marked| == |s|
  {
    seq(|s|, i requires 0 <= i < |s| => s[i] == '"')
  }

  /** The escapes the printer writes: before quotes and backslashes. */
  function Escape(s: string): string {
    Spelled(s, QuoteMarks(s))
  }

  function Quote(s: string): string {
    "\"" + Escape(s) + "\""
  }

  function RenderLine(symbol: string, value: Value): string {
    match value
    case Yes => symbol + "=y"
    case Module => symbol + "=m"
    case No => "# " + symbol + NOT_SET_SUFFIX
    case Other(text) => symbol + "=" + Quote(text)
  }

  /** The canonical text of `values`, its symbols listed in the given order. */
  function Render(symbols: seq<string>, values: map<string, Value>): string
    requires forall i :: 0 <= i < |symbols| ==> symbols[i] in values
  {
    if symbols == [] then []
    else RenderLine(symbols[0], values[symbols[0]]) + ['\n'] + Render(symbols[1..], values)
  }

  /** The maps a parse can return. A `# CONFIG_X is not set` line may name a symbol containing `=`. */
  ghost predicate Printable(symbol: string, value: Value) {
    && IsSymbol(symbol)
    && ('=' in symbol ==> value == No)
    && (value.Other? ==> '\n' !in value.text)
  }

  ghost predicate AllPrintable(values: map<string, Value>) {
    forall symbol :: symbol in values ==> Printable(symbol, values[symbol])
  }

  /** Every string survives quoting, trailing backslashes and quotes included. */
  lemma UnquoteQuote(s: string)
    ensures Unquoted(Quote(s)) == s
  {
    var q := Quote(s);
    assert q[1..|q| - 1] == Escape(s);
    UnescapeSpelled(s, QuoteMarks(s));
  }

  lemma {:induction false} UnescapeCharacters(s: string, c: char)
    requires c != '\\' && c !in s
    ensures c !in Unescape(s) && c !in Literal(s)
    decreases |s|
  {
    if s == [] {
    } else {
      UnescapeCharacters(s[1..], c);
    }
  }

  lemma {:induction false} SpelledCharacters(s: string, marked: seq<bool>, c: char)
    requires |marked| == |s| && c != '\\' && c !in s
    ensures c !in Spelled(s, marked)
  {
    if s == [] {
    } else {
      SpelledCharacters(s[1..], marked[1..], c);
    }
  }

  lemma SymbolEnds(symbol: string)
    requires IsSymbol(symbol)
    ensures symbol != [] && symbol[0] == 'C' && !IsWhitespace(symbol[0]) && '\n' !in symbol
  {
    assert SYMBOL_PREFIX[0] == 'C';
  }

  lemma AssignmentRendered(symbol: string, rhs: string)
    requires IsSymbol(symbol) && '=' !in symbol
    requires rhs != [] && !IsWhitespace(rhs[|rhs| - 1])
    ensures EntryOf(symbol + "=" + rhs)
         == match ValueOf(rhs) case None => Malformed case Some(v) => Binding(symbol, v)
  {
    hide IsSymbol, ValueOf, Trim, IndexOf;
    var line := symbol + "=" + rhs;
    SymbolEnds(symbol);
    TrimOfTrimmed(line);
    assert "=" == ['='];
    IndexOfPrefix(symbol, '=', rhs);
    assert line[..|symbol|] == symbol && line[|symbol| + 1..] == rhs;
  }

  lemma QuotedValue(s: string)
    ensures ValueOf(Quote(s)) == Some(Other(s))
    ensures Quote(s) != [] && Quote(s)[|Quote(s)| - 1] == '"'
  {
    TrimOfTrimmed(Quote(s));
    UnquoteQuote(s);
    hide Trim;
  }

  lemma TristateValues()
    ensures ValueOf("y") == Some(Yes) && ValueOf("m") == Some(Module) && ValueOf("n") == Some(No)
  {
    TrimOfTrimmed("y");
    TrimOfTrimmed("m");
    TrimOfTrimmed("n");
    hide Trim;
  }

  lemma CommentRendered(symbol: string)
    requires IsSymbol(symbol)
    ensures EntryOf("# " + symbol + NOT_SET_SUFFIX) == Binding(symbol, No)
  {
    hide IsSymbol, Trim;
    SymbolEnds(symbol);
    var comment := symbol + NOT_SET_SUFFIX;
    var line := "# " + symbol + NOT_SET_SUFFIX;
    TrimOfTrimmed(line);
    assert line[1..] == " " + comment;
    TrimOfTrimmed(comment);
    TrimDropsLeading(' ', comment);
    assert " " + comment == [' '] + comment;
    assert comment[|symbol|..] == NOT_SET_SUFFIX && comment[..|symbol|] == symbol;
  }

  /** A line of the not-set form may bind a symbol that no assignment can: one containing `=`. */
  lemma EqualsInSymbol()
    ensures EntryOf("# CONFIG_A=y is not set") == Binding("CONFIG_A=y", No)
  {
    assert "# CONFIG_A=y is not set" == "# " + "CONFIG_A=y" + NOT_SET_SUFFIX;
    CommentRendered("CONFIG_A=y");
  }

  lemma EntryOfRendered(symbol: string, value: Value)
    requires Printable(symbol, value)
    ensures EntryOf(RenderLine(symbol, value)) == Binding(symbol, value)
  {
    hide EntryOf, ValueOf, Quote;
    match value
    case Yes =>
      TristateValues();
      AssignmentRendered(symbol, "y");
      assert symbol + "=y" == symbol + "=" + "y";
    case Module =>
      TristateValues();
      AssignmentRendered(symbol, "m");
      assert symbol + "=m" == symbol + "=" + "m";
    case No =>
      CommentRendered(symbol);
    case Other(text) =>
      QuotedValue(text);
      AssignmentRendered(symbol, Quote(text));
  }

  lemma RenderedIsOneLine(symbol: string, value: Value)
    requires Printable(symbol, value)
    ensures '\n' !in RenderLine(symbol, value)
    ensures StripCarriageReturn(RenderLine(symbol, value)) == RenderLine(symbol, value)
  {
    SymbolEnds(symbol);
    hide IsSymbol;
    if value.Other? {
      SpelledCharacters(value.text, QuoteMarks(value.text), '\n');
    }
  }

  /** The sub-map on the listed symbols. */
  function Listed(symbols: seq<string>, values: map<string, Value>): map<string, Value>
    requires forall i :: 0 <= i < |symbols| ==> symbols[i] in values
  {
    map s | s in symbols :: values[s]
  }

  lemma {:induction false} RenderParses(symbols: seq<string>, values: map<string, Value>)
    requires AllPrintable(values) && forall i :: 0 <= i < |symbols| ==> symbols[i] in values
    ensures ParseText(Render(symbols, values)) == Ok(Listed(symbols, values))
  {
    hide EntryOf, Lines, RenderLine, Printable, Trim, StripCarriageReturn;
    if symbols == [] {
      LinesOfLast([]);
    } else {
      var s, rest := symbols[0], symbols[1..];
      RenderParses(rest, values);
      RenderedIsOneLine(s, values[s]);
      LinesOfTerminated(RenderLine(s, values[s]), Render(rest, values));
      EntryOfRendered(s, values[s]);
      assert Lines(Render(symbols, values))[1..] == Lines(Render(rest, values));
      assert map[s := values[s]] + Listed(rest, values) == Listed(symbols, values);
    }
  }

  lemma EntryPrintable(line: string)
    requires '\n' !in line && EntryOf(line).Binding?
    ensures Printable(EntryOf(line).symbol, EntryOf(line).value)
  {
    var trimmed := Trim(line);
    TrimKeepsCharacters(line, '\n');
    hide Trim, IndexOf, IsSymbol;
    if trimmed[0] != '#' && EntryOf(line).value.Other? {
      ValueCharacters(trimmed[IndexOf(trimmed, '=') + 1..]);
    }
  }

  lemma ValueCharacters(text: string)
    requires '\n' !in text && ValueOf(text).Some? && ValueOf(text).value.Other?
    ensures '\n' !in ValueOf(text).value.text
  {
    var raw := Trim(text);
    TrimKeepsCharacters(text, '\n');
    hide Trim;
    if |raw| >= 2 {
      UnescapeCharacters(raw[1..|raw| - 1], '\n');
    }
  }

  lemma {:induction false} ParsedIsPrintable(lines: seq<string>)
    requires forall k :: 0 <= k < |lines| ==> '\n' !in lines[k]
    requires Outcome(lines).Ok?
    ensures AllPrintable(Outcome(lines).values)
  {
    hide EntryOf, Printable, Trim;
    if lines == [] {
    } else {
      ParsedIsPrintable(lines[1..]);
      if EntryOf(lines[0]).Binding? {
        EntryPrintable(lines[0]);
      }
    }
  }

  /** Printing any accepted text's map, in any order of its symbols, parses back to the same map. */
  lemma ParsePrintRoundTrip(text: string, symbols: seq<string>)
    requires ParseText(text).Ok?
    requires (set s | s in symbols) == ParseText(text).values.Keys
    ensures forall i :: 0 <= i < |symbols| ==> symbols[i] in ParseText(text).values
    ensures ParseText(Render(symbols, ParseText(text).values)) == ParseText(text)
  {
    hide Outcome, Lines;
    var values := ParseText(text).values;
    ParsedIsPrintable(Lines(text));
    forall i | 0 <= i < |symbols| ensures symbols[i] in values {
      assert symbols[i] in set s | s in symbols;
    }
    RenderParses(symbols, values);
    assert Listed(symbols, values) == values;
  }

  lemma {:induction false} Enumerate(keys: set<string>) returns (symbols: seq<string>)
    ensures (set s | s in symbols) == keys
  {
    if keys == {} {
      symbols := [];
    } else {
      var k :| k in keys;
      var rest := Enumerate(keys - {k});
      symbols := [k] + rest;
      assert (set s | s in symbols) == {k} + set s | s in rest;
    }
  }

  /** A map is the parse of some text exactly when every one of its entries is printable. */
  lemma AcceptedMaps(values: map<string, Value>)
    ensures AllPrintable(values) <==> exists text :: ParseText(text) == Ok(values)
  {
    hide Outcome, Lines, Render, Printable;
    if AllPrintable(values) {
      var symbols := Enumerate(values.Keys);
      assert forall i :: 0 <= i < |symbols| ==> symbols[i] in set s | s in symbols;
      RenderParses(symbols, values);
      assert Listed(symbols, values) == values;
      assert ParseText(Render(symbols, values)) == Ok(values);
    }
    forall text | ParseText(text) == Ok(values) ensures AllPrintable(values) {
      ParsedIsPrintable(Lines(text));
    }
  }
}
