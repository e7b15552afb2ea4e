/**
 Environments printed as shell assignments and handed to `bash -c`, and a reader for the part of
 the shell's grammar they use: single quotes, double quotes and backslashes (POSIX.1-2017, Shell
 Command Language, sections 2.2.1 to 2.2.3), assignment words, and the command that follows them.
 */
module ShellEnv {
  import opened GoText
  import opened MapOrders

  type Env = map<string, string>

  // ---------- the reader ----------

  /** How far the reader has come; `Unsupported` stands for expansions and operators. */
  datatype Shell =
    | Between(env: Env)
    | Name(env: Env, name: string)
    | Word(env: Env, name: string, text: string)
    | WordEscape(env: Env, name: string, text: string)
    | Single(env: Env, name: string, text: string)
    | Double(env: Env, name: string, text: string)
    | DoubleEscape(env: Env, name: string, text: string)
    | Command(env: Env, text: string)
    | Unsupported

  predicate IsBlank(c: char) {
    c == ' ' || c == '\t'
  }

  predicate IsNameStart(c: char) {
    'a' <= c <= 'z' || 'A' <= c <= 'Z' || c == '_'
  }

  predicate IsNameChar(c: char) {
    IsNameStart(c) || '0' <= c <= '9'
  }

  predicate IsName(s: string) {
    s != [] && IsNameStart(s[0]) && forall i :: 0 <= i < |s| ==> IsNameChar(s[i])
  }

  predicate IsExpansion(c: char) {
    c == '$' || c == '`'
  }

  predicate IsOperator(c: char) {
    c == ';' || c == '&' || c == '|' || c == '<' || c == '>' || c == '(' || c == ')' || c == '\n' || c == '~'
  }

  /** The characters that a backslash escapes within double quotes, apart from the newline. */
  predicate IsEscapedInDouble(c: char) {
    c == '$' || c == '`' || c == '"' || c == '\\'
  }

  function Step(s: Shell, c: char): Shell {
    match s
    case Between(env) =>
      if IsBlank(c) then s
      else if IsNameStart(c) then Name(env, [c])
      else if c == '\n' then Unsupported
      else Command(env, [c])
    case Name(env, name) =>
      if c == '=' then Word(env, name, "")
      else if IsNameChar(c) then Name(env, name + [c])
      else Command(env, name + [c])
    case Word(env, name, text) =>
      if IsBlank(c) then Between(env[name := text])
      else if c == '\'' then Single(env, name, text)
      else if c == '"' then Double(env, name, text)
      else if c == '\\' then WordEscape(env, name, text)
      else if IsExpansion(c) || IsOperator(c) then Unsupported
      else Word(env, name, text + [c])
    case WordEscape(env, name, text) =>
      if c == '\n' then Word(env, name, text) else Word(env, name, text + [c])
    case Single(env, name, text) =>
      if c == '\'' then Word(env, name, text) else Single(env, name, text + [c])
    case Double(env, name, text) =>
      if c == '"' then Word(env, name, text)
      else if c == '\\' then DoubleEscape(env, name, text)
      else if IsExpansion(c) then Unsupported
      else Double(env, name, text + [c])
    case DoubleEscape(env, name, text) =>
      if c == '\n' then Double(env, name, text)
      else if IsEscapedInDouble(c) then Double(env, name, text + [c])
      else Double(env, name, text + ['\\', c])
    case Command(env, text) => Command(env, text + [c])
    case Unsupported => Unsupported
  }

  function Run(s: Shell, input: string): Shell
    decreases |input|
  {
    if input == [] then s else Run(Step(s, input[0]), input[1..])
  }

  lemma {:induction false} RunAppend(s: Shell, a: string, b: string)
    ensures Run(s, a + b) == Run(Run(s, a), b)
    decreases |a|
  {
    if a == [] {
      assert a + b == b;
    } else {
      assert (a + b)[1..] == a[1..] + b;
      RunAppend(Step(s, a[0]), a[1..], b);
    }
  }

  // ---------- the printers ----------

  const MYCNF_DICT := "mycnf_dict"

  /** `strings.Replace` of one character everywhere. */
  function ReplaceAll(s: string, old_: char, new_: string): string {
    if s == [] then [] else (if s[0] == old_ then new_ else [s[0]]) + ReplaceAll(s[1..], old_, new_)
  }

  function EscapeQuotes(value: string): string {
    ReplaceAll(value, '"', "\\\"")
  }

  /** The two replacements made on the parameters' JSON text, one after the other. */
  function EscapeParams(json: string): string {
    ReplaceAll(ReplaceAll(json, '\\', "\\\\"), '"', "\\\"")
  }

  function Printed(key: string, value: string): string {
    if key == MYCNF_DICT then key + "=" + "\"" + EscapeQuotes(value) + "\"" + " "
    else key + "=" + "'" + value + "'" + " "
  }

  function PrintedAll(order: seq<string>, envMap: Env): string
    requires forall i :: 0 <= i < |order| ==> order[i] in envMap
  {
    if order == [] then ""
    else PrintedAll(order[..|order| - 1], envMap) + Printed(order[|order| - 1], envMap[order[|order| - 1]])
  }

  method TranslateEnvMap2StringWithBase(envMap: Env, baseString: string) returns (s: string)
    ensures exists order :: IsOrder(order, envMap) && s == baseString + PrintedAll(order, envMap)
    ensures Printable(envMap) ==> forall env, base :: Run(Between(env), baseString) == Between(base) ==>
              Run(Between(env), s) == Between(base + envMap)
  {
    hide ReplaceAll, IsOrder, PrintedAll, Run, Printable, Step, CanPrint;
    s := baseString;
    var rest := envMap.Keys;
    ghost var order: seq<string> := [];
    assert PrintedAll(order, envMap) == "" by {
      PrintedNone(envMap);
    }
    while rest != {}
      invariant rest <= envMap.Keys
      invariant forall i :: 0 <= i < |order| ==> order[i] in envMap && order[i] !in rest
      invariant forall key :: key in envMap && key !in rest ==> key in order
      invariant forall i, j :: 0 <= i < j < |order| ==> order[i] != order[j]
      invariant s == baseString + PrintedAll(order, envMap)
      decreases rest
    {
      var key :| key in rest;
      var value := envMap[key];
      PrintedOneMore(order, key, envMap);
      ghost var before := s;
      if key == MYCNF_DICT {
        value := EscapeQuotes(value);
        s := s + (key + "=" + "\"" + value + "\"" + " ");
      } else {
        s := s + (key + "=" + "'" + value + "'" + " ");
      }
      assert s == before + Printed(key, envMap[key]);
      assert s == baseString + (PrintedAll(order, envMap) + Printed(key, envMap[key]));
      order := order + [key];
      rest := rest - {key};
    }
    OrderOf(order, envMap);
    if Printable(envMap) {
      EnvReadBack(order, envMap, baseString);
    }
  }

  lemma EnvReadBack(order: seq<string>, envMap: Env, baseString: string)
    requires IsOrder(order, envMap) && Printable(envMap)
    ensures forall env, base :: Run(Between(env), baseString) == Between(base) ==>
              Run(Between(env), baseString + PrintedAll(order, envMap)) == Between(base + envMap)
  {
    hide Run, PrintedAll, Printable;
    forall env, base | Run(Between(env), baseString) == Between(base)
      ensures Run(Between(env), baseString + PrintedAll(order, envMap)) == Between(base + envMap)
    {
      EnvRoundTrip(order, envMap, baseString, env, base);
    }
  }

  lemma PrintedNone(envMap: Env)
    ensures PrintedAll([], envMap) == ""
  {
  }

  lemma PrintedOneMore(order: seq<string>, key: string, envMap: Env)
    requires key in envMap && forall i :: 0 <= i < |order| ==> order[i] in envMap
    ensures PrintedAll(order + [key], envMap) == PrintedAll(order, envMap) + Printed(key, envMap[key])
  {
  }

  method GetUpdateEngineParamsEnvirons(commonEnv: string, json: string) returns (envs: string)
    ensures envs == commonEnv + ("params=" + "\"" + EscapeParams(json) + "\"" + " ")
    ensures forall env, before :: Run(Between(env), commonEnv) == Between(before) ==>
              (Run(Between(env), envs) == Between(before["params" := json]) <==> !HasExpansion(json))
  {
    hide Run, HasExpansion, ReplaceAll;
    var strParams := ReplaceAll(json, '\\', "\\\\");
    strParams := ReplaceAll(strParams, '"', "\\\"");
    envs := commonEnv + ("params=" + "\"" + strParams + "\"" + " ");
    forall env, before | Run(Between(env), commonEnv) == Between(before)
      ensures Run(Between(env), envs) == Between(before["params" := json]) <==> !HasExpansion(json)
    {
      ParamsRoundTripIff(env, commonEnv, before, json);
    }
  }

  // ---------- reading a name ----------

  lemma {:induction false} ReadName(env: Env, key: string)
    requires IsName(key)
    ensures Run(Between(env), key + "=") == Word(env, key, "")
  {
    ReadNameChars(env, [key[0]], key[1..]);
    assert (key + "=")[1..] == key[1..] + "=" && [key[0]] + key[1..] == key;
  }

  lemma {:induction false} ReadNameChars(env: Env, name: string, more: string)
    requires forall i :: 0 <= i < |more| ==> IsNameChar(more[i])
    ensures Run(Name(env, name), more + "=") == Word(env, name + more, "")
    decreases |more|
  {
    if more == [] {
      assert more + "=" == "=" && name + more == name && "="[1..] == "";
    } else {
      assert (more + "=")[1..] == more[1..] + "=" && name + more == name + [more[0]] + more[1..];
      ReadNameChars(env, name + [more[0]], more[1..]);
    }
  }

  // ---------- single quotes ----------

  lemma {:induction false} ReadSingle(env: Env, name: string, text: string, value: string)
    requires '\'' !in value
    ensures Run(Single(env, name, text), value) == Single(env, name, text + value)
    decreases |value|
  {
    if value == [] {
      assert text + value == text;
    } else {
      assert text + value == text + [value[0]] + value[1..];
      ReadSingle(env, name, text + [value[0]], value[1..]);
    }
  }

  lemma AfterName(env: Env, key: string, rest: string)
    requires IsName(key)
    ensures Run(Between(env), key + "=" + rest) == Run(Word(env, key, ""), rest)
  {
    RunAppend(Between(env), key + "=", rest);
    ReadName(env, key);
  }

  lemma RunTwo(s: Shell, a: char, b: char)
    ensures Run(s, [a, b]) == Step(Step(s, a), b)
  {
    assert [a, b][1..] == [b] && [b][1..] == [];
    assert Run(s, [a, b]) == Run(Step(s, a), [b]) == Run(Step(Step(s, a), b), []);
  }

  lemma SingleShape(env: Env, key: string, value: string)
    requires IsName(key) && key != MYCNF_DICT
    ensures Run(Between(env), Printed(key, value)) ==
            Run(Run(Single(env, key, ""), value), ['\'', ' '])
  {
    var rest := "'" + (value + ['\'', ' ']);
    assert Printed(key, value) == key + "=" + rest;
    AfterName(env, key, rest);
    assert rest[0] == '\'' && rest[1..] == value + ['\'', ' '];
    assert Run(Word(env, key, ""), rest) == Run(Single(env, key, ""), rest[1..]);
    RunAppend(Single(env, key, ""), value, ['\'', ' ']);
  }

  /** What a quote in a single-quoted value costs: `n` bounds what the word read for `key` can hold. */
  predicate AtMost(s: Shell, key: string, n: int) {
    match s
    case Between(env) => key in env && |env[key]| <= n
    case Name(env, _) => key in env && |env[key]| <= n
    case Word(env, name, text) => |text| <= n && (name != key ==> key in env && |env[key]| <= n)
    case WordEscape(env, name, text) => |text| < n && (name != key ==> key in env && |env[key]| <= n)
    case Single(env, name, text) => |text| <= n && (name != key ==> key in env && |env[key]| <= n)
    case Double(env, name, text) => |text| <= n && (name != key ==> key in env && |env[key]| <= n)
    case DoubleEscape(env, name, text) => |text| < n && (name != key ==> key in env && |env[key]| <= n)
    case Command(_, _) => true
    case Unsupported => true
  }

  lemma {:induction false} ReadAtMost(s: Shell, key: string, n: nat, input: string)
    requires AtMost(s, key, n)
    ensures AtMost(Run(s, input), key, n + |input|)
    decreases |input|
  {
    if input != [] {
      assert AtMost(Step(s, input[0]), key, n + 1);
      ReadAtMost(Step(s, input[0]), key, n + 1, input[1..]);
    }
  }

  lemma ReadPastQuote(env: Env, key: string, before: string, after: string)
    requires '\'' !in before
    ensures AtMost(Run(Single(env, key, ""), before + ['\''] + after), key, |before| + |after|)
  {
    var word := Word(env, key, before);
    assert AtMost(word, key, |before|);
    var rest := ['\''] + after;
    assert rest[1..] == after;
    assert Run(Single(env, key, before), rest) == Run(word, after);
    hide AtMost, Run, Step;
    assert before + ['\''] + after == before + rest;
    RunAppend(Single(env, key, ""), before, rest);
    ReadSingle(env, key, "", before);
    assert "" + before == before;
    ReadAtMost(word, key, |before|, after);
  }

  lemma CloseAtMost(s: Shell, key: string, n: nat, env: Env)
    requires AtMost(s, key, n) && Run(s, ['\'', ' ']) == Between(env)
    ensures key in env && |env[key]| <= n
  {
  }

  /** A quote in the value is always fatal: what is read back for the key, if anything, is shorter. */
  lemma QuoteLosesText(env: Env, key: string, value: string)
    requires IsName(key) && key != MYCNF_DICT && '\'' in value
    ensures Run(Between(env), Printed(key, value)) != Between(env[key := value])
  {
    hide Run, AtMost, Printed, IsName;
    SingleShape(env, key, value);
    var i := IndexOf(value, '\'');
    assert value == value[..i] + ['\''] + value[i + 1..];
    ReadPastQuote(env, key, value[..i], value[i + 1..]);
    var s := Run(Single(env, key, ""), value);
    if Run(s, ['\'', ' ']) == Between(env[key := value]) {
      CloseAtMost(s, key, |value| - 1, env[key := value]);
    }
  }

  /** For every name other than mycnf_dict: the printed assignment sets the name to the value exactly
      when the value holds no single quote. */
  lemma SingleQuotedRoundTripIff(env: Env, key: string, value: string)
    requires IsName(key) && key != MYCNF_DICT
    ensures Run(Between(env), Printed(key, value)) == Between(env[key := value]) <==> '\'' !in value
  {
    if '\'' in value {
      QuoteLosesText(env, key, value);
    } else {
      SingleShape(env, key, value);
      ReadSingle(env, key, "", value);
      RunTwo(Single(env, key, "" + value), '\'', ' ');
      assert "" + value == value;
    }
  }

  // ---------- double quotes ----------

  /** What a double-quoted word comes to: its text and what follows the closing quote, or no end, or
      an expansion inside it. */
  datatype Quoted = Closed(text: string, rest: string) | Unclosed | Expands

  function Before(prefix: string, q: Quoted): Quoted {
    match q
    case Closed(text, rest) => Closed(prefix + text, rest)
    case _ => q
  }

  function ReadDouble(s: string): Quoted
    decreases |s|
  {
    if s == [] then Unclosed
    else if s[0] == '"' then Closed("", s[1..])
    else if IsExpansion(s[0]) then Expands
    else if s[0] != '\\' then Before([s[0]], ReadDouble(s[1..]))
    else if |s| == 1 then Unclosed
    else Before(EscapeTaken(s[1]), ReadDouble(s[2..]))
  }

  /** The reader takes a closed double-quoted text in whole and goes on after it. */
  lemma {:induction false} RunDouble(env: Env, name: string, text: string, s: string)
    requires ReadDouble(s).Closed?
    ensures Run(Double(env, name, text), s) == Run(Word(env, name, text + ReadDouble(s).text), ReadDouble(s).rest)
    decreases |s|
  {
    hide Run;
    RunFirst(Double(env, name, text), s[0], s[1..]);
    assert [s[0]] + s[1..] == s;
    if s[0] == '"' {
      assert text + "" == text;
    } else if s[0] != '\\' {
      RunDouble(env, name, text + [s[0]], s[1..]);
      assert text + [s[0]] + ReadDouble(s[1..]).text == text + ReadDouble(s).text;
    } else {
      var q := ReadDouble(s[2..]);
      var taken := EscapeTaken(s[1]);
      assert ReadDouble(s) == Before(taken, q);
      hide ReadDouble;
      assert [s[1]] + s[2..] == s[1..];
      RunFirst(DoubleEscape(env, name, text), s[1], s[2..]);
      assert text + "" == text;
      assert Step(DoubleEscape(env, name, text), s[1]) == Double(env, name, text + taken);
      RunDouble(env, name, text + taken, s[2..]);
      assert text + taken + q.text == text + (taken + q.text);
    }
  }

  /** What a backslash and the character after it stand for within double quotes. */
  function EscapeTaken(c: char): string {
    if c == '\n' then "" else if IsEscapedInDouble(c) then [c] else ['\\', c]
  }

  /** The values that survive escaping their double quotes only: no expansion, and no backslash that
      the shell would take for an escape. */
  predicate SafeInDouble(value: string) {
    forall i :: 0 <= i < |value| ==> SafeAt(value, i)
  }

  predicate SafeAt(value: string, i: nat)
    requires i < |value|
  {
    && !IsExpansion(value[i])
    && (value[i] == '\\' ==> i + 1 < |value| && value[i + 1] != '\n' && !IsEscapedInDouble(value[i + 1]))
  }

  lemma SafeTail(value: string)
    requires value != []
    ensures SafeInDouble(value) <==> SafeAt(value, 0) && SafeInDouble(value[1..])
  {
    var tail := value[1..];
    assert forall i :: 0 <= i < |tail| ==> SafeAt(tail, i) == SafeAt(value, i + 1);
    assert forall i :: 0 < i < |value| ==> SafeAt(value, i) == SafeAt(tail, i - 1);
  }

  lemma QuotesEnd(rest: string)
    ensures EscapeQuotes([]) == [] && ReadDouble("\"" + rest) == Closed("", rest)
  {
  }

  lemma EscapeQuotesStep(value: string)
    requires value != []
    ensures EscapeQuotes(value) ==
            if value[0] == '"' then ['\\', '"'] + EscapeQuotes(value[1..]) else [value[0]] + EscapeQuotes(value[1..])
  {
  }

  lemma ReadEscaped(c: char, s: string)
    ensures ReadDouble(['\\', c] + s) == Before(EscapeTaken(c), ReadDouble(s))
  {
  }

  lemma ReadPlain(c: char, s: string)
    requires c != '\\' && c != '"' && !IsExpansion(c)
    ensures ReadDouble([c] + s) == Before([c], ReadDouble(s))
  {
  }

  /** Reading never yields more than was escaped. */
  lemma {:induction false} ReadNoLonger(value: string, end: string)
    requires end == "\""
    ensures var q := ReadDouble(EscapeQuotes(value) + end); q.Closed? ==> |q.text| <= |value|
    decreases |value|
  {
    var s := EscapeQuotes(value) + end;
    if value == [] {
      assert s == end;
    } else {
      EscapeQuotesStep(value);
      var more := EscapeQuotes(value[1..]) + end;
      if value[0] == '"' {
        assert s == ['\\', '"'] + more;
        ReadEscaped('"', more);
        ReadNoLonger(value[1..], end);
      } else if value[0] != '\\' {
        assert s == [value[0]] + more;
        if !IsExpansion(value[0]) {
          ReadPlain(value[0], more);
        }
        ReadNoLonger(value[1..], end);
      } else {
        ReadNoLongerAfterBackslash(value, end);
      }
    }
  }

  lemma EscapePair(c: char, tail: string)
    ensures EscapeQuotes(['\\', c] + tail) ==
            (if c == '"' then ['\\', '\\', '"'] else ['\\', c]) + EscapeQuotes(tail)
  {
    hide EscapeQuotes;
    var value := ['\\', c] + tail;
    assert value[1..] == [c] + tail && value[1..][1..] == tail;
    EscapeQuotesStep(value);
    EscapeQuotesStep(value[1..]);
  }

  /** A backslash and a quote: the backslash escapes itself, and the quote ends the word. */
  lemma BackslashQuote(tail: string, end: string)
    ensures ReadDouble(EscapeQuotes(['\\', '"'] + tail) + end) == Closed(['\\'], EscapeQuotes(tail) + end)
  {
    hide ReadDouble, EscapeQuotes;
    var more := EscapeQuotes(tail) + end;
    EscapePair('"', tail);
    assert EscapeQuotes(['\\', '"'] + tail) + end == ['\\', '\\'] + ("\"" + more);
    ReadEscaped('\\', "\"" + more);
    QuotesEnd(more);
    assert ['\\'] + "" == ['\\'];
  }

  /** A backslash and any other character. */
  lemma BackslashOther(c: char, tail: string, end: string)
    requires c != '"'
    ensures ReadDouble(EscapeQuotes(['\\', c] + tail) + end) ==
            Before(EscapeTaken(c), ReadDouble(EscapeQuotes(tail) + end))
  {
    hide ReadDouble, EscapeQuotes;
    EscapePair(c, tail);
    assert EscapeQuotes(['\\', c] + tail) + end == ['\\', c] + (EscapeQuotes(tail) + end);
    ReadEscaped(c, EscapeQuotes(tail) + end);
  }

  /** A backslash alone escapes the closing quote. */
  lemma BackslashAlone(end: string)
    requires end != [] && end[0] == '"'
    ensures ReadDouble(EscapeQuotes(['\\']) + end) == Before(['"'], ReadDouble(end[1..]))
  {
    hide ReadDouble, EscapeQuotes;
    EscapeQuotesStep(['\\']);
    QuotesEnd("");
    assert ['\\'][1..] == [] && EscapeQuotes(['\\']) + end == ['\\', '"'] + end[1..];
    ReadEscaped('"', end[1..]);
  }

  /** What becomes of a backslash and the character after it. */
  lemma BackslashCases(value: string, end: string)
    requires end != [] && end[0] == '"' && value != [] && value[0] == '\\'
    ensures var q := ReadDouble(EscapeQuotes(value) + end);
      if |value| == 1 then q == Before(['"'], ReadDouble(end[1..]))
      else
        var more := EscapeQuotes(value[2..]) + end;
        if value[1] == '"' then q == Closed(['\\'], more)
        else q == Before(EscapeTaken(value[1]), ReadDouble(more))
  {
    hide ReadDouble, EscapeQuotes;
    if |value| == 1 {
      assert value == ['\\'];
      BackslashAlone(end);
    } else {
      assert value == ['\\', value[1]] + value[2..];
      if value[1] == '"' {
        BackslashQuote(value[2..], end);
      } else {
        BackslashOther(value[1], value[2..], end);
      }
    }
  }

  lemma ReadNoLongerAfterBackslash(value: string, end: string)
    requires end == "\"" && value != [] && value[0] == '\\'
    ensures var q := ReadDouble(EscapeQuotes(value) + end); q.Closed? ==> |q.text| <= |value|
    decreases |value|, 0
  {
    BackslashCases(value, end);
    if |value| > 1 {
      ReadNoLonger(value[2..], end);
    }
  }

  /** A value that may be printed is read back, whatever follows its closing quote. */
  lemma {:induction false} ReadSafe(value: string, rest: string)
    requires SafeInDouble(value)
    ensures ReadDouble(EscapeQuotes(value) + "\"" + rest) == Closed(value, rest)
    decreases |value|
  {
    hide ReadDouble, EscapeQuotes, SafeInDouble;
    var end := "\"" + rest;
    var s := EscapeQuotes(value) + end;
    assert s == EscapeQuotes(value) + "\"" + rest;
    QuotesEnd(rest);
    if value == [] {
      assert s == end;
    } else {
      SafeTail(value);
      EscapeQuotesStep(value);
      var more := EscapeQuotes(value[1..]) + end;
      assert more == EscapeQuotes(value[1..]) + "\"" + rest;
      if value[0] == '"' {
        assert s == ['\\', '"'] + more;
        ReadEscaped('"', more);
        ReadSafe(value[1..], rest);
        assert value == ['"'] + value[1..];
      } else if value[0] != '\\' {
        assert s == [value[0]] + more;
        ReadPlain(value[0], more);
        ReadSafe(value[1..], rest);
        assert value == [value[0]] + value[1..];
      } else {
        SafeTail(value[1..]);
        assert value[1..][1..] == value[2..];
        BackslashCases(value, end);
        assert EscapeQuotes(value[2..]) + end == EscapeQuotes(value[2..]) + "\"" + rest;
        ReadSafe(value[2..], rest);
        assert value == ['\\', value[1]] + value[2..];
      }
    }
  }

  /** A value that is not safe is never read back from its own word. */
  lemma {:induction false} ReadUnsafe(value: string)
    requires !SafeInDouble(value)
    ensures ReadDouble(EscapeQuotes(value) + "\"") != Closed(value, "")
    decreases |value|
  {
    var end := "\"";
    var s := EscapeQuotes(value) + end;
    SafeTail(value);
    EscapeQuotesStep(value);
    var more := EscapeQuotes(value[1..]) + end;
    if value[0] == '"' {
      assert s == ['\\', '"'] + more;
      ReadEscaped('"', more);
      ReadUnsafe(value[1..]);
      BeforeTail(value, ['"'], value[1..], ReadDouble(more));
    } else if value[0] != '\\' {
      assert s == [value[0]] + more;
      if !IsExpansion(value[0]) {
        ReadPlain(value[0], more);
        ReadUnsafe(value[1..]);
        BeforeTail(value, [value[0]], value[1..], ReadDouble(more));
      }
    } else {
      ReadUnsafeAfterBackslash(value);
    }
  }

  lemma BeforeTail(value: string, prefix: string, tail: string, q: Quoted)
    requires value == prefix + tail && q != Closed(tail, "")
    ensures Before(prefix, q) != Closed(value, "")
  {
    if q.Closed? && prefix + q.text == prefix + tail {
      assert q.text == (prefix + q.text)[|prefix|..] == (prefix + tail)[|prefix|..] == tail;
    }
  }

  lemma ReadUnsafeAfterBackslash(value: string)
    requires !SafeInDouble(value) && value[0] == '\\'
    ensures ReadDouble(EscapeQuotes(value) + "\"") != Closed(value, "")
    decreases |value|, 0
  {
    BackslashCases(value, "\"");
    if |value| > 1 {
      var more := EscapeQuotes(value[2..]) + "\"";
      ReadNoLonger(value[2..], "\"");
      if value[1] != '\n' && !IsEscapedInDouble(value[1]) {
        SafeTail(value);
        SafeTail(value[1..]);
        assert value[1..][1..] == value[2..] && SafeAt(value, 0) && SafeAt(value[1..], 0);
        ReadUnsafe(value[2..]);
        BeforeTail(value, ['\\', value[1]], value[2..], ReadDouble(more));
      }
    }
  }

  // ---------- a word that ends too early ----------

  function Count(s: string, c: char): nat {
    if s == [] then 0 else (if s[0] == c then 1 else 0) + Count(s[1..], c)
  }

  lemma {:induction false} CountAppend(a: string, b: string, c: char)
    ensures Count(a + b, c) == Count(a, c) + Count(b, c)
  {
    if a == [] {
      assert a + b == b;
    } else {
      assert (a + b)[1..] == a[1..] + b;
      CountAppend(a[1..], b, c);
    }
  }

  /** How many characters other than double quotes a text holds. */
  function Plain(s: string): nat {
    if s == [] then 0 else (if s[0] == '"' then 0 else 1) + Plain(s[1..])
  }

  lemma {:induction false} EscapedCounts(value: string, rest: string)
    ensures Plain(EscapeQuotes(value) + ("\"" + rest)) == |value| + Plain(rest)
    ensures Count(EscapeQuotes(value) + ("\"" + rest), '\'') == Count(value, '\'') + Count(rest, '\'')
    decreases |value|
  {
    var s := EscapeQuotes(value) + ("\"" + rest);
    if value == [] {
      assert s == "\"" + rest && s[1..] == rest;
    } else {
      EscapeQuotesStep(value);
      EscapedCounts(value[1..], rest);
      var more := EscapeQuotes(value[1..]) + ("\"" + rest);
      if value[0] == '"' {
        assert s == ['\\', '"'] + more && s[1..] == ['"'] + more && s[1..][1..] == more;
      } else {
        assert s == [value[0]] + more && s[1..] == more;
      }
    }
  }

  /** Too short to be the value: it holds at most `a` single quotes, and either fewer than `a` or fewer
      than `n` characters. `pending` counts a backslash that may still become part of it. */
  predicate TooShort(text: string, pending: nat, a: nat, n: nat) {
    Count(text, '\'') <= a && (Count(text, '\'') < a || |text| + pending < n)
  }

  predicate HoldsTooShort(env: Env, key: string, a: nat, n: nat) {
    key in env && TooShort(env[key], 0, a, n)
  }

  /** What was read for `key`, or is being read for it, is too short. */
  predicate StaysShort(s: Shell, key: string, a: nat, n: nat) {
    match s
    case Between(env) => HoldsTooShort(env, key, a, n)
    case Name(env, _) => HoldsTooShort(env, key, a, n)
    case Word(env, name, text) => if name == key then TooShort(text, 0, a, n) else HoldsTooShort(env, key, a, n)
    case WordEscape(env, name, text) => if name == key then TooShort(text, 1, a, n) else HoldsTooShort(env, key, a, n)
    case Single(env, name, text) => if name == key then Count(text, '\'') < a else HoldsTooShort(env, key, a, n)
    case Double(env, name, text) => if name == key then TooShort(text, 0, a, n) else HoldsTooShort(env, key, a, n)
    case DoubleEscape(env, name, text) => if name == key then TooShort(text, 1, a, n) else HoldsTooShort(env, key, a, n)
    case Command(_, _) => true
    case Unsupported => true
  }

  lemma CountOneMore(text: string, c: char)
    ensures Count(text + [c], '\'') == Count(text, '\'') + (if c == '\'' then 1 else 0)
    ensures Count(text + ['\\', c], '\'') == Count(text, '\'') + (if c == '\'' then 1 else 0)
  {
    CountAppend(text, [c], '\'');
    CountAppend(text, ['\\', c], '\'');
    assert ['\\', c][1..] == [c] && [c][1..] == [];
  }

  /** Opening single quotes costs a single quote for good; a double quote costs itself or the backslash
      before it. So one character never makes up for what is missing. */
  lemma StepStaysShort(s: Shell, key: string, a: nat, n: nat, c: char)
    requires StaysShort(s, key, a, n)
    ensures StaysShort(Step(s, c), key, a + (if c == '\'' then 1 else 0), n + (if c == '"' then 0 else 1))
  {
    hide Count;
    assert Count("", '\'') == 0 by {
      CountNone();
    }
    if s.Word? || s.WordEscape? || s.Single? || s.Double? || s.DoubleEscape? {
      CountOneMore(s.text, c);
    }
  }

  lemma CountNone()
    ensures Count("", '\'') == 0
  {
  }

  lemma {:induction false} RunStaysShort(s: Shell, key: string, a: nat, n: nat, input: string)
    requires StaysShort(s, key, a, n)
    ensures StaysShort(Run(s, input), key, a + Count(input, '\''), n + Plain(input))
    decreases |input|
  {
    hide StaysShort, Step;
    if input != [] {
      var c := input[0];
      StepStaysShort(s, key, a, n, c);
      RunStaysShort(Step(s, c), key, a + (if c == '\'' then 1 else 0), n + (if c == '"' then 0 else 1), input[1..]);
    }
  }

  /** A text that ends too early is short by a backslash and a double quote, counting what follows it. */
  predicate EndsShort(q: Quoted, value: string) {
    q.Closed? && q.rest != "" ==>
      && |q.text| + 1 + Plain(q.rest) <= |value|
      && Count(q.text, '\'') + Count(q.rest, '\'') <= Count(value, '\'')
  }

  lemma BeforeEndsShort(taken: string, q: Quoted, consumed: string, tail: string)
    requires EndsShort(q, tail) && |taken| <= |consumed| && Count(taken, '\'') <= Count(consumed, '\'')
    ensures EndsShort(Before(taken, q), consumed + tail)
  {
    CountAppend(consumed, tail, '\'');
    if q.Closed? {
      CountAppend(taken, q.text, '\'');
    }
  }

  lemma {:induction false} EarlyEndLosesText(value: string)
    ensures EndsShort(ReadDouble(EscapeQuotes(value) + "\""), value)
    decreases |value|
  {
    hide ReadDouble, EscapeQuotes, Count, Plain, EndsShort;
    var end := "\"";
    var s := EscapeQuotes(value) + end;
    if value == [] {
      assert EndsShort(ReadDouble(s), value) by {
        QuotesEnd("");
        assert s == end + "";
        NothingFollows("", value);
      }
    } else {
      EscapeQuotesStep(value);
      var more := EscapeQuotes(value[1..]) + end;
      assert value == [value[0]] + value[1..];
      EarlyEndLosesText(value[1..]);
      BeforeEndsShort([value[0]], ReadDouble(more), [value[0]], value[1..]);
      if value[0] == '"' {
        assert s == ['\\', '"'] + more;
        ReadEscaped('"', more);
      } else if value[0] != '\\' {
        assert s == [value[0]] + more;
        if IsExpansion(value[0]) {
          assert EndsShort(ReadDouble(s), value) by {
            ExpansionEndsShort(value[0], more, value);
          }
        } else {
          ReadPlain(value[0], more);
        }
      } else {
        EarlyEndAfterBackslash(value);
      }
    }
  }

  lemma NothingFollows(text: string, value: string)
    ensures EndsShort(Closed(text, ""), value) && EndsShort(Unclosed, value)
  {
  }

  lemma ExpansionEndsShort(c: char, s: string, value: string)
    requires IsExpansion(c)
    ensures EndsShort(ReadDouble([c] + s), value)
  {
  }

  lemma EarlyEndAfterBackslash(value: string)
    requires value != [] && value[0] == '\\'
    ensures EndsShort(ReadDouble(EscapeQuotes(value) + "\""), value)
    decreases |value|, 0
  {
    hide ReadDouble, EscapeQuotes, Count, Plain;
    BackslashCases(value, "\"");
    if |value| == 1 {
      UnclosedAtEnd();
    } else {
      var tail := value[2..];
      assert value == ['\\', value[1]] + tail;
      CountOneMore("", value[1]);
      CountNone();
      assert "" + ['\\', value[1]] == ['\\', value[1]] && "" + [value[1]] == [value[1]];
      if value[1] == '"' {
        EscapedCounts(tail, "");
        assert EscapeQuotes(tail) + ("\"" + "") == EscapeQuotes(tail) + "\"";
        PlainNone();
        CountAppend(['\\', value[1]], tail, '\'');
        CountOneMore("", '\\');
        assert "" + ['\\'] == ['\\'];
      } else {
        EarlyEndLosesText(tail);
        BeforeEndsShort(EscapeTaken(value[1]), ReadDouble(EscapeQuotes(tail) + "\""), ['\\', value[1]], tail);
      }
    }
  }

  lemma PlainNone()
    ensures Plain("") == 0
  {
  }

  lemma UnclosedAtEnd()
    ensures ReadDouble("\""[1..]) == Unclosed
  {
  }

  /** Without a closing quote the reader is left inside the quotes. */
  lemma {:induction false} RunUnclosed(env: Env, name: string, text: string, s: string)
    requires ReadDouble(s) == Unclosed
    ensures var end := Run(Double(env, name, text), s); end.Double? || end.DoubleEscape?
    decreases |s|
  {
    if s != [] {
      if s[0] != '\\' {
        RunUnclosed(env, name, text + [s[0]], s[1..]);
      } else if |s| == 1 {
        assert Run(Double(env, name, text), s) == Run(DoubleEscape(env, name, text), s[1..]);
      } else {
        var next := Step(DoubleEscape(env, name, text), s[1]);
        assert s[1..][1..] == s[2..];
        assert Run(Double(env, name, text), s) == Run(DoubleEscape(env, name, text), s[1..]) == Run(next, s[2..]);
        RunUnclosed(env, name, next.text, s[2..]);
      }
    }
  }

  lemma ShortIsNotValue(s: Shell, key: string, value: string, env: Env)
    requires StaysShort(s, key, Count(value, '\''), |value|)
    ensures Run(s, " ") != Between(env[key := value])
  {
    assert env[key := value][key] == value;
    assert Step(s, ' ').Between? ==> HoldsTooShort(Step(s, ' ').env, key, Count(value, '\''), |value|);
    hide Count;
    assert Run(s, " ") == Step(s, ' ') by {
      RunFirst(s, ' ', "");
      RunNone(Step(s, ' '));
      assert [' '] + "" == " ";
    }
  }

  /** When the word ends early, what the reader makes of the rest never adds up to the value. */
  lemma EarlyEndIsNotValue(env: Env, key: string, value: string)
    requires ReadDouble(EscapeQuotes(value) + "\"").Closed? && ReadDouble(EscapeQuotes(value) + "\"").rest != ""
    ensures Run(Run(Double(env, key, ""), EscapeQuotes(value) + "\""), " ") != Between(env[key := value])
  {
    hide Run, ReadDouble, EscapeQuotes, Count, Plain;
    var q := ReadDouble(EscapeQuotes(value) + "\"");
    EarlyEndLosesText(value);
    RunDouble(env, key, "", EscapeQuotes(value) + "\"");
    assert "" + q.text == q.text;
    var a, n := Count(value, '\'') - Count(q.rest, '\''), |value| - Plain(q.rest);
    RunStaysShort(Word(env, key, q.text), key, a, n, q.rest);
    ShortIsNotValue(Run(Word(env, key, q.text), q.rest), key, value, env);
  }

  lemma UnsafeIsLost(env: Env, key: string, value: string)
    requires !SafeInDouble(value)
    ensures Run(Run(Double(env, key, ""), EscapeQuotes(value) + "\""), " ") != Between(env[key := value])
  {
    var body := EscapeQuotes(value) + "\"";
    var q := ReadDouble(body);
    hide Run, ReadDouble, EscapeQuotes, SafeInDouble;
    match q {
      case Closed(text, rest) =>
        if rest != "" {
          EarlyEndIsNotValue(env, key, value);
        } else {
          ReadUnsafe(value);
          RunDouble(env, key, "", body);
          assert "" + text == text;
          RunNone(Word(env, key, text));
          RunBlank(env, key, text);
          assert env[key := text][key] != env[key := value][key];
        }
      case Unclosed =>
        RunUnclosed(env, key, "", body);
        StillQuoted(Run(Double(env, key, ""), body));
      case Expands =>
        RunExpands(env, key, "", body);
        RunUnsupported(" ");
    }
  }

  lemma StillQuoted(s: Shell)
    requires s.Double? || s.DoubleEscape?
    ensures !Run(s, " ").Between?
  {
    assert Run(s, " ") == Step(s, ' ') by {
      RunFirst(s, ' ', "");
      RunNone(Step(s, ' '));
      assert [' '] + "" == " ";
    }
  }

  /** The assignment printed for mycnf_dict sets the name to the value exactly when the value holds no
      dollar sign, no backtick, and no backslash that the shell would take for an escape. */
  lemma DoubleQuotedRoundTripIff(env: Env, value: string)
    ensures Run(Between(env), Printed(MYCNF_DICT, value)) == Between(env[MYCNF_DICT := value]) <==> SafeInDouble(value)
  {
    var body := EscapeQuotes(value);
    assert IsName(MYCNF_DICT);
    hide Run, ReadDouble, EscapeQuotes, IsName, SafeInDouble;
    if SafeInDouble(value) {
      ReadSafe(value, " ");
      assert body + "\"" + " " == body + ("\"" + " ");
      DoubleSets(env, MYCNF_DICT, body, value);
    } else {
      DoubleShape(env, MYCNF_DICT, body);
      assert body + ("\"" + " ") == (body + "\"") + " ";
      RunAppend(Double(env, MYCNF_DICT, ""), body + "\"", " ");
      UnsafeIsLost(env, MYCNF_DICT, value);
    }
  }

  // ---------- the parameters' JSON text ----------

  predicate HasExpansion(s: string) {
    exists i :: 0 <= i < |s| && IsExpansion(s[i])
  }

  lemma HasExpansionTail(s: string)
    requires s != []
    ensures HasExpansion(s) <==> IsExpansion(s[0]) || HasExpansion(s[1..])
  {
  }

  lemma EscapeParamsStep(json: string)
    requires json != []
    ensures EscapeParams(json) ==
            (if json[0] == '\\' || json[0] == '"' then ['\\', json[0]] else [json[0]]) + EscapeParams(json[1..])
  {
    var more := ReplaceAll(json[1..], '\\', "\\\\");
    if json[0] == '\\' {
      var tail := ['\\'] + more;
      assert ReplaceAll(json, '\\', "\\\\") == ['\\'] + tail;
      ReplaceFirst('\\', tail, '"', "\\\"");
      ReplaceFirst('\\', more, '"', "\\\"");
    } else {
      assert ReplaceAll(json, '\\', "\\\\") == [json[0]] + more;
      ReplaceFirst(json[0], more, '"', "\\\"");
    }
  }

  lemma ReplaceFirst(c: char, s: string, old_: char, new_: string)
    ensures ReplaceAll([c] + s, old_, new_) == (if c == old_ then new_ else [c]) + ReplaceAll(s, old_, new_)
  {
  }

  /** The escaped text never ends its word early and is read back whole, unless it holds an expansion. */
  lemma {:induction false} ReadParams(json: string, rest: string)
    ensures ReadDouble(EscapeParams(json) + ("\"" + rest)) == if HasExpansion(json) then Expands else Closed(json, rest)
    decreases |json|
  {
    hide EscapeParams, ReadDouble, HasExpansion;
    var end := "\"" + rest;
    ParamsEnd(rest);
    if json == [] {
      assert EscapeParams(json) + end == end;
    } else {
      var more := EscapeParams(json[1..]) + end;
      ReadParams(json[1..], rest);
      EscapeParamsStep(json);
      HasExpansionTail(json);
      assert json == [json[0]] + json[1..];
      ReadParamsStep(json[0], more, EscapeParams(json) + end);
    }
  }

  lemma ParamsEnd(rest: string)
    ensures EscapeParams([]) == [] && !HasExpansion([])
    ensures ReadDouble("\"" + rest) == Closed("", rest)
  {
  }

  lemma ReadParamsStep(c: char, more: string, s: string)
    requires s == (if c == '\\' || c == '"' then ['\\', c] else [c]) + more
    ensures ReadDouble(s) == if IsExpansion(c) then Expands else Before([c], ReadDouble(more))
  {
  }

  lemma {:induction false} RunExpands(env: Env, name: string, text: string, s: string)
    requires ReadDouble(s) == Expands
    ensures Run(Double(env, name, text), s) == Unsupported
    decreases |s|
  {
    if IsExpansion(s[0]) {
      RunUnsupported(s[1..]);
    } else if s[0] != '\\' {
      RunExpands(env, name, text + [s[0]], s[1..]);
    } else {
      var next := Step(DoubleEscape(env, name, text), s[1]);
      assert s[1..][1..] == s[2..];
      assert Run(Double(env, name, text), s) == Run(DoubleEscape(env, name, text), s[1..]) == Run(next, s[2..]);
      RunExpands(env, name, next.text, s[2..]);
    }
  }

  lemma {:induction false} RunUnsupported(s: string)
    ensures Run(Unsupported, s) == Unsupported
    decreases |s|
  {
    if s != [] {
      RunUnsupported(s[1..]);
    }
  }

  lemma DoubleShape(env: Env, key: string, body: string)
    requires IsName(key)
    ensures Run(Between(env), key + "=" + "\"" + body + "\"" + " ") == Run(Double(env, key, ""), body + ("\"" + " "))
  {
    var rest := "\"" + (body + ("\"" + " "));
    assert key + "=" + "\"" + body + "\"" + " " == key + "=" + rest;
    AfterName(env, key, rest);
    assert rest[0] == '"' && rest[1..] == body + ("\"" + " ");
  }

  lemma RunBlank(env: Env, key: string, text: string)
    ensures Run(Word(env, key, text), " ") == Between(env[key := text])
  {
  }

  lemma DoubleSets(env: Env, key: string, body: string, value: string)
    requires IsName(key) && ReadDouble(body + ("\"" + " ")) == Closed(value, " ")
    ensures Run(Between(env), key + "=" + "\"" + body + "\"" + " ") == Between(env[key := value])
  {
    hide Run, ReadDouble, IsName;
    DoubleShape(env, key, body);
    RunDouble(env, key, "", body + ("\"" + " "));
    assert "" + value == value;
    RunBlank(env, key, value);
  }

  /** The printed parameters, appended to any printed environment, set `params` to the JSON text
      exactly when it holds no dollar sign and no backtick. */
  lemma ParamsRoundTripIff(env: Env, commonEnv: string, before: Env, json: string)
    requires Run(Between(env), commonEnv) == Between(before)
    ensures Run(Between(env), commonEnv + ("params=" + "\"" + EscapeParams(json) + "\"" + " ")) ==
              Between(before["params" := json])
            <==> !HasExpansion(json)
  {
    var body := EscapeParams(json);
    var printed := "params=" + "\"" + body + "\"" + " ";
    assert IsName("params");
    hide Run, ReadDouble, IsName, EscapeParams, HasExpansion;
    RunAppend(Between(env), commonEnv, printed);
    ReadParams(json, " ");
    assert printed == "params" + "=" + "\"" + body + "\"" + " ";
    if HasExpansion(json) {
      DoubleShape(before, "params", body);
      RunExpands(before, "params", "", body + ("\"" + " "));
    } else {
      DoubleSets(before, "params", body, json);
    }
  }

  // ---------- whole environments ----------

  predicate CanPrint(key: string, value: string) {
    IsName(key) && (if key == MYCNF_DICT then SafeInDouble(value) else '\'' !in value)
  }

  predicate Printable(envMap: Env) {
    forall key :: key in envMap ==> CanPrint(key, envMap[key])
  }

  lemma PrintedSets(env: Env, key: string, value: string)
    requires CanPrint(key, value)
    ensures Run(Between(env), Printed(key, value)) == Between(env[key := value])
  {
    if key == MYCNF_DICT {
      DoubleQuotedRoundTripIff(env, value);
    } else {
      SingleQuotedRoundTripIff(env, key, value);
    }
  }

  /** A map can be printed exactly when every assignment, read on its own, sets its name to its value. */
  lemma PrintableIff(envMap: Env)
    requires forall key :: key in envMap ==> IsName(key)
    ensures Printable(envMap) <==>
            forall key :: key in envMap ==>
              Run(Between(map[]), Printed(key, envMap[key])) == Between(map[key := envMap[key]])
  {
    hide Run, Printed, SafeInDouble;
    forall key | key in envMap
      ensures CanPrint(key, envMap[key]) <==>
              Run(Between(map[]), Printed(key, envMap[key])) == Between(map[key := envMap[key]])
    {
      var none: Env := map[];
      assert none[key := envMap[key]] == map[key := envMap[key]];
      if key == MYCNF_DICT {
        DoubleQuotedRoundTripIff(none, envMap[key]);
      } else {
        SingleQuotedRoundTripIff(none, key, envMap[key]);
      }
    }
  }

  function Picked(order: seq<string>, envMap: Env): Env
    requires forall i :: 0 <= i < |order| ==> order[i] in envMap
  {
    map key | key in order :: envMap[key]
  }

  lemma PickedNone(envMap: Env)
    ensures Picked([], envMap) == map[]
  {
  }

  lemma PickedGrows(order: seq<string>, key: string, envMap: Env, env: Env)
    requires key in envMap && forall i :: 0 <= i < |order| ==> order[i] in envMap
    ensures (env + Picked(order, envMap))[key := envMap[key]] == env + Picked(order + [key], envMap)
  {
  }

  lemma {:induction false} PrintedAllSets(order: seq<string>, envMap: Env, env: Env)
    requires Printable(envMap) && forall i :: 0 <= i < |order| ==> order[i] in envMap
    ensures Run(Between(env), PrintedAll(order, envMap)) == Between(env + Picked(order, envMap))
    decreases |order|
  {
    hide Run, Printed, CanPrint, PrintedAll, Picked;
    if order == [] {
      PrintedNone(envMap);
      RunNone(Between(env));
      assert env + Picked([], envMap) == env by {
        PickedNone(envMap);
      }
    } else {
      var front, key := order[..|order| - 1], order[|order| - 1];
      PrintedAllSets(front, envMap, env);
      RunAppend(Between(env), PrintedAll(front, envMap), Printed(key, envMap[key]));
      PrintedSets(env + Picked(front, envMap), key, envMap[key]);
      assert order == front + [key];
      PrintedOneMore(front, key, envMap);
      PickedGrows(front, key, envMap, env);
    }
  }

  lemma RunNone(s: Shell)
    ensures Run(s, "") == s
  {
  }

  /** For every order in which the map is walked: reading what was printed gives the base's
      environment overridden by the map. */
  lemma EnvRoundTrip(order: seq<string>, envMap: Env, baseString: string, env: Env, base: Env)
    requires IsOrder(order, envMap) && Printable(envMap)
    requires Run(Between(env), baseString) == Between(base)
    ensures Run(Between(env), baseString + PrintedAll(order, envMap)) == Between(base + envMap)
  {
    hide Run, PrintedAll, CanPrint;
    RunAppend(Between(env), baseString, PrintedAll(order, envMap));
    PrintedAllSets(order, envMap, base);
    assert Picked(order, envMap) == envMap;
  }

  const INTERPRETER := "python"
  const ENTRY_POINT := "/docker_script/entry_point.py"

  /** The command line handed to `bash -c` runs the interpreter with exactly that environment. */
  lemma CommandRunsWithEnv(envs: string, env: Env)
    requires Run(Between(map[]), envs) == Between(env)
    ensures Run(Between(map[]), envs + (" " + (INTERPRETER + (" " + ENTRY_POINT)))) ==
            Command(env, INTERPRETER + (" " + ENTRY_POINT))
  {
    assert IsName(INTERPRETER);
    CommandRuns(envs, env, INTERPRETER, " " + ENTRY_POINT);
  }

  lemma CommandRuns(envs: string, env: Env, word: string, more: string)
    requires Run(Between(map[]), envs) == Between(env)
    requires IsName(word) && more != [] && more[0] == ' '
    ensures Run(Between(map[]), envs + (" " + (word + more))) == Command(env, word + more)
  {
    assert Step(Between(env), ' ') == Between(env) && Step(Between(env), word[0]) == Name(env, [word[0]]);
    hide Run, Step;
    RunAppend(Between(map[]), envs, " " + (word + more));
    RunFirst(Between(env), ' ', word + more);
    assert word == [word[0]] + word[1..] && word + more == [word[0]] + (word[1..] + more);
    RunFirst(Between(env), word[0], word[1..] + more);
    ReadCommandName(env, [word[0]], word[1..], more);
  }

  lemma RunFirst(s: Shell, c: char, input: string)
    ensures Run(s, [c] + input) == Run(Step(s, c), input)
  {
  }

  lemma {:induction false} ReadCommandName(env: Env, name: string, letters: string, more: string)
    requires forall i :: 0 <= i < |letters| ==> IsNameChar(letters[i])
    requires more != [] && more[0] == ' '
    ensures Run(Name(env, name), letters + more) == Command(env, name + letters + more)
    decreases |letters|
  {
    hide Run;
    if letters == [] {
      assert letters + more == more == [' '] + more[1..] && name + letters + more == name + [' '] + more[1..];
      RunFirst(Name(env, name), ' ', more[1..]);
      ReadCommand(env, name + [' '], more[1..]);
    } else {
      var c, rest := letters[0], letters[1..];
      assert letters + more == [c] + (rest + more);
      assert name + letters + more == name + [c] + rest + more;
      assert Step(Name(env, name), c) == Name(env, name + [c]);
      RunFirst(Name(env, name), c, rest + more);
      ReadCommandName(env, name + [c], rest, more);
    }
  }

  lemma {:induction false} ReadCommand(env: Env, text: string, more: string)
    ensures Run(Command(env, text), more) == Command(env, text + more)
    decreases |more|
  {
    if more == [] {
      assert text + more == text;
    } else {
      assert text + [more[0]] + more[1..] == text + more;
      ReadCommand(env, text + [more[0]], more[1..]);
    }
  }
}
