/** The environment handling of config.py: the KEY=VALUE secrets-file
    parser with set-if-absent loading, and the readers of the variables the
    rest of the program uses. The process environment is passed in as a
    map instead of being read from the global os.environ. */
module Config {
  import opened Text

  type Env = map<string, string>

  const AuthModeVar := "MS_AUTH_MODE"
  const ClientSecretVar := "MS_CLIENT_SECRET"
  const DelegatedScopesVar := "MS_DELEGATED_SCOPES"
  const InternalDomainsVar := "INTERNAL_EMAIL_DOMAINS"
  const DefaultDelegatedScopes: seq<string> := ["Mail.ReadWrite"]
  const ExportPrefix := "export "

  /** os.getenv(name, default) */
  function Get(env: Env, name: string, default: string): string {
    if name in env then env[name] else default
  }

  /** A variable that is set to a non-empty value (os.getenv(name) is truthy) */
  predicate IsSet(env: Env, name: string) {
    name in env && env[name] != []
  }

  // --------------------------------------------------------- secrets lines

  datatype EnvLine = Skip | Assign(key: string, value: string)

  predicate IsQuote(c: char) {
    c == '\'' || c == '"'
  }

  predicate AllQuotes(s: string) {
    forall i :: 0 <= i < |s| ==> IsQuote(s[i])
  }

  /** s.strip("'\""): every quote character, single or double, removed
      from both ends. The result is what lies between a run of quotes in
      front and a run of quotes behind, and it neither starts nor ends with
      a quote. */
  function StripQuotes(s: string): (r: string)
    ensures |r| <= |s|
    ensures r == [] || (!IsQuote(r[0]) && !IsQuote(r[|r| - 1]))
  {
    RStripQuotes(LStripQuotes(s))
  }

  /** Only quotes are removed: the value sits between a run of quotes in
      front and a run of quotes behind. */
  lemma StripQuotesRuns(s: string)
    ensures exists a :: QuotedAt(s, StripQuotes(s), a)
  {
    var t := LStripQuotes(s);
    QuotesAround(s, t, RStripQuotes(t));
    assert StripQuotes(s) == RStripQuotes(t);
    assert QuotedAt(s, StripQuotes(s), |s| - |t|);
  }

  /** r sits at offset a of s, with only quotes before and after it. */
  predicate QuotedAt(s: string, r: string, a: int) {
    0 <= a <= |s| - |r| && s[a..a + |r|] == r && AllQuotes(s[..a]) && AllQuotes(s[a + |r|..])
  }

  lemma QuotesAround(s: string, t: string, r: string)
    requires |t| <= |s| && s[|s| - |t|..] == t && forall i :: 0 <= i < |s| - |t| ==> IsQuote(s[i])
    requires |r| <= |t| && t[..|r|] == r && forall i :: |r| <= i < |t| ==> IsQuote(t[i])
    ensures QuotedAt(s, r, |s| - |t|)
  {
    var a := |s| - |t|;
    assert s[a..a + |r|] == t[..|r|];
    var back := s[a + |r|..];
    forall i | 0 <= i < |back| ensures IsQuote(back[i]) {
      assert back[i] == t[|r| + i];
    }
    assert AllQuotes(s[..a]);
  }

  /** The leading run of quotes removed: only quotes go, and what is left
      does not start with one. */
  function LStripQuotes(s: string): (r: string)
    ensures |r| <= |s| && s[|s| - |r|..] == r
    ensures forall i :: 0 <= i < |s| - |r| ==> IsQuote(s[i])
    ensures r == [] || !IsQuote(r[0])
  {
    if s != [] && IsQuote(s[0]) then
      var r := LStripQuotes(s[1..]);
      forall i | 1 <= i < |s| - |r| ensures IsQuote(s[i]) {
        assert s[i] == s[1..][i - 1];
      }
      r
    else s
  }

  /** The trailing run of quotes removed: only quotes go, and what is left
      does not end with one. */
  function RStripQuotes(s: string): (r: string)
    ensures |r| <= |s| && s[..|r|] == r
    ensures forall i :: |r| <= i < |s| ==> IsQuote(s[i])
    ensures r == [] || !IsQuote(r[|r| - 1])
  {
    if s != [] && IsQuote(s[|s| - 1]) then RStripQuotes(s[..|s| - 1]) else s
  }

  /** One line of the secrets file, as the loop body of load_env_file reads
      it: blank lines, comments and lines without '=' are skipped; the key
      is the stripped text before the first '=' with one leading "export "
      removed, the value the stripped text after it with quotes removed
      from both ends. */
  function ParseEnvLine(raw: string): (r: EnvLine)
    ensures r.Assign? <==> var line := Strip(raw); line != [] && line[0] != '#' && '=' in line
    ensures r.Assign? ==> Stripped(r.key) && '=' !in r.key
    ensures r.Assign? ==> r.value == [] || (!IsQuote(r.value[0]) && !IsQuote(r.value[|r.value| - 1]))
  {
    var line := Strip(raw);
    if line == [] || line[0] == '#' then Skip
    else
      var i := IndexOf(line, '=');
      if i == |line| then
        assert '=' !in line;
        Skip
      else
        var key := ParseKey(line[..i]);
        Assign(key, StripQuotes(Strip(line[i + 1..])))
  }

  /** key.strip(), then one "export " prefix removed and stripped again */
  function ParseKey(text: string): (r: string)
    ensures Stripped(r) && IsInfix(r, text)
    ensures !StartsWith(Strip(text), ExportPrefix) ==> r == Strip(text)
  {
    var key := Strip(text);
    StripFacts(text);
    if StartsWith(key, ExportPrefix) then
      StripFacts(key[7..]);
      var r := Strip(key[7..]);
      InfixTrans(r, key[7..], key);
      InfixTrans(r, key, text);
      r
    else key
  }

  /** A line splits at its first '=': the key comes from the text before
      it and the value from the text after it, which may hold more '='. */
  lemma ParseSplit(raw: string, keyText: string, valueText: string)
    requires Strip(raw) == keyText + ['='] + valueText
    requires '=' !in keyText && (keyText == [] || keyText[0] != '#')
    ensures ParseEnvLine(raw) == Assign(ParseKey(keyText), StripQuotes(Strip(valueText)))
  {
    var line := Strip(raw);
    IndexOfPast(keyText, '=', valueText);
    assert line[..|keyText|] == keyText;
    assert line[|keyText| + 1..] == valueText;
  }

  /** One "export " in front of a stripped name is dropped. */
  lemma ExportedKey(text: string, name: string)
    requires name != [] && Stripped(name) && Strip(text) == ExportPrefix + name
    ensures ParseKey(text) == name
  {
    var key := ExportPrefix + name;
    assert StartsWith(key, ExportPrefix);
    assert key[7..] == name;
    StripOfStripped(name);
  }

  /** Runs of quote characters of either kind around a value are removed,
      and the value inside them is kept whole. */
  lemma QuotedValue(front: string, v: string, back: string)
    requires AllQuotes(front) && AllQuotes(back)
    requires v == [] || (!IsQuote(v[0]) && !IsQuote(v[|v| - 1]))
    ensures StripQuotes(front + v + back) == v
  {
    if v == [] {
      assert front + v + back == (front + back) + [];
      LStripRun(front + back, []);
      assert LStripQuotes(front + back) == [];
    } else {
      assert front + v + back == front + (v + back);
      LStripRun(front, v + back);
      RStripRun(v, back);
    }
  }

  lemma {:induction false} LStripRun(front: string, rest: string)
    requires AllQuotes(front) && (rest == [] || !IsQuote(rest[0]))
    ensures LStripQuotes(front + rest) == rest
  {
    if front == [] {
      assert front + rest == rest;
    } else {
      assert (front + rest)[1..] == front[1..] + rest;
      LStripRun(front[1..], rest);
    }
  }

  lemma {:induction false} RStripRun(rest: string, back: string)
    requires AllQuotes(back) && (rest == [] || !IsQuote(rest[|rest| - 1]))
    ensures RStripQuotes(rest + back) == rest
    decreases |back|
  {
    if back == [] {
      assert rest + back == rest;
    } else {
      var s := rest + back;
      assert s[|s| - 1] == back[|back| - 1];
      assert s[..|s| - 1] == rest + back[..|back| - 1];
      RStripRun(rest, back[..|back| - 1]);
    }
  }

  /** An export line with padding around '=' and a quoted value:
      `export API_KEY = "abc"` sets API_KEY to abc. */
  lemma ExportLine(raw: string)
    requires raw == "export API_KEY = \"abc\"\n"
    ensures ParseEnvLine(raw) == Assign("API_KEY", "abc")
  {
    var keyText, valueText := "export API_KEY ", " \"abc\"";
    StripExportLine(raw, keyText, valueText);
    ParseSplit(raw, keyText, valueText);
    ExportKeyName(keyText);
    ExportValue(valueText);
  }

  lemma ExportKeyName(text: string)
    requires text == "export API_KEY "
    ensures ParseKey(text) == "API_KEY"
  {
    ExportKeyText(text);
    ExportedKey(text, "API_KEY");
  }

  lemma ExportValue(text: string)
    requires text == " \"abc\""
    ensures StripQuotes(Strip(text)) == "abc"
  {
    QuotedText(text);
    QuotedValue(['"'], "abc", ['"']);
  }

  lemma StripExportLine(raw: string, keyText: string, valueText: string)
    requires raw == "export API_KEY = \"abc\"\n"
    requires keyText == "export API_KEY " && valueText == " \"abc\""
    ensures Strip(raw) == keyText + ['='] + valueText
    ensures '=' !in keyText && keyText[0] != '#'
  {
    var line := keyText + ['='] + valueText;
    assert raw[..|raw| - 1] == line;
    assert RStrip(raw) == line;
    LStripNonSpaceStart(line);
  }

  lemma ExportKeyText(text: string)
    requires text == "export API_KEY "
    ensures Strip(text) == ExportPrefix + "API_KEY"
  {
    var key := "export API_KEY";
    assert RStrip(text) == RStrip(text[..|text| - 1]);
    assert text[..|text| - 1] == key;
    LStripNonSpaceStart(key);
  }

  lemma QuotedText(text: string)
    requires text == " \"abc\""
    ensures Strip(text) == ['"'] + "abc" + ['"']
  {
    assert LStrip(text) == LStrip(text[1..]);
    assert text[1..] == ['"'] + "abc" + ['"'];
  }

  /** A plain line KEY=VALUE, with nothing around either part to strip or
      unquote, sets KEY to VALUE; VALUE may hold more '='. */
  lemma PlainLine(key: string, value: string)
    requires key != [] && Stripped(key) && '=' !in key && key[0] != '#' && !StartsWith(key, ExportPrefix)
    requires value != [] && Stripped(value) && !IsQuote(value[0]) && !IsQuote(value[|value| - 1])
    ensures ParseEnvLine(key + "=" + value) == Assign(key, value)
  {
    var raw := key + "=" + value;
    assert raw[0] == key[0] && raw[|raw| - 1] == value[|value| - 1];
    StripOfStripped(raw);
    assert raw == key + ['='] + value;
    ParseSplit(raw, key, value);
    StripOfStripped(key);
    StripOfStripped(value);
  }

  /** Only the first '=' separates: "A=b=c" sets A to "b=c". */
  lemma FirstEquals(raw: string, key: string, value: string)
    requires key == "A" && value == "b=c" && raw == key + "=" + value
    ensures ParseEnvLine(raw) == Assign("A", "b=c")
  {
    PlainLine(key, value);
  }

  // --------------------------------------------------------- loading

  /** What loading leaves behind: the environment, and the exception that
      stopped the loop, if any (entries set before it stay set). */
  datatype Loaded = Loaded(env: Env, raised: Option<Failure>)

  /** The process environment refuses an empty name and NUL characters. */
  predicate Settable(key: string, value: string) {
    key != [] && '\0' !in key && '\0' !in value
  }

  /** What os.environ raises for a refused pair on POSIX: encoding the key
      and the value rejects a NUL with ValueError before putenv runs; an
      empty name then reaches setenv(3), whose EINVAL becomes OSError. */
  function SetFailure(key: string, value: string): (f: Failure)
    requires !Settable(key, value)
    ensures f == ValueError || f == OSError
    ensures f == OSError <==> key == [] && '\0' !in value
  {
    if '\0' in key || '\0' in value then ValueError else OSError
  }

  /** os.environ.setdefault(key, value) */
  function SetDefault(env: Env, key: string, value: string): (r: Result<Env>)
    ensures r.Err? <==> key !in env && !Settable(key, value)
    ensures r.Ok? ==> r.value.Keys == env.Keys + {key} && r.value[key] == if key in env then env[key] else value
    ensures r.Ok? ==> forall k :: k in env ==> r.value[k] == env[k]
  {
    if key in env then Ok(env)
    else if !Settable(key, value) then Err(SetFailure(key, value))
    else Ok(env[key := value])
  }

  /** The loop of load_env_file over the lines of the file. */
  function LoadLines(env: Env, lines: seq<string>): (r: Loaded)
    ensures env.Keys <= r.env.Keys
    decreases |lines|
  {
    if lines == [] then Loaded(env, None)
    else match ParseEnvLine(lines[0])
      case Skip => LoadLines(env, lines[1..])
      case Assign(key, value) =>
        match SetDefault(env, key, value)
        case Err(f) => Loaded(env, Some(f))
        case Ok(next) => LoadLines(next, lines[1..])
  }

  /** load_env_file with the file's lines as a parameter; None stands for a
      file that does not exist, which leaves the environment alone. */
  function LoadEnv(env: Env, file: Option<seq<string>>): Loaded {
    match file
    case None => Loaded(env, None)
    case Some(lines) => LoadLines(env, lines)
  }

  method LoadEnvFile(env: Env, file: Option<seq<string>>) returns (loaded: Loaded)
    ensures loaded == LoadEnv(env, file)
  {
    if file.None? {
      return Loaded(env, None);
    }
    var lines := file.value;
    var current := env;
    for k := 0 to |lines|
      invariant LoadLines(env, lines) == LoadLines(current, lines[k..])
    {
      assert lines[k..][1..] == lines[k + 1..];
      var parsed := ParseEnvLine(lines[k]);
      if parsed.Assign? {
        if parsed.key !in current {
          if !Settable(parsed.key, parsed.value) {
            return Loaded(current, Some(SetFailure(parsed.key, parsed.value)));
          }
          current := current[parsed.key := parsed.value];
        }
      }
    }
    return Loaded(current, None);
  }

  /** Loading never changes a variable that is already set ... */
  lemma {:induction false} LoadKeepsExisting(env: Env, lines: seq<string>, key: string)
    requires key in env
    ensures var r := LoadLines(env, lines);
            key in r.env && r.env[key] == env[key]
    decreases |lines|
  {
    if lines != [] {
      match ParseEnvLine(lines[0])
      case Skip => LoadKeepsExisting(env, lines[1..], key);
      case Assign(k, v) =>
        match SetDefault(env, k, v)
        case Err(_) =>
        case Ok(next) => LoadKeepsExisting(next, lines[1..], key);
    }
  }

  /** ... loading two files one after the other is loading their lines
      together ... */
  lemma {:induction false} LoadAppend(env: Env, a: seq<string>, b: seq<string>)
    ensures var first := LoadLines(env, a);
            LoadLines(env, a + b) == if first.raised.Some? then first else LoadLines(first.env, b)
    decreases |a|
  {
    if a == [] {
      assert a + b == b;
    } else {
      assert (a + b)[0] == a[0];
      assert (a + b)[1..] == a[1..] + b;
      match ParseEnvLine(a[0])
      case Skip => LoadAppend(env, a[1..], b);
      case Assign(k, v) =>
        match SetDefault(env, k, v)
        case Err(_) =>
        case Ok(next) => LoadAppend(next, a[1..], b);
    }
  }

  /** ... so when a key occurs twice the first occurrence wins. */
  lemma FirstOccurrenceWins(env: Env, a: seq<string>, b: seq<string>, key: string)
    requires LoadLines(env, a).raised.None? && key in LoadLines(env, a).env
    ensures var r := LoadLines(env, a + b);
            key in r.env && r.env[key] == LoadLines(env, a).env[key]
  {
    LoadAppend(env, a, b);
    LoadKeepsExisting(LoadLines(env, a).env, b, key);
  }

  /** Every variable loading adds was assigned by a line of the file with
      exactly that value. */
  lemma {:induction false} LoadOrigin(env: Env, lines: seq<string>, key: string)
    requires var r := LoadLines(env, lines); key in r.env && key !in env
    ensures var r := LoadLines(env, lines);
            exists i :: 0 <= i < |lines| && ParseEnvLine(lines[i]) == Assign(key, r.env[key])
    decreases |lines|
  {
    var r := LoadLines(env, lines);
    assert lines != [];
    var tail := lines[1..];
    match ParseEnvLine(lines[0])
    case Skip =>
      LoadOrigin(env, tail, key);
      OriginShift(lines, key, r.env[key]);
    case Assign(k, v) =>
      match SetDefault(env, k, v)
      case Err(_) =>
      case Ok(next) =>
        if key == k {
          LoadKeepsExisting(next, tail, key);
          assert ParseEnvLine(lines[0]) == Assign(key, r.env[key]);
        } else {
          LoadOrigin(next, tail, key);
          OriginShift(lines, key, r.env[key]);
        }
  }

  /** A line of the tail is a line of the file. */
  lemma OriginShift(lines: seq<string>, key: string, value: string)
    requires lines != []
    requires exists i :: 0 <= i < |lines[1..]| && ParseEnvLine(lines[1..][i]) == Assign(key, value)
    ensures exists i :: 0 <= i < |lines| && ParseEnvLine(lines[i]) == Assign(key, value)
  {
    var i :| 0 <= i < |lines[1..]| && ParseEnvLine(lines[1..][i]) == Assign(key, value);
    assert lines[i + 1] == lines[1..][i];
  }

  /** Line i assigns a pair the environment refuses, and f is what that
      refusal raises. */
  predicate RefusedAt(lines: seq<string>, i: int, f: Failure) {
    0 <= i < |lines| && ParseEnvLine(lines[i]).Assign?
    && !Settable(ParseEnvLine(lines[i]).key, ParseEnvLine(lines[i]).value)
    && f == SetFailure(ParseEnvLine(lines[i]).key, ParseEnvLine(lines[i]).value)
  }

  /** A failed load raised the exception of some line whose pair the
      environment refuses: ValueError for a NUL, OSError for an empty name. */
  lemma {:induction false} LoadFailure(env: Env, lines: seq<string>)
    requires LoadLines(env, lines).raised.Some?
    ensures LoadLines(env, lines).raised == Some(ValueError) || LoadLines(env, lines).raised == Some(OSError)
    ensures exists i :: RefusedAt(lines, i, LoadLines(env, lines).raised.value)
    decreases |lines|
  {
    var f := LoadLines(env, lines).raised.value;
    var tail := lines[1..];
    match ParseEnvLine(lines[0])
    case Skip =>
      LoadFailure(env, tail);
      RefusedShift(lines, f);
    case Assign(k, v) =>
      match SetDefault(env, k, v)
      case Err(_) =>
        assert RefusedAt(lines, 0, f);
      case Ok(next) =>
        LoadFailure(next, tail);
        RefusedShift(lines, f);
  }

  /** A refused line of the tail is a refused line of the file. */
  lemma RefusedShift(lines: seq<string>, f: Failure)
    requires lines != [] && exists i :: RefusedAt(lines[1..], i, f)
    ensures exists i :: RefusedAt(lines, i, f)
  {
    var i :| RefusedAt(lines[1..], i, f);
    assert lines[i + 1] == lines[1..][i];
    assert RefusedAt(lines, i + 1, f);
  }

  // --------------------------------------------------------- readers

  /** get_auth_mode */
  function AuthMode(env: Env): (r: string)
    ensures r != []
  {
    var requested := Lower(Strip(Get(env, AuthModeVar, "")));
    if requested != [] then requested
    else if IsSet(env, ClientSecretVar) then "client_credentials"
    else "device_code"
  }

  /** An explicit mode wins whatever else is set and comes back trimmed and
      lower-cased; without one the mode follows the client secret. */
  lemma AuthModeRule(env: Env)
    ensures var requested := Get(env, AuthModeVar, "");
            && (HasNonSpace(requested) ==>
                  AuthMode(env) == Lower(Strip(requested)) && Stripped(AuthMode(env))
                  && Lower(AuthMode(env)) == AuthMode(env))
            && (!HasNonSpace(requested) ==>
                  (AuthMode(env) == "client_credentials" <==> IsSet(env, ClientSecretVar))
                  && (AuthMode(env) == "device_code" <==> !IsSet(env, ClientSecretVar)))
  {
    var requested := Get(env, AuthModeVar, "");
    StripFacts(requested);
    LowerStripped(Strip(requested));
    LowerIdempotent(Strip(requested));
  }

  lemma LowerStripped(s: string)
    requires Stripped(s)
    ensures Stripped(Lower(s))
  {
  }

  /** Setting the mode to its own normal form does not change it. */
  lemma AuthModeNormalForm(env: Env, mode: string)
    ensures AuthMode(env[AuthModeVar := Lower(Strip(mode))]) == AuthMode(env[AuthModeVar := mode])
  {
    StripFacts(mode);
    var m := Strip(mode);
    LowerStripped(m);
    StripOfStripped(Lower(m));
    LowerIdempotent(m);
  }

  /** delegated_scopes */
  function DelegatedScopes(env: Env): (r: seq<string>)
    ensures IsSet(env, DelegatedScopesVar) ==>
              forall k, i :: 0 <= k < |r| && 0 <= i < |r[k]| ==> !IsSpaceOrComma(r[k][i])
    ensures forall k :: 0 <= k < |r| ==> r[k] != []
  {
    if IsSet(env, DelegatedScopesVar) then
      TokensClean(env[DelegatedScopesVar]);
      Tokens(env[DelegatedScopesVar])
    else DefaultDelegatedScopes
  }

  /** The scopes are the default exactly when the variable is unset or
      empty; otherwise they spell out the variable with its whitespace and
      commas removed. */
  lemma ScopesRule(env: Env)
    ensures !IsSet(env, DelegatedScopesVar) ==> DelegatedScopes(env) == DefaultDelegatedScopes
    ensures IsSet(env, DelegatedScopesVar) ==>
              Concat(DelegatedScopes(env))
              == Remove(env[DelegatedScopesVar], IsSpaceOrComma)
  {
    if IsSet(env, DelegatedScopesVar) {
      var custom := env[DelegatedScopesVar];
      SplitWhereSpec(custom, IsSpaceOrComma);
      ConcatNonEmpty(SplitWhere(custom, IsSpaceOrComma));
    }
  }

  /** A set variable is cut at each run of whitespace and commas: the text
      before the first separator is the first scope (when non-empty), and
      the scopes of the rest follow. */
  lemma ScopesSplit(env: Env, p: string, c: char, q: string)
    requires DelegatedScopesVar in env && env[DelegatedScopesVar] == p + [c] + q
    requires forall i :: 0 <= i < |p| ==> !IsSpaceOrComma(p[i])
    requires IsSpaceOrComma(c)
    ensures DelegatedScopes(env) == (if p == [] then [] else [p]) + Tokens(q)
  {
    assert env[DelegatedScopesVar] != [];
    TokensSplit(p, c, q);
  }

  /** A set variable without separators is one scope. */
  lemma ScopesWhole(env: Env, p: string)
    requires DelegatedScopesVar in env && env[DelegatedScopesVar] == p && p != []
    requires forall i :: 0 <= i < |p| ==> !IsSpaceOrComma(p[i])
    ensures DelegatedScopes(env) == [p]
  {
    TokensWhole(p);
  }

  /** No token holds whitespace or a comma. */
  lemma TokensClean(s: string)
    ensures forall k, i :: 0 <= k < |Tokens(s)| && 0 <= i < |Tokens(s)[k]| ==> !IsSpaceOrComma(Tokens(s)[k][i])
  {
    var parts := SplitWhere(s, IsSpaceOrComma);
    SplitWhereSpec(s, IsSpaceOrComma);
    NonEmptyMember(parts);
    forall k, i | 0 <= k < |Tokens(s)| && 0 <= i < |Tokens(s)[k]|
      ensures !IsSpaceOrComma(Tokens(s)[k][i])
    {
      assert Tokens(s)[k] in parts;
      var j :| 0 <= j < |parts| && parts[j] == Tokens(s)[k];
    }
  }

  lemma {:induction false} NonEmptyMember(parts: seq<string>)
    ensures forall x :: x in NonEmpty(parts) ==> x in parts
  {
    if parts != [] {
      NonEmptyMember(parts[1..]);
    }
  }

  lemma {:induction false} ConcatNonEmpty(parts: seq<string>)
    ensures Concat(NonEmpty(parts)) == Concat(parts)
  {
    if parts != [] {
      ConcatNonEmpty(parts[1..]);
      if parts[0] != [] {
        ConcatCons(parts[0], NonEmpty(parts[1..]));
      } else {
        var rest := Concat(parts[1..]);
        assert Concat(parts) == [] + rest;
        assert [] + rest == rest;
      }
    }
  }

  /** Comma-separated scopes with stray spaces: "Mail.Read, ,User.Read". */
  lemma ScopesExample(env: Env, custom: string)
    requires custom == "Mail.Read, ,User.Read" && env == map[DelegatedScopesVar := custom]
    ensures DelegatedScopes(env) == ["Mail.Read", "User.Read"]
  {
    assert IsSet(env, DelegatedScopesVar);
    ScopesTokens(custom);
  }

  lemma ScopesTokens(s: string)
    requires s == "Mail.Read, ,User.Read"
    ensures Tokens(s) == ["Mail.Read", "User.Read"]
  {
    ScopesPieces(s, "Mail.Read", "User.Read");
    var parts: seq<string> := ["Mail.Read", [], [], "User.Read"];
    assert NonEmpty(parts) == ["Mail.Read"] + NonEmpty(parts[1..]);
    assert parts[1..][1..] == [[], "User.Read"];
    assert parts[1..][1..][1..] == ["User.Read"];
  }

  lemma ScopesPieces(s: string, a: string, b: string)
    requires a == "Mail.Read" && b == "User.Read" && s == a + [','] + [' '] + [','] + b
    ensures SplitWhere(s, IsSpaceOrComma) == [a, [], [], b]
  {
    assert forall i :: 0 <= i < |a| ==> !IsSpaceOrComma(a[i]);
    assert forall i :: 0 <= i < |b| ==> !IsSpaceOrComma(b[i]);
    SplitAroundBlank(a, b);
  }

  /** "a, ,b" splits on [\s,] into a, two empty pieces and b. */
  lemma SplitAroundBlank(a: string, b: string)
    requires forall i :: 0 <= i < |a| ==> !IsSpaceOrComma(a[i])
    requires forall i :: 0 <= i < |b| ==> !IsSpaceOrComma(b[i])
    ensures SplitWhere(a + [','] + [' '] + [','] + b, IsSpaceOrComma) == [a, [], [], b]
  {
    var q := [' '] + ([','] + b);
    assert a + [','] + [' '] + [','] + b == a + [','] + q;
    SplitWhereAt(a, ',', q, IsSpaceOrComma);
    SplitAtHead(' ', [','] + b, IsSpaceOrComma);
    SplitAtHead(',', b, IsSpaceOrComma);
    SplitWhereNoSep(b, IsSpaceOrComma);
  }

  /** A separator in front gives an empty first piece. */
  lemma SplitAtHead(c: char, rest: string, isSep: char -> bool)
    requires isSep(c)
    ensures SplitWhere([c] + rest, isSep) == [[]] + SplitWhere(rest, isSep)
  {
    assert [c] + rest == [] + [c] + rest;
    SplitWhereAt([], c, rest, isSep);
  }

  // --------------------------------------------------------- list readers

  predicate IsComma(c: char) {
    c == ','
  }

  predicate IsNewlineOrComma(c: char) {
    c == '\n' || c == ','
  }

  /** [Lower(Strip(p)) for p in parts if Lower(Strip(p))] */
  function CleanDomains(parts: seq<string>): seq<string> {
    if parts == [] then []
    else
      var value := Lower(Strip(parts[0]));
      if value != [] then [value] + CleanDomains(parts[1..]) else CleanDomains(parts[1..])
  }

  /** [Strip(p) for p in parts if Strip(p)] */
  function CleanNames(parts: seq<string>): seq<string> {
    if parts == [] then []
    else
      var value := Strip(parts[0]);
      if value != [] then [value] + CleanNames(parts[1..]) else CleanNames(parts[1..])
  }

  lemma {:induction false} CleanDomainsAppend(a: seq<string>, b: seq<string>)
    ensures CleanDomains(a + b) == CleanDomains(a) + CleanDomains(b)
  {
    if a == [] {
      assert a + b == b;
    } else {
      assert (a + b)[0] == a[0];
      assert (a + b)[1..] == a[1..] + b;
      CleanDomainsAppend(a[1..], b);
    }
  }

  lemma {:induction false} CleanNamesAppend(a: seq<string>, b: seq<string>)
    ensures CleanNames(a + b) == CleanNames(a) + CleanNames(b)
  {
    if a == [] {
      assert a + b == b;
    } else {
      assert (a + b)[0] == a[0];
      assert (a + b)[1..] == a[1..] + b;
      CleanNamesAppend(a[1..], b);
    }
  }

  /** The domains internal_domains returns for a raw variable value */
  function Domains(raw: string): seq<string> {
    CleanDomains(SplitWhere(raw, IsComma))
  }

  /** The names project_names returns for a raw variable value */
  function Names(raw: string): seq<string> {
    CleanNames(SplitWhere(raw, IsNewlineOrComma))
  }

  /** internal_domains: the loop over raw.split(",") */
  method InternalDomains(env: Env) returns (domains: seq<string>)
    ensures domains == Domains(Get(env, InternalDomainsVar, ""))
  {
    var parts := SplitWhere(Get(env, InternalDomainsVar, ""), IsComma);
    domains := [];
    for k := 0 to |parts|
      invariant domains == CleanDomains(parts[..k])
    {
      CleanDomainsAppend(parts[..k], [parts[k]]);
      assert parts[..k + 1] == parts[..k] + [parts[k]];
      var value := Lower(Strip(parts[k]));
      if value != [] {
        domains := domains + [value];
      }
    }
    assert parts[..|parts|] == parts;
  }

  /** project_names: the loop over re.split(r"[\n,]", raw); the name of
      the variable lives in a constants module outside this model. */
  method ProjectNames(env: Env, varName: string) returns (names: seq<string>)
    ensures names == Names(Get(env, varName, ""))
  {
    var parts := SplitWhere(Get(env, varName, ""), IsNewlineOrComma);
    names := [];
    for k := 0 to |parts|
      invariant names == CleanNames(parts[..k])
    {
      CleanNamesAppend(parts[..k], [parts[k]]);
      assert parts[..k + 1] == parts[..k] + [parts[k]];
      var value := Strip(parts[k]);
      if value != [] {
        names := names + [value];
      }
    }
    assert parts[..|parts|] == parts;
  }

  /** A string is among the cleaned domains exactly when it is the
      non-empty cleaned form of one of the pieces. */
  lemma {:induction false} CleanDomainsMember(parts: seq<string>, x: string)
    ensures x in CleanDomains(parts) <==>
              x != [] && exists k :: 0 <= k < |parts| && Lower(Strip(parts[k])) == x
  {
    if parts != [] {
      CleanDomainsMember(parts[1..], x);
      if exists k :: 0 <= k < |parts| && Lower(Strip(parts[k])) == x {
        var k :| 0 <= k < |parts| && Lower(Strip(parts[k])) == x;
        if k > 0 { assert parts[1..][k - 1] == parts[k]; }
      }
      if exists k :: 0 <= k < |parts[1..]| && Lower(Strip(parts[1..][k])) == x {
        var k :| 0 <= k < |parts[1..]| && Lower(Strip(parts[1..][k])) == x;
        assert parts[k + 1] == parts[1..][k];
      }
    }
  }

  /** The same for the cleaned names. */
  lemma {:induction false} CleanNamesMember(parts: seq<string>, x: string)
    ensures x in CleanNames(parts) <==>
              x != [] && exists k :: 0 <= k < |parts| && Strip(parts[k]) == x
  {
    if parts != [] {
      CleanNamesMember(parts[1..], x);
      if exists k :: 0 <= k < |parts| && Strip(parts[k]) == x {
        var k :| 0 <= k < |parts| && Strip(parts[k]) == x;
        if k > 0 { assert parts[1..][k - 1] == parts[k]; }
      }
      if exists k :: 0 <= k < |parts[1..]| && Strip(parts[1..][k]) == x {
        var k :| 0 <= k < |parts[1..]| && Strip(parts[1..][k]) == x;
        assert parts[k + 1] == parts[1..][k];
      }
    }
  }

  /** A comma-free piece, stripped and lower-cased, is stripped, lower-case
      and comma-free. */
  lemma CleanDomainFacts(part: string)
    requires ',' !in part
    ensures var v := Lower(Strip(part));
            Stripped(v) && Lower(v) == v && ',' !in v
  {
    StripFacts(part);
    InfixChars(Strip(part), part);
    var t := Strip(part);
    LowerStripped(t);
    LowerIdempotent(t);
    forall m | 0 <= m < |t| ensures Lower(t)[m] != ',' {
      assert t[m] in part;
    }
  }

  /** internal_domains: every domain is non-empty, stripped, lower-case and
      comma-free, and a string is a domain exactly when it is the cleaned
      form of one of the comma-separated pieces. */
  lemma DomainsRule(raw: string)
    ensures var r := Domains(raw);
            forall k :: 0 <= k < |r| ==>
              r[k] != [] && Stripped(r[k]) && Lower(r[k]) == r[k] && ',' !in r[k]
    ensures forall x :: x in Domains(raw) <==>
              x != [] && exists k :: 0 <= k < |SplitWhere(raw, IsComma)|
                                     && Lower(Strip(SplitWhere(raw, IsComma)[k])) == x
  {
    var parts := SplitWhere(raw, IsComma);
    var r := Domains(raw);
    SplitWhereSpec(raw, IsComma);
    forall x ensures x in r <==> x != [] && exists k :: 0 <= k < |parts| && Lower(Strip(parts[k])) == x {
      CleanDomainsMember(parts, x);
    }
    forall k | 0 <= k < |r|
      ensures r[k] != [] && Stripped(r[k]) && Lower(r[k]) == r[k] && ',' !in r[k]
    {
      CleanDomainsMember(parts, r[k]);
      var j :| 0 <= j < |parts| && Lower(Strip(parts[j])) == r[k];
      assert ',' !in parts[j] by {
        forall i | 0 <= i < |parts[j]| ensures parts[j][i] != ',' {
          assert !IsComma(parts[j][i]);
        }
      }
      CleanDomainFacts(parts[j]);
    }
  }

  /** project_names: every name is non-empty and stripped, holds no newline
      or comma, keeps the case it was written in (it is a piece of the raw
      value), and a string is a name exactly when it is the stripped form of
      one of the pieces. */
  lemma NamesRule(raw: string)
    ensures var r := Names(raw);
            forall k :: 0 <= k < |r| ==>
              r[k] != [] && Stripped(r[k]) && '\n' !in r[k] && ',' !in r[k] && IsInfix(r[k], raw)
    ensures forall x :: x in Names(raw) <==>
              x != [] && exists k :: 0 <= k < |SplitWhere(raw, IsNewlineOrComma)|
                                     && Strip(SplitWhere(raw, IsNewlineOrComma)[k]) == x
  {
    var parts := SplitWhere(raw, IsNewlineOrComma);
    var r := Names(raw);
    SplitWhereSpec(raw, IsNewlineOrComma);
    SplitWhereInfix(raw, IsNewlineOrComma);
    forall x ensures x in r <==> x != [] && exists k :: 0 <= k < |parts| && Strip(parts[k]) == x {
      CleanNamesMember(parts, x);
    }
    forall k | 0 <= k < |r|
      ensures r[k] != [] && Stripped(r[k]) && '\n' !in r[k] && ',' !in r[k] && IsInfix(r[k], raw)
    {
      CleanNamesMember(parts, r[k]);
      var j :| 0 <= j < |parts| && Strip(parts[j]) == r[k];
      StripFacts(parts[j]);
      InfixTrans(r[k], parts[j], raw);
      InfixChars(r[k], parts[j]);
      forall m | 0 <= m < |r[k]| ensures r[k][m] != '\n' && r[k][m] != ',' {
        assert r[k][m] in parts[j];
        var i :| 0 <= i < |parts[j]| && parts[j][i] == r[k][m];
        assert !IsNewlineOrComma(parts[j][i]);
      }
    }
  }

  /** Each piece of SplitWhere occurs in the text it was cut from. */
  lemma {:induction false} SplitWhereInfix(s: string, isSep: char -> bool)
    ensures forall k :: 0 <= k < |SplitWhere(s, isSep)| ==> IsInfix(SplitWhere(s, isSep)[k], s)
  {
    var r := SplitWhere(s, isSep);
    if s == [] {
      assert StartsWith(s[0..], r[0]);
    } else {
      SplitWhereInfix(s[1..], isSep);
      forall k | 0 <= k < |r| ensures IsInfix(r[k], s) {
        if k == 0 && !isSep(s[0]) {
          FirstPieceInfix(s, isSep);
        } else if k == 0 {
          assert StartsWith(s[0..], r[0]);
        } else {
          LaterPieceInfix(s, isSep, k);
        }
      }
    }
  }

  /** The first piece, when s does not start with a separator, is a prefix
      of s. */
  lemma FirstPieceInfix(s: string, isSep: char -> bool)
    requires s != [] && !isSep(s[0])
    ensures IsInfix(SplitWhere(s, isSep)[0], s)
  {
    var r := SplitWhere(s, isSep);
    var rest := SplitWhere(s[1..], isSep);
    SplitWhereFirst(s[1..], isSep);
    assert r[0] == [s[0]] + rest[0];
    assert s[..|r[0]|] == [s[0]] + s[1..][..|rest[0]|];
    assert StartsWith(s[0..], r[0]);
  }

  /** Every later piece is a piece of the tail, and so occurs in s. */
  lemma LaterPieceInfix(s: string, isSep: char -> bool, k: nat)
    requires s != [] && 0 < k < |SplitWhere(s, isSep)|
    requires forall j :: 0 <= j < |SplitWhere(s[1..], isSep)| ==> IsInfix(SplitWhere(s[1..], isSep)[j], s[1..])
    ensures IsInfix(SplitWhere(s, isSep)[k], s)
  {
    var r := SplitWhere(s, isSep);
    var rest := SplitWhere(s[1..], isSep);
    var m := if isSep(s[0]) then k - 1 else k;
    assert r[k] == rest[m];
    SuffixInfix(s, 1);
    InfixTrans(r[k], s[1..], s);
  }

  /** The first piece of SplitWhere is a prefix. */
  lemma {:induction false} SplitWhereFirst(s: string, isSep: char -> bool)
    ensures |SplitWhere(s, isSep)[0]| <= |s| && s[..|SplitWhere(s, isSep)[0]|] == SplitWhere(s, isSep)[0]
  {
    if s != [] {
      SplitWhereFirst(s[1..], isSep);
    }
  }

  /** "Alpha, Beta\nGamma " gives the three names in order, case kept. */
  lemma NamesExample(raw: string)
    requires raw == "Alpha" + [','] + " Beta" + ['\n'] + "Gamma "
    ensures Names(raw) == ["Alpha", "Beta", "Gamma"]
  {
    NamesPieces(raw, "Alpha", " Beta", "Gamma ");
    LStripNonSpaceStart("Alpha");
    StripPadded(" Beta", "Beta");
    StripTrailing("Gamma ", "Gamma");
    var parts := ["Alpha", " Beta", "Gamma "];
    assert CleanNames(parts) == ["Alpha"] + CleanNames(parts[1..]);
    assert parts[1..][1..] == ["Gamma "];
  }

  lemma NamesPieces(raw: string, a: string, b: string, c: string)
    requires a == "Alpha" && b == " Beta" && c == "Gamma "
    requires raw == a + [','] + b + ['\n'] + c
    ensures SplitWhere(raw, IsNewlineOrComma) == [a, b, c]
  {
    assert forall i :: 0 <= i < |a| ==> !IsNewlineOrComma(a[i]);
    assert forall i :: 0 <= i < |b| ==> !IsNewlineOrComma(b[i]);
    assert forall i :: 0 <= i < |c| ==> !IsNewlineOrComma(c[i]);
    SplitThree(a, ',', b, '\n', c, IsNewlineOrComma);
  }

  /** Three pieces between two separators split into those three. */
  lemma SplitThree(a: string, x: char, b: string, y: char, c: string, isSep: char -> bool)
    requires forall i :: 0 <= i < |a| ==> !isSep(a[i])
    requires forall i :: 0 <= i < |b| ==> !isSep(b[i])
    requires forall i :: 0 <= i < |c| ==> !isSep(c[i])
    requires isSep(x) && isSep(y)
    ensures SplitWhere(a + [x] + b + [y] + c, isSep) == [a, b, c]
  {
    var q := b + [y] + c;
    assert a + [x] + b + [y] + c == a + [x] + q;
    SplitWhereAt(a, x, q, isSep);
    SplitWhereAt(b, y, c, isSep);
    SplitWhereNoSep(c, isSep);
  }

  lemma StripPadded(s: string, t: string)
    requires s == " Beta" && t == "Beta"
    ensures Strip(s) == t
  {
    assert LStrip(s) == LStrip(s[1..]);
    assert s[1..] == t;
    LStripNonSpaceStart(t);
  }

  lemma StripTrailing(s: string, t: string)
    requires s == "Gamma " && t == "Gamma"
    ensures Strip(s) == t
  {
    assert RStrip(s) == RStrip(s[..|s| - 1]);
    assert s[..|s| - 1] == t;
    LStripNonSpaceStart(t);
  }
}
