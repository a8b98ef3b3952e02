/** The destination table and relay credentials, read once from the
    process environment at start-up (`read_servers`, `asbool`, and the
    `AUTH_USER` / `AUTH_PASSWORD` normalisation). */
module Config {

  import opened Results
  import opened Text

  /** The process environment. */
  type Env = map<string, string>

  /** One outbound rule. `pattern` is the configured destination regular
      expression with `$` appended, as compiled by the relay. */
  datatype Server = Server(
    pattern: string,
    host: string,
    port: int,
    ssl: bool,
    starttls: bool,
    user: Option<string>,
    password: Option<string>)

  /** The exceptions `read_servers` can raise: `KeyError` for a missing
      variable, `re.error` for a pattern that does not compile, and
      `ValueError` from `int` or from `asbool`. */
  datatype ConfigError =
    | MissingVariable(name: string)
    | InvalidRegex(pattern: string)
    | InvalidPort(text: string)
    | InvalidYesNo(text: string)

  /** `f'OUTBOUND_{i}_{field}'`. */
  function VarName(i: nat, field: string): string
  {
    "OUTBOUND_" + NatToDecimal(i) + "_" + field
  }

  function HostVar(i: nat): string { VarName(i, "HOST") }

  /** Two different indices never name the same `HOST` variable. */
  lemma HostVarInjective(i: nat, j: nat)
    ensures HostVar(i) == HostVar(j) ==> i == j
  {
    if HostVar(i) == HostVar(j) {
      var a, b := NatToDecimal(i), NatToDecimal(j);
      assert HostVar(i) == "OUTBOUND_" + (a + "_HOST");
      assert HostVar(j) == "OUTBOUND_" + (b + "_HOST");
      assert a + "_HOST" == HostVar(i)[9..] == HostVar(j)[9..] == b + "_HOST";
      assert a == (a + "_HOST")[..|a|] == (b + "_HOST")[..|b|] == b;
      NatToDecimalInjective(i, j);
    }
  }

  /** `asbool`: a case-insensitive yes/no token. */
  function AsBool(arg: string): (r: Result<bool, ConfigError>)
    ensures r.Err? ==> r.error == InvalidYesNo(arg)
  {
    var l := Lower(arg);
    if l == "yes" || l == "true" || l == "1" then Ok(true)
    else if l == "no" || l == "false" || l == "0" then Ok(false)
    else Err(InvalidYesNo(arg))
  }

  predicate IsTrueToken(arg: string)
  {
    EqualIgnoringCase(arg, "yes") || EqualIgnoringCase(arg, "true") || EqualIgnoringCase(arg, "1")
  }

  predicate IsFalseToken(arg: string)
  {
    EqualIgnoringCase(arg, "no") || EqualIgnoringCase(arg, "false") || EqualIgnoringCase(arg, "0")
  }

  /** `asbool` accepts exactly the six tokens in any letter case, maps
      yes/true/1 to true and no/false/0 to false, and rejects the rest. */
  lemma AsBoolTokens(arg: string)
    ensures AsBool(arg) == Ok(true) <==> IsTrueToken(arg)
    ensures AsBool(arg) == Ok(false) <==> IsFalseToken(arg)
    ensures AsBool(arg).Err? <==> !IsTrueToken(arg) && !IsFalseToken(arg)
  {
    LowerIsToken(arg, "yes");
    LowerIsToken(arg, "true");
    LowerIsToken(arg, "1");
    LowerIsToken(arg, "no");
    LowerIsToken(arg, "false");
    LowerIsToken(arg, "0");
  }

  /** `os.environ[name]`, raising `KeyError` when unset. */
  function Lookup(env: Env, name: string): (r: Result<string, ConfigError>)
    ensures r.Ok? <==> name in env
    ensures r.Ok? ==> r.value == env[name]
    ensures r.Err? ==> r.error == MissingVariable(name)
  {
    if name in env then Ok(env[name]) else Err(MissingVariable(name))
  }

  /** The entries of the dictionary literal up to the pattern are present
      and the pattern compiles. */
  predicate PatternReady(env: Env, compiles: string -> bool, i: nat)
  {
    VarName(i, "DESTINATION_REGEX") in env && compiles(env[VarName(i, "DESTINATION_REGEX")] + "$")
  }

  /** ... and the host is set. */
  predicate HostReady(env: Env, compiles: string -> bool, i: nat)
  {
    PatternReady(env, compiles, i) && HostVar(i) in env
  }

  /** ... and the port is set and is an integer. */
  predicate PortReady(env: Env, compiles: string -> bool, i: nat)
  {
    HostReady(env, compiles, i) && VarName(i, "PORT") in env && ParseInt(env[VarName(i, "PORT")]).Some?
  }

  /** ... and the SSL flag is set and is a yes/no token. */
  predicate SslReady(env: Env, compiles: string -> bool, i: nat)
  {
    PortReady(env, compiles, i) && VarName(i, "SSL") in env && AsBool(env[VarName(i, "SSL")]).Ok?
  }

  /** Everything rule `i` needs is present and well-formed. */
  predicate RuleWellFormed(env: Env, compiles: string -> bool, i: nat)
  {
    SslReady(env, compiles, i) && VarName(i, "STARTTLS") in env && AsBool(env[VarName(i, "STARTTLS")]).Ok?
  }

  /** The dictionary literal of `read_servers` for index `i`, evaluated
      left to right so that the first failing entry names the error.
      `compiles` tells whether `re.compile` accepts a pattern. */
  function ParseServer(env: Env, compiles: string -> bool, i: nat): (r: Result<Server, ConfigError>)
    ensures r.Ok? <==> RuleWellFormed(env, compiles, i)
    ensures r.Ok? ==>
      && r.value.pattern == env[VarName(i, "DESTINATION_REGEX")] + "$"
      && r.value.host == env[HostVar(i)]
      && ParseInt(env[VarName(i, "PORT")]) == Some(r.value.port)
      && AsBool(env[VarName(i, "SSL")]) == Ok(r.value.ssl)
      && AsBool(env[VarName(i, "STARTTLS")]) == Ok(r.value.starttls)
      && r.value.user == Get(env, VarName(i, "USER"))
      && r.value.password == Get(env, VarName(i, "PASSWORD"))
    ensures VarName(i, "DESTINATION_REGEX") !in env ==> r == Err(MissingVariable(VarName(i, "DESTINATION_REGEX")))
    ensures VarName(i, "DESTINATION_REGEX") in env && !PatternReady(env, compiles, i) ==>
      r == Err(InvalidRegex(env[VarName(i, "DESTINATION_REGEX")] + "$"))
    ensures PatternReady(env, compiles, i) && HostVar(i) !in env ==> r == Err(MissingVariable(HostVar(i)))
    ensures HostReady(env, compiles, i) && VarName(i, "PORT") !in env ==> r == Err(MissingVariable(VarName(i, "PORT")))
    ensures HostReady(env, compiles, i) && VarName(i, "PORT") in env && !PortReady(env, compiles, i) ==>
      r == Err(InvalidPort(env[VarName(i, "PORT")]))
    ensures PortReady(env, compiles, i) && VarName(i, "SSL") !in env ==> r == Err(MissingVariable(VarName(i, "SSL")))
    ensures PortReady(env, compiles, i) && VarName(i, "SSL") in env && !SslReady(env, compiles, i) ==>
      r == Err(InvalidYesNo(env[VarName(i, "SSL")]))
    ensures SslReady(env, compiles, i) && VarName(i, "STARTTLS") !in env ==>
      r == Err(MissingVariable(VarName(i, "STARTTLS")))
    ensures SslReady(env, compiles, i) && VarName(i, "STARTTLS") in env && !RuleWellFormed(env, compiles, i) ==>
      r == Err(InvalidYesNo(env[VarName(i, "STARTTLS")]))
  {
    match Lookup(env, VarName(i, "DESTINATION_REGEX"))
    case Err(e) => Err(e)
    case Ok(regex) =>
      var pattern := regex + "$";
      if !compiles(pattern) then Err(InvalidRegex(pattern)) else
      match Lookup(env, HostVar(i))
      case Err(e) => Err(e)
      case Ok(host) =>
        match Lookup(env, VarName(i, "PORT"))
        case Err(e) => Err(e)
        case Ok(portText) =>
          match ParseInt(portText)
          case None => Err(InvalidPort(portText))
          case Some(port) =>
            match Lookup(env, VarName(i, "SSL"))
            case Err(e) => Err(e)
            case Ok(sslText) =>
              match AsBool(sslText)
              case Err(e) => Err(e)
              case Ok(ssl) =>
                match Lookup(env, VarName(i, "STARTTLS"))
                case Err(e) => Err(e)
                case Ok(starttlsText) =>
                  match AsBool(starttlsText)
                  case Err(e) => Err(e)
                  case Ok(starttls) =>
                    Ok(Server(pattern, host, port, ssl, starttls,
                              Get(env, VarName(i, "USER")), Get(env, VarName(i, "PASSWORD"))))
  }

  /** The `HOST` variables of the indices 1 .. i - 1, already read. */
  function HostVarsBelow(i: nat): set<string>
  {
    if i <= 1 then {} else HostVarsBelow(i - 1) + {HostVar(i - 1)}
  }

  lemma {:induction false} HostVarNotBelow(i: nat, k: nat)
    requires i <= k
    ensures HostVar(k) !in HostVarsBelow(i)
  {
    if i > 1 {
      HostVarNotBelow(i - 1, k);
      HostVarInjective(i - 1, k);
    }
  }

  /** Reading one more rule leaves fewer environment entries unvisited,
      which is why the `while` loop of `read_servers` terminates. */
  lemma LoadProgress(env: Env, i: nat)
    requires 1 <= i && HostVar(i) in env
    ensures |env.Keys - HostVarsBelow(i + 1)| < |env.Keys - HostVarsBelow(i)|
  {
    HostVarNotBelow(i, i);
    var before := env.Keys - HostVarsBelow(i);
    assert HostVar(i) in before;
    assert env.Keys - HostVarsBelow(i + 1) == before - {HostVar(i)};
  }

  /** The rules with index `i` onwards, stopping at the first index whose
      `HOST` variable is unset. */
  function LoadFrom(env: Env, parse: nat -> Result<Server, ConfigError>, i: nat): (r: Result<seq<Server>, ConfigError>)
    requires 1 <= i
    decreases |env.Keys - HostVarsBelow(i)|
  {
    if HostVar(i) !in env then Ok([])
    else
      match parse(i)
      case Err(e) => Err(e)
      case Ok(server) =>
        LoadProgress(env, i);
        match LoadFrom(env, parse, i + 1)
        case Err(e) => Err(e)
        case Ok(rest) => Ok([server] + rest)
  }

  /** `rules` are the parsed rules of the consecutive indices `i`,
      `i + 1`, ..., each with a `HOST`, and the index after the last has
      no `HOST`. */
  predicate LoadedFrom(env: Env, parse: nat -> Result<Server, ConfigError>, i: nat, rules: seq<Server>)
  {
    && (forall k :: i <= k < i + |rules| ==> HostVar(k) in env && parse(k) == Ok(rules[k - i]))
    && HostVar(i + |rules|) !in env
  }

  lemma LoadedFromCons(env: Env, parse: nat -> Result<Server, ConfigError>, i: nat,
                       server: Server, rest: seq<Server>)
    requires HostVar(i) in env && parse(i) == Ok(server)
    requires LoadedFrom(env, parse, i + 1, rest)
    ensures LoadedFrom(env, parse, i, [server] + rest)
  {
    var rules := [server] + rest;
    forall k | i <= k < i + |rules|
      ensures HostVar(k) in env && parse(k) == Ok(rules[k - i])
    {
      if k == i {
        assert rules[0] == server;
      } else {
        assert rules[k - i] == rest[k - (i + 1)];
      }
    }
    assert i + |rules| == (i + 1) + |rest|;
    assert LoadedFrom(env, parse, i, rules);
  }

  /** On success, `LoadFrom` returns exactly the rules of the indices
      reached before the first missing `HOST`. */
  lemma {:induction false} LoadFromOk(env: Env, parse: nat -> Result<Server, ConfigError>, i: nat)
    requires 1 <= i
    ensures LoadFrom(env, parse, i).Ok? ==> LoadedFrom(env, parse, i, LoadFrom(env, parse, i).value)
    decreases |env.Keys - HostVarsBelow(i)|
  {
    var r := LoadFrom(env, parse, i);
    if HostVar(i) !in env {
      assert r == Ok([]);
    } else if r.Ok? {
      var server := parse(i).value;
      LoadProgress(env, i);
      LoadFromOk(env, parse, i + 1);
      var rest := LoadFrom(env, parse, i + 1).value;
      assert r.value == [server] + rest;
      LoadedFromCons(env, parse, i, server, rest);
    }
  }

  /** Every index from `i` up to, not including, `k` has a `HOST` and parses. */
  predicate ParsedBefore(env: Env, parse: nat -> Result<Server, ConfigError>, i: nat, k: nat)
  {
    forall j :: i <= j < k ==> HostVar(j) in env && parse(j).Ok?
  }

  lemma ParsedBeforeCons(env: Env, parse: nat -> Result<Server, ConfigError>, i: nat, k: nat)
    requires HostVar(i) in env && parse(i).Ok? && ParsedBefore(env, parse, i + 1, k)
    ensures ParsedBefore(env, parse, i, k)
  {
    forall j | i <= j < k
      ensures HostVar(j) in env && parse(j).Ok?
    {
      if j > i {
        assert i + 1 <= j < k;
      }
    }
  }

  /** On failure, the error is that of the first index whose rule does
      not parse, every earlier index having a `HOST` and parsing. */
  lemma {:induction false} LoadFromErr(env: Env, parse: nat -> Result<Server, ConfigError>, i: nat)
    requires 1 <= i
    ensures var r := LoadFrom(env, parse, i);
      r.Err? ==>
        exists k: nat :: i <= k && HostVar(k) in env && parse(k) == Err(r.error) && ParsedBefore(env, parse, i, k)
    decreases |env.Keys - HostVarsBelow(i)|
  {
    var r := LoadFrom(env, parse, i);
    if r.Err? && parse(i).Ok? {
      LoadProgress(env, i);
      LoadFromErr(env, parse, i + 1);
      var k: nat :| i + 1 <= k && HostVar(k) in env && parse(k) == Err(r.error) && ParsedBefore(env, parse, i + 1, k);
      ParsedBeforeCons(env, parse, i, k);
    }
  }

  /** The rule parser of `read_servers`, as a function of the index. */
  function RuleParser(env: Env, compiles: string -> bool): nat -> Result<Server, ConfigError>
  {
    (k: nat) => ParseServer(env, compiles, k)
  }

  /** `read_servers`: the destination table, or the first configuration error. */
  function ReadServers(env: Env, compiles: string -> bool): Result<seq<Server>, ConfigError>
  {
    LoadFrom(env, RuleParser(env, compiles), 1)
  }

  /** On success the table holds rules 1..n in index order, where index
      n + 1 is the first with no `HOST` variable: the rule of index `k`
      sits at position `k - 1`. */
  lemma ReadServersIndices(env: Env, compiles: string -> bool, table: seq<Server>)
    requires ReadServers(env, compiles) == Ok(table)
    ensures forall k :: 1 <= k <= |table| ==>
      HostVar(k) in env && ParseServer(env, compiles, k) == Ok(table[k - 1])
    ensures HostVar(|table| + 1) !in env
  {
    var parse := RuleParser(env, compiles);
    LoadFromOk(env, parse, 1);
    assert LoadedFrom(env, parse, 1, table);
    forall k | 1 <= k <= |table|
      ensures HostVar(k) in env && ParseServer(env, compiles, k) == Ok(table[k - 1])
    {
      assert HostVar(k) in env && parse(k) == Ok(table[k - 1]);
    }
  }

  /** Configuration fails exactly when some rule reached by the loop is
      not well formed; the loop never looks past the first missing `HOST`. */
  lemma ReadServersFails(env: Env, compiles: string -> bool)
    ensures ReadServers(env, compiles).Err? <==>
      exists k: nat :: 1 <= k && HostVar(k) in env && !RuleWellFormed(env, compiles, k)
        && forall j :: 1 <= j < k ==> HostVar(j) in env
  {
    var parse := RuleParser(env, compiles);
    var r := ReadServers(env, compiles);
    LoadFromOk(env, parse, 1);
    LoadFromErr(env, parse, 1);
    if r.Ok? {
      assert LoadedFrom(env, parse, 1, r.value);
      forall k: nat | 1 <= k && HostVar(k) in env && (forall j :: 1 <= j < k ==> HostVar(j) in env)
        ensures RuleWellFormed(env, compiles, k)
      {
        if k <= |r.value| {
          assert parse(k) == Ok(r.value[k - 1]);
        }
      }
    }
  }

  /** The relay-wide credentials after normalisation. */
  datatype Credentials = Credentials(user: Option<seq<byte>>, password: Option<seq<byte>>)

  /** `AUTH_USER` / `AUTH_PASSWORD`: an unset or empty value becomes
      `None`, anything else its UTF-8 bytes. */
  function NormalizeCredential(v: Option<string>): (r: Option<seq<byte>>)
    ensures r.None? <==> v.None? || v.value == ""
    ensures r.Some? ==> 0 < |r.value| && r.value == EncodeUtf8(v.value)
  {
    match v
    case None => None
    case Some(s) => if s == "" then None else Some(EncodeUtf8(s))
  }

  function ReadCredentials(env: Env): (c: Credentials)
    ensures c.user.None? <==> "AUTH_USER" !in env || env["AUTH_USER"] == ""
    ensures c.password.None? <==> "AUTH_PASSWORD" !in env || env["AUTH_PASSWORD"] == ""
    ensures c.user.Some? ==> c.user.value == EncodeUtf8(env["AUTH_USER"])
    ensures c.password.Some? ==> c.password.value == EncodeUtf8(env["AUTH_PASSWORD"])
  {
    Credentials(NormalizeCredential(Get(env, "AUTH_USER")), NormalizeCredential(Get(env, "AUTH_PASSWORD")))
  }
}
