/** The configuration resolver (`get_config`): a run configuration derived from the
    process environment and the content of the service-account namespace file.
    Both are passed in as values; nothing is read here. */
module Config {
  import opened Wrappers
  import opened PyText

  const DeploymentVar := "LAZYMC_K8S_DEPLOYMENT_NAME"
  const MinReplicasVar := "LAZYMC_K8S_MIN_REPLICAS"
  const MaxReplicasVar := "LAZYMC_K8S_MAX_REPLICAS"
  const LogLevelVar := "LAZYMC_K8S_LOG_LEVEL"

  const DefaultMinReplicas: nat := 0
  const DefaultMaxReplicas: nat := 1
  const DefaultLogLevel := "info"

  /** The entries of the level table. `debug`, `info` and `warning` map to
      logging level numbers; `error` and `fatal` map to the logging functions
      of those names, not to levels. */
  datatype LogLevel = Debug | Info | Warning | ErrorCallable | FatalCallable

  /** A replica count as `os.getenv(variable, default)` yields it: the integer
      default when the variable is unset, the variable's text when it is set. */
  datatype ReplicaSetting = Default(count: nat) | Text(text: string)

  datatype ConfigError =
    | NotInCluster                                   // the namespace file is missing
    | MissingSetting(variable: string)               // a required variable is unset
    | BadReplicaCount(variable: string, text: string)  // a count that is not a number

  /** The configuration as the resolver builds it, replica settings left unparsed. */
  datatype RawConfig = RawConfig(
    namespace: string,
    deployment: string,
    minReplicas: ReplicaSetting,
    maxReplicas: ReplicaSetting,
    logLevel: LogLevel)

  /** The configuration with replica counts read as numbers. */
  datatype Config = Config(
    namespace: string,
    deployment: string,
    minReplicas: nat,
    maxReplicas: nat,
    logLevel: LogLevel)

  /** Python `==` between an integer replica count and a setting: an `int` is
      never equal to a `str`, so only a default can match. */
  predicate SameCount(count: nat, setting: ReplicaSetting)
    ensures setting.Text? ==> !SameCount(count, setting)
    ensures SameCount(count, setting) <==> setting == Default(count)
  {
    setting.Default? && setting.count == count
  }

  /** The level table lookup, with INFO for every key outside the table. */
  function LevelNamed(name: string): (level: LogLevel)
    ensures level == Debug <==> name == "debug"
    ensures level == Warning <==> name == "warning"
    ensures level == ErrorCallable <==> name == "error"
    ensures level == FatalCallable <==> name == "fatal"
    ensures level == Info <==> name !in {"debug", "warning", "error", "fatal"}
  {
    if name == "debug" then Debug
    else if name == "info" then Info
    else if name == "warning" then Warning
    else if name == "error" then ErrorCallable
    else if name == "fatal" then FatalCallable
    else Info
  }

  /** The default level name is already lower-case and stripped. */
  lemma DefaultLevelKey()
    ensures Strip(Lower(DefaultLogLevel)) == DefaultLogLevel
  {
    assert Lower(DefaultLogLevel) == DefaultLogLevel;
    StripPadded([], DefaultLogLevel, []);
    assert [] + DefaultLogLevel + [] == DefaultLogLevel;
  }

  /** The key looked up in the level table: the level variable (or `info`
      when unset), lower-cased and stripped. */
  function LevelKey(env: map<string, string>): (key: string)
    ensures LogLevelVar !in env ==> key == DefaultLogLevel
    ensures Trimmed(key)
  {
    var raw := if LogLevelVar in env then env[LogLevelVar] else DefaultLogLevel;
    assert LogLevelVar !in env ==> Strip(Lower(raw)) == DefaultLogLevel by {
      DefaultLevelKey();
    }
    Strip(Lower(raw))
  }

  /** The log level the resolver picks: the table entry for the key, INFO
      when the key is not in the table or the variable is unset. */
  function LogLevelOf(env: map<string, string>): (level: LogLevel)
    ensures LogLevelVar !in env ==> level == Info
    ensures level == Info <==> LevelKey(env) !in {"debug", "warning", "error", "fatal"}
  {
    LevelNamed(LevelKey(env))
  }

  /** Case and surrounding white space do not matter: any spelling of a table
      key whose lower-case form is the key, padded with white space, selects
      that key's entry. */
  lemma LogLevelIgnoresCaseAndSpace(env: map<string, string>, p: string, word: string, q: string)
    requires AllSpace(p) && AllSpace(q)
    requires Lower(word) in {"debug", "info", "warning", "error", "fatal"}
    requires LogLevelVar in env && env[LogLevelVar] == p + word + q
    ensures LogLevelOf(env) == LevelNamed(Lower(word))
  {
    var w := Lower(word);
    assert Lower(p + word + q) == p + w + q by {
      LowerConcat(p + word, q);
      LowerConcat(p, word);
      LowerSpace(p);
      LowerSpace(q);
    }
    assert Trimmed(w) by {
      TableKeyTrimmed(w);
    }
    StripPadded(p, w, q);
    assert LevelKey(env) == w;
  }

  lemma TableKeyTrimmed(w: string)
    requires w in {"debug", "info", "warning", "error", "fatal"}
    ensures Trimmed(w)
  {
  }

  /** `os.getenv(variable, default)` for a replica count, as written. */
  function SettingAsWritten(env: map<string, string>, variable: string, default: nat): (s: ReplicaSetting)
    ensures variable !in env ==> s == Default(default)
    ensures variable in env ==> s == Text(env[variable])
  {
    if variable in env then Text(env[variable]) else Default(default)
  }

  /** `get_config` as written: the namespace file first, then the deployment
      name; replica settings are taken as they come. */
  function ResolveAsWritten(env: map<string, string>, namespaceFile: Option<string>): (r: Result<RawConfig, ConfigError>)
    ensures namespaceFile.None? ==> r == Err(NotInCluster)
    ensures namespaceFile.Some? && DeploymentVar !in env ==> r == Err(MissingSetting(DeploymentVar))
    ensures r.Ok? <==> namespaceFile.Some? && DeploymentVar in env
    ensures r.Ok? ==>
      && r.value.namespace == namespaceFile.value
      && r.value.deployment == env[DeploymentVar]
      && r.value.minReplicas == SettingAsWritten(env, MinReplicasVar, DefaultMinReplicas)
      && r.value.maxReplicas == SettingAsWritten(env, MaxReplicasVar, DefaultMaxReplicas)
      && r.value.logLevel == LogLevelOf(env)
  {
    match namespaceFile
    case None => Err(NotInCluster)
    case Some(namespace) =>
      var minReplicas := SettingAsWritten(env, MinReplicasVar, DefaultMinReplicas);
      var maxReplicas := SettingAsWritten(env, MaxReplicasVar, DefaultMaxReplicas);
      if DeploymentVar !in env then Err(MissingSetting(DeploymentVar))
      else Ok(RawConfig(namespace, env[DeploymentVar], minReplicas, maxReplicas, LogLevelOf(env)))
  }

  /** As written, setting the minimum variable makes the minimum a text, and
      no replica count ever compares equal to it. */
  lemma TextSettingMatchesNoCount(env: map<string, string>, namespaceFile: Option<string>)
    requires namespaceFile.Some? && DeploymentVar in env && MinReplicasVar in env
    ensures forall count: nat :: !SameCount(count, ResolveAsWritten(env, namespaceFile).value.minReplicas)
  {
  }

  /** `int(os.getenv(variable, default))`: the default when unset, the parsed
      count when set, an error when the text is not a count. */
  function CountSetting(env: map<string, string>, variable: string, default: nat): (r: Result<nat, ConfigError>)
    ensures variable !in env ==> r == Ok(default)
    ensures variable in env ==> (r.Ok? <==> ParseCount(env[variable]).Some?)
    ensures variable in env && r.Ok? ==> r.value == ParseCount(env[variable]).value
    ensures r.Err? ==> r.error == BadReplicaCount(variable, env[variable])
  {
    if variable !in env then Ok(default)
    else
      match ParseCount(env[variable])
      case Some(n) => Ok(n)
      case None => Err(BadReplicaCount(variable, env[variable]))
  }

  /** `get_config` with the replica counts read as numbers, in the order the
      source reads its inputs: namespace file, minimum, maximum, deployment name. */
  function Resolve(env: map<string, string>, namespaceFile: Option<string>): (r: Result<Config, ConfigError>)
    ensures namespaceFile.None? ==> r == Err(NotInCluster)
    ensures r.Ok? <==>
      && namespaceFile.Some?
      && DeploymentVar in env
      && CountSetting(env, MinReplicasVar, DefaultMinReplicas).Ok?
      && CountSetting(env, MaxReplicasVar, DefaultMaxReplicas).Ok?
    ensures r == Err(MissingSetting(DeploymentVar)) ==> DeploymentVar !in env
    ensures namespaceFile.Some?
      && CountSetting(env, MinReplicasVar, DefaultMinReplicas).Ok?
      && CountSetting(env, MaxReplicasVar, DefaultMaxReplicas).Ok?
      && DeploymentVar !in env
      ==> r == Err(MissingSetting(DeploymentVar))
    ensures namespaceFile.Some? && CountSetting(env, MinReplicasVar, DefaultMinReplicas).Err? ==>
      r == Err(BadReplicaCount(MinReplicasVar, env[MinReplicasVar]))
    ensures namespaceFile.Some?
      && CountSetting(env, MinReplicasVar, DefaultMinReplicas).Ok?
      && CountSetting(env, MaxReplicasVar, DefaultMaxReplicas).Err?
      ==> r == Err(BadReplicaCount(MaxReplicasVar, env[MaxReplicasVar]))
    ensures r.Ok? ==>
      && r.value.namespace == namespaceFile.value
      && r.value.deployment == env[DeploymentVar]
      && (MinReplicasVar !in env ==> r.value.minReplicas == DefaultMinReplicas)
      && (MaxReplicasVar !in env ==> r.value.maxReplicas == DefaultMaxReplicas)
      && r.value.minReplicas == CountSetting(env, MinReplicasVar, DefaultMinReplicas).value
      && r.value.maxReplicas == CountSetting(env, MaxReplicasVar, DefaultMaxReplicas).value
      && r.value.logLevel == LogLevelOf(env)
  {
    match namespaceFile
    case None => Err(NotInCluster)
    case Some(namespace) =>
      match CountSetting(env, MinReplicasVar, DefaultMinReplicas)
      case Err(e) => Err(e)
      case Ok(minReplicas) =>
        match CountSetting(env, MaxReplicasVar, DefaultMaxReplicas)
        case Err(e) => Err(e)
        case Ok(maxReplicas) =>
          if DeploymentVar !in env then Err(MissingSetting(DeploymentVar))
          else Ok(Config(namespace, env[DeploymentVar], minReplicas, maxReplicas, LogLevelOf(env)))
  }

  /** With only the deployment name set, the defaults apply: 0 and 1 replicas,
      INFO logging. */
  lemma ResolveDefaults(env: map<string, string>, namespace: string)
    requires DeploymentVar in env
    requires MinReplicasVar !in env && MaxReplicasVar !in env && LogLevelVar !in env
    ensures Resolve(env, Some(namespace)) == Ok(Config(namespace, env[DeploymentVar], 0, 1, Info))
  {
  }

  /** A count variable holding a count in decimal, with white space around it,
      reads back as that count. */
  lemma CountSettingReadsDecimal(env: map<string, string>, variable: string, default: nat, p: string, n: nat, q: string)
    requires AllSpace(p) && AllSpace(q)
    requires variable in env && env[variable] == p + Decimal(n) + q
    ensures CountSetting(env, variable, default) == Ok(n)
  {
    ParseCountRoundTrip(p, n, q);
  }

  /** Counts written in decimal, with white space around them, are read back. */
  lemma ResolveReadsDecimalCounts(
    env: map<string, string>, namespace: string,
    p1: string, lo: nat, q1: string,
    p2: string, hi: nat, q2: string)
    requires AllSpace(p1) && AllSpace(q1) && AllSpace(p2) && AllSpace(q2)
    requires DeploymentVar in env
    requires MinReplicasVar in env && env[MinReplicasVar] == p1 + Decimal(lo) + q1
    requires MaxReplicasVar in env && env[MaxReplicasVar] == p2 + Decimal(hi) + q2
    ensures Resolve(env, Some(namespace)) == Ok(Config(namespace, env[DeploymentVar], lo, hi, LogLevelOf(env)))
  {
    CountSettingReadsDecimal(env, MinReplicasVar, DefaultMinReplicas, p1, lo, q1);
    CountSettingReadsDecimal(env, MaxReplicasVar, DefaultMaxReplicas, p2, hi, q2);
  }

  /** What a setting denotes once read as a number. */
  predicate Denotes(setting: ReplicaSetting, count: nat)
  {
    match setting
    case Default(n) => n == count
    case Text(t) => ParseCount(t) == Some(count)
  }

  /** The numeric resolver refines the as-written one: when it succeeds, the
      as-written resolver succeeds on the same inputs with the same name,
      namespace and level, and with settings that denote the same counts; when
      the as-written resolver fails, so does the numeric one. */
  lemma ResolveRefinesAsWritten(env: map<string, string>, namespaceFile: Option<string>)
    ensures Resolve(env, namespaceFile).Ok? ==>
      var c := Resolve(env, namespaceFile).value;
      && ResolveAsWritten(env, namespaceFile).Ok?
      && var raw := ResolveAsWritten(env, namespaceFile).value;
      && raw.namespace == c.namespace
      && raw.deployment == c.deployment
      && raw.logLevel == c.logLevel
      && Denotes(raw.minReplicas, c.minReplicas)
      && Denotes(raw.maxReplicas, c.maxReplicas)
    ensures ResolveAsWritten(env, namespaceFile).Err? ==> Resolve(env, namespaceFile).Err?
  {
  }
}
