/** Configuration (src/index.ts, `getConfig`): the environment is read once
    into an immutable configuration value, or rejected when a required
    setting is missing. The environment is a map from variable name to
    value; a variable that is absent or empty counts as missing, as a falsy
    string does in the source. */
module Settings {
  import opened Results

  type Env = map<string, string>

  /** `process.env[name]`: `None` stands for `undefined`. */
  function Lookup(env: Env, name: string): (v: Option<string>)
    ensures v.Some? <==> name in env
    ensures v.Some? ==> v.value == env[name]
  {
    if name in env then Some(env[name]) else None
  }

  /** A setting that is present and non-empty (`!!value`). */
  predicate Given(v: Option<string>) {
    v.Some? && v.value != ""
  }

  /** A boolean flag: set only by the exact text "true". */
  function Flag(env: Env, name: string): (on: bool)
    ensures on <==> name in env && env[name] == "true"
  {
    Lookup(env, name) == Some("true")
  }

  const Required := " environment variable is required"

  datatype ConfigError = MissingToken | MissingUsername | MissingTarget {

    /** The text of the error `getConfig` throws: it names the missing
        variables and ends in the same phrase for every error. */
    function Message(): (m: string)
      ensures |m| > |Required| && m[|m| - |Required|..] == Required
      ensures this == MissingToken ==> m[..|m| - |Required|] == "GITHUB_TOKEN"
      ensures this == MissingUsername ==> m[..|m| - |Required|] == "SOURCE_USERNAME"
      ensures this == MissingTarget ==> m[..|m| - |Required|] == "Either TARGET_REPO_PATH or TARGET_REPO_URL"
    {
      match this
      case MissingToken => "GITHUB_TOKEN" + Required
      case MissingUsername => "SOURCE_USERNAME" + Required
      case MissingTarget => "Either TARGET_REPO_PATH or TARGET_REPO_URL" + Required
    }
  }

  /** Each error has its own text, so the operator can tell which setting
      is missing. */
  lemma ErrorMessagesDistinct(e1: ConfigError, e2: ConfigError)
    requires e1.Message() == e2.Message()
    ensures e1 == e2
  {
  }

  /** The validated configuration. The date window's bounds are kept as the
      text given in the environment (`None`: the default, derived from the
      clock); converting them to instants is outside the model. */
  datatype Config = Config(
    githubToken: string,
    sourceUsername: string,
    targetRepoPath: Option<string>,
    targetRepoUrl: Option<string>,
    fromDate: Option<string>,
    toDate: Option<string>,
    dryRun: bool,
    autoPush: bool,
    ci: bool,
    gitUserName: Option<string>,
    gitUserEmail: Option<string>)

  /** An override of a date bound, taken only when the variable is given. */
  function DateOverride(env: Env, name: string): (v: Option<string>)
    ensures v.Some? <==> Given(Lookup(env, name))
    ensures v.Some? ==> v.value == env[name]
  {
    if Given(Lookup(env, name)) then Lookup(env, name) else None
  }

  /** `getConfig`. The token is checked first, then the username, then the
      target; the target needs a path or a URL, and both may be given. */
  function GetConfig(env: Env): (r: Result<Config, ConfigError>)
    ensures r.Success? <==>
      Given(Lookup(env, "GITHUB_TOKEN")) && Given(Lookup(env, "SOURCE_USERNAME"))
      && (Given(Lookup(env, "TARGET_REPO_PATH")) || Given(Lookup(env, "TARGET_REPO_URL")))
    ensures !Given(Lookup(env, "GITHUB_TOKEN")) ==> r == Failure(MissingToken)
    ensures Given(Lookup(env, "GITHUB_TOKEN")) && !Given(Lookup(env, "SOURCE_USERNAME")) ==>
      r == Failure(MissingUsername)
    ensures (Given(Lookup(env, "GITHUB_TOKEN")) && Given(Lookup(env, "SOURCE_USERNAME"))
        && !Given(Lookup(env, "TARGET_REPO_PATH")) && !Given(Lookup(env, "TARGET_REPO_URL")))
      ==> r == Failure(MissingTarget)
    ensures r.Success? ==>
      && r.value.githubToken == env["GITHUB_TOKEN"] != ""
      && r.value.sourceUsername == env["SOURCE_USERNAME"] != ""
      && r.value.targetRepoPath == Lookup(env, "TARGET_REPO_PATH")
      && r.value.targetRepoUrl == Lookup(env, "TARGET_REPO_URL")
      && (r.value.dryRun <==> "DRY_RUN" in env && env["DRY_RUN"] == "true")
      && (r.value.autoPush <==> "AUTO_PUSH" in env && env["AUTO_PUSH"] == "true")
      && (r.value.ci <==> "CI" in env && env["CI"] == "true")
      && r.value.fromDate == DateOverride(env, "FROM_DATE")
      && r.value.toDate == DateOverride(env, "TO_DATE")
      && r.value.gitUserName == Lookup(env, "GIT_USER_NAME")
      && r.value.gitUserEmail == Lookup(env, "GIT_USER_EMAIL")
  {
    var token := Lookup(env, "GITHUB_TOKEN");
    var user := Lookup(env, "SOURCE_USERNAME");
    var path := Lookup(env, "TARGET_REPO_PATH");
    var url := Lookup(env, "TARGET_REPO_URL");
    if !Given(token) then Failure(MissingToken)
    else if !Given(user) then Failure(MissingUsername)
    else if !Given(path) && !Given(url) then Failure(MissingTarget)
    else
      Success(Config(
        token.value, user.value, path, url,
        DateOverride(env, "FROM_DATE"), DateOverride(env, "TO_DATE"),
        Flag(env, "DRY_RUN"), Flag(env, "AUTO_PUSH"), Flag(env, "CI"),
        Lookup(env, "GIT_USER_NAME"), Lookup(env, "GIT_USER_EMAIL")))
  }

  /** Where the target repository comes from. */
  datatype Target = CloneFrom(url: string) | LocalPath(path: string)

  /** A configuration `main` can act on: a URL or a path is given. */
  predicate HasTarget(config: Config) {
    Given(config.targetRepoUrl) || Given(config.targetRepoPath)
  }

  /** `main`'s choice of repository: clone when a URL is given, otherwise
      the path (which the source asserts non-null with `!`). */
  function ResolveTarget(config: Config): (t: Target)
    requires HasTarget(config)
    ensures t.CloneFrom? <==> Given(config.targetRepoUrl)
    ensures t.CloneFrom? ==> t.url == config.targetRepoUrl.value
    ensures t.LocalPath? ==> Some(t.path) == config.targetRepoPath
  {
    if Given(config.targetRepoUrl) then CloneFrom(config.targetRepoUrl.value)
    else LocalPath(config.targetRepoPath.value)
  }

  /** Every configuration `getConfig` accepts names a non-empty location,
      so the path assertion in `main` never fails. */
  lemma AcceptedConfigHasTarget(env: Env)
    requires GetConfig(env).Success?
    ensures HasTarget(GetConfig(env).value)
    ensures match ResolveTarget(GetConfig(env).value)
      case CloneFrom(url) => url != ""
      case LocalPath(path) => path != ""
  {
  }

  /** The identity `main` configures before committing, when both name and
      email are given. */
  function Identity(config: Config): (id: Option<(string, string)>)
    ensures id.Some? <==> Given(config.gitUserName) && Given(config.gitUserEmail)
    ensures id.Some? ==> id.value == (config.gitUserName.value, config.gitUserEmail.value)
    ensures id.Some? ==> id.value.0 != "" && id.value.1 != ""
  {
    if Given(config.gitUserName) && Given(config.gitUserEmail)
    then Some((config.gitUserName.value, config.gitUserEmail.value))
    else None
  }
}
