/**
 * The decision of the select-role node.  Its body is a zero-page-login check:
 * a request carrying the configured username and password headers, whose
 * password equals the configured secret and whose user exists and is active,
 * goes to outcome true with the username recorded in the shared state; every
 * other request goes to outcome false.
 */
module SelectRoleNode {
  import opened Results
  import opened AmIdentityHelper

  /** The node's configuration. */
  datatype Config = Config(usernameHeader: string, passwordHeader: string, secretKey: string)

  /** The configuration's default values. */
  const DefaultConfig := Config("X-OpenAM-Username", "X-OpenAM-Password", "secretKey")

  /** Shared-state keys of the authentication tree API (SharedStateConstants). */
  const REALM := "realm"
  const USERNAME := "username"

  /**
   * Request headers, a multimap: a header that is present carries at least
   * one value, in the order received.
   */
  type Headers = h: map<string, seq<string>> | forall name :: name in h ==> h[name] != [] witness map[]

  /** The tree's shared state, restricted to string values. */
  type SharedState = map<string, string>

  /**
   * The node's action: the outcome taken and, when the node replaces it, the
   * new shared state.
   */
  datatype Action = Action(outcome: bool, replacedSharedState: Option<SharedState>)

  /** sharedState.get(REALM).asString(): null when the key is missing. */
  function RealmOf(sharedState: SharedState): Option<string>
  {
    if REALM in sharedState then Some(sharedState[REALM]) else None
  }

  /** True exactly when the query answered true; a thrown exception counts as false. */
  predicate AnsweredTrue(q: Query)
  {
    match q
    case Answer(b) => b
    case Raises(_) => false   // IdRepoException and SSOException are caught
  }

  /**
   * process.  `getIdentity` is the directory lookup of a username in a realm
   * (null when there is no such identity).  Only the true outcome replaces the
   * shared state.
   */
  function Process(
    config: Config,
    headers: Headers,
    sharedState: SharedState,
    getIdentity: (string, Option<string>) -> Option<Identity>
  ): (a: Action)
    ensures a.outcome <==> a.replacedSharedState.Some?
  {
    var hasUsername := config.usernameHeader in headers;
    var hasPassword := config.passwordHeader in headers;
    if !hasUsername || !hasPassword then
      Action(false, None)
    else
      var password := headers[config.passwordHeader][0];
      var username := headers[config.usernameHeader][0];
      var userIdentity := getIdentity(username, RealmOf(sharedState));
      if && config.secretKey == password
         && userIdentity.Some?
         && AnsweredTrue(userIdentity.value.isExists)
         && AnsweredTrue(userIdentity.value.isActive)
      then
        Action(true, Some(sharedState[USERNAME := username]))
      else
        Action(false, None)
  }

  /** The identity the node looks up: the first username value, in the shared state's realm. */
  function LookedUp(
    config: Config,
    headers: Headers,
    sharedState: SharedState,
    getIdentity: (string, Option<string>) -> Option<Identity>
  ): Option<Identity>
    requires config.usernameHeader in headers
  {
    getIdentity(headers[config.usernameHeader][0], RealmOf(sharedState))
  }

  // ---------------------------------------------------------------------
  // Properties of process

  /** Without both headers the outcome is false and the shared state is kept. */
  lemma MissingHeaderRejects(
    config: Config, headers: Headers, sharedState: SharedState,
    getIdentity: (string, Option<string>) -> Option<Identity>
  )
    requires config.usernameHeader !in headers || config.passwordHeader !in headers
    ensures Process(config, headers, sharedState, getIdentity) == Action(false, None)
  {
  }

  /**
   * The outcome is true exactly when both headers are present, the first
   * password value equals the secret, and the looked-up identity is non-null,
   * exists and is active (each query answered without an exception).
   */
  lemma AcceptsIff(
    config: Config, headers: Headers, sharedState: SharedState,
    getIdentity: (string, Option<string>) -> Option<Identity>
  )
    ensures Process(config, headers, sharedState, getIdentity).outcome <==>
      && config.usernameHeader in headers
      && config.passwordHeader in headers
      && headers[config.passwordHeader][0] == config.secretKey
      && LookedUp(config, headers, sharedState, getIdentity).Some?
      && LookedUp(config, headers, sharedState, getIdentity).value.isExists == Answer(true)
      && LookedUp(config, headers, sharedState, getIdentity).value.isActive == Answer(true)
  {
  }

  /**
   * On outcome true the new shared state is the old one with USERNAME set to
   * the first username value; no other key changes.
   */
  lemma AcceptSetsOnlyUsername(
    config: Config, headers: Headers, sharedState: SharedState,
    getIdentity: (string, Option<string>) -> Option<Identity>
  )
    requires Process(config, headers, sharedState, getIdentity).outcome
    ensures config.usernameHeader in headers
    ensures var s := Process(config, headers, sharedState, getIdentity).replacedSharedState.value;
      && s.Keys == sharedState.Keys + {USERNAME}
      && s[USERNAME] == headers[config.usernameHeader][0]
      && forall k :: k in sharedState && k != USERNAME ==> s[k] == sharedState[k]
  {
  }

  /** A directory exception during either check is swallowed into outcome false. */
  lemma RepoFailureRejects(
    config: Config, headers: Headers, sharedState: SharedState,
    getIdentity: (string, Option<string>) -> Option<Identity>
  )
    requires config.usernameHeader in headers
    requires LookedUp(config, headers, sharedState, getIdentity).Some?
    requires LookedUp(config, headers, sharedState, getIdentity).value.isExists.Raises?
          || LookedUp(config, headers, sharedState, getIdentity).value.isActive.Raises?
    ensures Process(config, headers, sharedState, getIdentity) == Action(false, None)
  {
  }

  /** Only the first value of each of the two headers matters. */
  lemma OnlyFirstValuesMatter(
    config: Config, h1: Headers, h2: Headers, sharedState: SharedState,
    getIdentity: (string, Option<string>) -> Option<Identity>
  )
    requires config.usernameHeader in h1 <==> config.usernameHeader in h2
    requires config.passwordHeader in h1 <==> config.passwordHeader in h2
    requires config.usernameHeader in h1 ==> h1[config.usernameHeader][0] == h2[config.usernameHeader][0]
    requires config.passwordHeader in h1 ==> h1[config.passwordHeader][0] == h2[config.passwordHeader][0]
    ensures Process(config, h1, sharedState, getIdentity) == Process(config, h2, sharedState, getIdentity)
  {
  }

  /**
   * With the default configuration, a request whose X-OpenAM-Password is
   * "secretKey" logs in an existing active user named by X-OpenAM-Username,
   * and any other password is refused.
   */
  lemma DefaultConfigLogin(
    username: string, password: string, sharedState: SharedState,
    getIdentity: (string, Option<string>) -> Option<Identity>
  )
    requires getIdentity(username, RealmOf(sharedState)).Some?
    requires getIdentity(username, RealmOf(sharedState)).value.isExists == Answer(true)
    requires getIdentity(username, RealmOf(sharedState)).value.isActive == Answer(true)
    ensures var headers: Headers := map["X-OpenAM-Username" := [username], "X-OpenAM-Password" := [password]];
      Process(DefaultConfig, headers, sharedState, getIdentity)
        == if password == "secretKey" then Action(true, Some(sharedState[USERNAME := username]))
           else Action(false, None)
  {
  }
}
