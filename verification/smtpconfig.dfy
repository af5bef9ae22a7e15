/** core/smtp/config.go: the policy of the inbound SMTP listener. */
module SmtpConfig {
  import opened Wrappers
  import opened Text

  datatype AuthMode = Unset | SmtpAuth | ClientCert | Either | Unknown(text: string)

  datatype User = User(username: string, password: string)

  datatype Config = Config(
    listen: string,
    requireTLS: bool,
    tlsCert: string,
    tlsKey: string,
    clientCertCA: string,
    authRequired: AuthMode,
    smtpUsers: seq<User>,
    allowedSenders: seq<string>,
    allowedRecipients: seq<string>,
    maxRecipientsPerSession: int,
    idleTimeout: int)

  datatype ConfigError =
    | ListenRequired | SendersRequired | BadAuthMode | UsersRequired
    | UsernameRequired(index: nat) | PasswordRequired(index: nat)
    | ClientCertCARequired | TLSCertRequired | TLSKeyRequired
    | NegativeMaxRecipients | NegativeIdleTimeout

  const DEFAULT_MAX_RECIPIENTS := 10

  function EffectiveAuthMode(c: Config): AuthMode {
    if c.authRequired == Unset then SmtpAuth else c.authRequired
  }

  /** 0 means no cap: the recipient allowlist alone bounds the envelope. */
  function EffectiveMaxRecipients(c: Config): int {
    if c.maxRecipientsPerSession > 0 then c.maxRecipientsPerSession
    else if |c.allowedRecipients| == 0 then DEFAULT_MAX_RECIPIENTS
    else 0
  }

  predicate UsesPasswords(c: Config) {
    EffectiveAuthMode(c) == SmtpAuth || EffectiveAuthMode(c) == Either
  }

  predicate UsesCertificates(c: Config) {
    EffectiveAuthMode(c) == ClientCert || EffectiveAuthMode(c) == Either
  }

  /** The listener holds TLS material exactly when some rule can need it. */
  predicate OffersTLS(c: Config) {
    c.requireTLS || UsesCertificates(c)
  }

  /** What a config that passes validation guarantees, rule by rule. */
  predicate Acceptable(c: Config) {
    && c.listen != "" && c.allowedSenders != []
    && (UsesPasswords(c) || UsesCertificates(c))
    && (UsesPasswords(c) ==>
          c.smtpUsers != [] && forall u <- c.smtpUsers :: TrimSpace(u.username) != "" && u.password != "")
    && (UsesCertificates(c) ==> c.clientCertCA != "")
    && (OffersTLS(c) ==> c.tlsCert != "" && c.tlsKey != "")
    && c.maxRecipientsPerSession >= 0
    && c.idleTimeout >= 0
  }

  /** What each error complains of. */
  predicate Breaks(c: Config, e: ConfigError) {
    match e
    case ListenRequired => c.listen == ""
    case SendersRequired => c.allowedSenders == []
    case BadAuthMode => c.authRequired.Unknown?
    case UsersRequired => UsesPasswords(c) && c.smtpUsers == []
    case UsernameRequired(i) => UsesPasswords(c) && i < |c.smtpUsers| && TrimSpace(c.smtpUsers[i].username) == ""
    case PasswordRequired(i) => UsesPasswords(c) && i < |c.smtpUsers| && c.smtpUsers[i].password == ""
    case ClientCertCARequired => UsesCertificates(c) && c.clientCertCA == ""
    case TLSCertRequired => OffersTLS(c) && c.tlsCert == ""
    case TLSKeyRequired => OffersTLS(c) && c.tlsKey == ""
    case NegativeMaxRecipients => c.maxRecipientsPerSession < 0
    case NegativeIdleTimeout => c.idleTimeout < 0
  }

  /** The order the rules are documented to be checked in; users are checked one by one,
      the name before the password. */
  function Stage(e: ConfigError): (nat, nat) {
    match e
    case ListenRequired => (0, 0)
    case SendersRequired => (1, 0)
    case BadAuthMode => (2, 0)
    case UsersRequired => (3, 0)
    case UsernameRequired(i) => (4, 2 * i)
    case PasswordRequired(i) => (4, 2 * i + 1)
    case ClientCertCARequired => (5, 0)
    case TLSCertRequired => (6, 0)
    case TLSKeyRequired => (7, 0)
    case NegativeMaxRecipients => (8, 0)
    case NegativeIdleTimeout => (9, 0)
  }

  predicate Before(d: ConfigError, e: ConfigError) {
    Stage(d).0 < Stage(e).0 || (Stage(d).0 == Stage(e).0 && Stage(d).1 < Stage(e).1)
  }

  /** The first rule c breaks; it passes exactly when it is acceptable. */
  method Validate(c: Config) returns (err: Option<ConfigError>)
    ensures err.None? <==> Acceptable(c)
    ensures err.Some? ==> Breaks(c, err.value) && forall d :: Breaks(c, d) ==> !Before(d, err.value)
  {
    hide TrimSpace;
    if c.listen == "" {
      return Some(ListenRequired);
    }
    if c.allowedSenders == [] {
      return Some(SendersRequired);
    }
    var mode := c.authRequired;
    if mode == Unset {
      mode := SmtpAuth;
    }
    if mode.Unknown? {
      return Some(BadAuthMode);
    }
    if mode == SmtpAuth || mode == Either {
      if c.smtpUsers == [] {
        return Some(UsersRequired);
      }
      for i := 0 to |c.smtpUsers|
        invariant forall j :: 0 <= j < i ==> TrimSpace(c.smtpUsers[j].username) != "" && c.smtpUsers[j].password != ""
      {
        if TrimSpace(c.smtpUsers[i].username) == "" {
          return Some(UsernameRequired(i));
        }
        if c.smtpUsers[i].password == "" {
          return Some(PasswordRequired(i));
        }
      }
    }
    if (mode == ClientCert || mode == Either) && c.clientCertCA == "" {
      return Some(ClientCertCARequired);
    }
    if c.requireTLS || mode == ClientCert || mode == Either {
      if c.tlsCert == "" {
        return Some(TLSCertRequired);
      }
      if c.tlsKey == "" {
        return Some(TLSKeyRequired);
      }
    }
    if |c.allowedRecipients| == 0 && c.maxRecipientsPerSession == 0 {
      // the default cap applies
    } else if c.maxRecipientsPerSession < 0 {
      return Some(NegativeMaxRecipients);
    }
    if c.idleTimeout < 0 {
      return Some(NegativeIdleTimeout);
    }
    err := None;
  }
}
