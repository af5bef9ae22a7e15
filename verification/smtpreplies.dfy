/** What each reply code of a session means, in terms of the configuration's own fields and of
    the events before it: every code is drawn exactly when its reason holds. */
module SmtpReplies {
  import opened Wrappers
  import opened Text
  import opened Numbers
  import opened SmtpConfig
  import opened SmtpSession
  import opened SmtpTrace

  /** TLS as required, and a login, a certificate or either as configured; a login when the
      configuration does not say. */
  ghost predicate Cleared(c: Config, t: seq<Event>) {
    && (c.requireTLS ==> Secured(t))
    && match c.authRequired
       case Unset => LoggedIn(t)
       case SmtpAuth => LoggedIn(t)
       case ClientCert => Certified(t)
       case _ => LoggedIn(t) || Certified(t)
  }

  predicate TakesPasswords(c: Config) {
    c.authRequired.Unset? || c.authRequired.SmtpAuth? || c.authRequired.Either?
  }

  predicate TakesTLS(c: Config) {
    c.requireTLS || c.authRequired.ClientCert? || c.authRequired.Either?
  }

  /** Room for one more than k recipients: the configured cap, ten when neither a cap nor a
      recipient allowlist is configured, and no cap otherwise. */
  predicate Room(c: Config, k: nat) {
    if c.maxRecipientsPerSession > 0 then k < c.maxRecipientsPerSession
    else c.allowedRecipients == [] ==> k < 10
  }

  lemma RoomIs(c: Config, k: nat)
    ensures Room(c, k) <==> !(0 < EffectiveMaxRecipients(c) <= k)
  {
  }

  lemma ClearedIs(c: Config, s: Session, t: seq<Event>)
    requires SecurityAgrees(s, t)
    ensures Cleared(c, t) <==> !NeedsTLS(c, s) && !AuthMissing(c, s)
  {
    hide Secured, Certified, LoggedIn;
  }

  // --- MAIL and RCPT ------------------------------------------------------------------------

  function MailReply(c: Config, cleared: bool, addr: string): nat {
    if !cleared then 530
    else if addr == "" then 501
    else if !Allowlisted(addr, c.allowedSenders) then 550
    else 250
  }

  lemma {:induction false} MailReplied(v: Server, cmds: seq<Cmd>, n: nat)
    requires Acceptable(v.cfg) && n < |cmds| && Verb(cmds[n].line) == MAIL
    ensures var t := Trace(v, START, cmds);
            t[n].sent.None? && t[n].replies == [MailReply(v.cfg, Cleared(v.cfg, t[..n]), Sender(cmds[n].line))]
  {
    hide Secured, Certified, LoggedIn, Sender, Allowlisted, Policy, EnvelopeAgrees, SecurityAgrees, Cleared, NeedsTLS,
         AuthMissing;
    EventAt(v, START, cmds, n);
    SessionAgrees(v, cmds[..n]);
    ClearedIs(v.cfg, After(v, START, cmds[..n]), Trace(v, START, cmds)[..n]);
  }

  function RcptReply(c: Config, open: bool, accepted: nat, addr: string): nat {
    if !open then 503
    else if addr == "" then 501
    else if !Room(c, accepted) then 452
    else if c.allowedRecipients != [] && !Allowlisted(addr, c.allowedRecipients) then 550
    else 250
  }

  lemma RcptReplied(v: Server, cmds: seq<Cmd>, n: nat)
    requires Acceptable(v.cfg) && n < |cmds| && Verb(cmds[n].line) == RCPT
    ensures Trace(v, START, cmds)[n].sent.None?
    ensures var t, addr := Trace(v, START, cmds), Recipient(cmds[n].line);
            && ((forall m: nat :: !OpenedAt(t[..n], m)) ==> t[n].replies == [RcptReply(v.cfg, false, 0, addr)])
            && forall m: nat :: OpenedAt(t[..n], m) ==>
                 m < n && t[n].replies == [RcptReply(v.cfg, true, |Rcpts(t[m + 1..n])|, addr)]
  {
    hide Recipient, Sender, OpenedAt, Policy, SecurityAgrees, Rcpts, Allowlisted, Room, EffectiveMaxRecipients;
    EventAt(v, START, cmds, n);
    SessionAgrees(v, cmds[..n]);
    SliceTwice(Trace(v, START, cmds), n);
    RoomIs(v.cfg, |After(v, START, cmds[..n]).rcptTo|);
  }

  /** With neither a cap nor a recipient allowlist configured, the eleventh recipient is one
      too many. */
  lemma EleventhRefused(v: Server, cmds: seq<Cmd>, n: nat, m: nat)
    requires Acceptable(v.cfg) && v.cfg.maxRecipientsPerSession == 0 && v.cfg.allowedRecipients == []
    requires n < |cmds| && Verb(cmds[n].line) == RCPT && Recipient(cmds[n].line) != ""
    requires OpenedAt(Trace(v, START, cmds)[..n], m) && m < n
    ensures var t := Trace(v, START, cmds);
            && t[n].replies == (if |Rcpts(t[m + 1..n])| < 10 then [250] else [452])
            && |Rcpts(t[m + 1..n])| <= 10
  {
    hide OpenedAt, Recipient, Rcpts, Trace, Acceptable, Sender, Allowlisted, Policy, SecurityAgrees;
    RcptReplied(v, cmds, n);
    SessionAgrees(v, cmds[..n]);
    EventAt(v, START, cmds, n);
    SliceTwice(Trace(v, START, cmds), n);
    CapHolds(v.cfg, After(v, START, cmds[..n]));
  }

  lemma CapHolds(c: Config, s: Session)
    requires Policy(c, s) && c.maxRecipientsPerSession == 0 && c.allowedRecipients == []
    ensures |s.rcptTo| <= 10
  {
  }

  // --- DATA -----------------------------------------------------------------------------------

  /** What of a blob is parsed: all of it under a positive limit short of the largest; its
      first byte under the limit 0; otherwise nothing. */
  function Judged(bytes: string, maxBody: int): string
  {
    if 0 < maxBody < INT64_LIMIT - 1 || bytes == "" then bytes
    else if maxBody == 0 then [bytes[0]]
    else ""
  }

  lemma KeptIsJudged(bytes: string, maxBody: int)
    requires IsInt64(maxBody)
    ensures 0 < maxBody < |Kept(bytes, maxBody)| <==> 0 < maxBody < INT64_LIMIT - 1 && |bytes| > maxBody
    ensures !(0 < maxBody < |bytes|) || maxBody == INT64_LIMIT - 1 ==> Kept(bytes, maxBody) == Judged(bytes, maxBody)
  {
    hide Wrap64;
    WindowIs(maxBody);
  }

  function DataReply(v: Server, cmd: Cmd): seq<nat> {
    match cmd.data
    case ReadError => [354, 451]
    case Blob(bytes) =>
      if 0 < v.maxBody < INT64_LIMIT - 1 && |bytes| > v.maxBody then [354, 552]
      else
        var m := v.env.parseMail(Judged(bytes, v.maxBody));
        if m.None? || m.value.body.None? then [354, 550]
        else if cmd.sendOk then [354, 250]
        else [354, 451]
  }

  /** A send was tried: the blob was read, small enough, and parsed to a text. */
  predicate Tried(v: Server, cmd: Cmd) {
    && cmd.data.Blob? && !(0 < v.maxBody < INT64_LIMIT - 1 && |cmd.data.bytes| > v.maxBody)
    && var m := v.env.parseMail(Judged(cmd.data.bytes, v.maxBody));
       m.Some? && m.value.body.Some?
  }

  lemma {:induction false} DataReplied(v: Server, cmds: seq<Cmd>, n: nat)
    requires Acceptable(v.cfg) && IsInt64(v.maxBody) && n < |cmds| && Verb(cmds[n].line) == DATA
    ensures var t := Trace(v, START, cmds);
            if exists m: nat :: OpenedAt(t[..n], m) && m < n && Rcpts(t[m + 1..n]) != [] then
              t[n].replies == DataReply(v, cmds[n]) && (t[n].sent.Some? <==> Tried(v, cmds[n]))
            else t[n].replies == [503] && t[n].sent.None?
  {
    hide Recipient, Sender, OpenedAt, Policy, SecurityAgrees, Rcpts, Acceptable, Data, DataReply, Tried, Trace;
    var s := After(v, START, cmds[..n]);
    EventAt(v, START, cmds, n);
    SessionAgrees(v, cmds[..n]);
    SliceTwice(Trace(v, START, cmds), n);
    ClosedIsEmpty(v.cfg, s);
    DataMeans(v, s, cmds[n]);
  }

  lemma DataMeans(v: Server, s: Session, cmd: Cmd)
    requires IsInt64(v.maxBody)
    ensures var r := Data(v.cfg, v.env, v.maxBody, s, cmd.data, cmd.sendOk);
            if s.transaction && s.rcptTo != [] then r.replies == DataReply(v, cmd) && (r.sent.Some? <==> Tried(v, cmd))
            else r.replies == [503] && r.sent.None?
  {
    hide Kept, Judged, ParseMIME;
    if cmd.data.Blob? {
      KeptIsJudged(cmd.data.bytes, v.maxBody);
      SentTo(v.env, Kept(cmd.data.bytes, v.maxBody), s.mailFrom, s.rcptTo);
    }
  }

  lemma ClosedIsEmpty(c: Config, s: Session)
    requires Policy(c, s)
    ensures s.rcptTo != [] ==> s.transaction
  {
  }

  // --- STARTTLS and AUTH -------------------------------------------------------------------------

  lemma {:induction false} StartTLSReplied(v: Server, cmds: seq<Cmd>, n: nat)
    requires Acceptable(v.cfg) && n < |cmds| && Verb(cmds[n].line) == STARTTLS
    ensures var t := Trace(v, START, cmds);
            && t[n].replies == [if !TakesTLS(v.cfg) then 502 else if Secured(t[..n]) then 503 else 220]
            && t[n].sent.None?
  {
    hide Secured, Certified, LoggedIn, Policy, EnvelopeAgrees;
    EventAt(v, START, cmds, n);
    SessionAgrees(v, cmds[..n]);
  }

  /** The text is the PLAIN credentials of a configured user: an identity, the name and the
      password, set apart by NULs, of which only the password may hold any. */
  ghost predicate LogsIn(c: Config, text: Option<string>, user: string) {
    exists authzid, pass :: text == Some(authzid + "\0" + user + "\0" + pass)
                            && '\0' !in authzid && '\0' !in user && User(user, pass) in c.smtpUsers
  }

  lemma LogsInIff(c: Config, e: Env, credentials: string, user: string)
    ensures PlainUser(c, e, credentials) == Some(user) <==> LogsIn(c, e.decodeBase64(credentials), user)
  {
    hide IndexByte, PlainUser;
    var text := e.decodeBase64(credentials);
    if authzid, pass :| text == Some(authzid + "\0" + user + "\0" + pass)
                        && '\0' !in authzid && '\0' !in user && User(user, pass) in c.smtpUsers {
      PlainFieldsFound(c, e, authzid, User(user, pass), credentials);
    }
    if PlainUser(c, e, credentials) == Some(user) {
      var authzid, pass := PlainFields(c, e, credentials);
    }
  }

  lemma PlainFields(c: Config, e: Env, credentials: string) returns (authzid: string, pass: string)
    requires PlainUser(c, e, credentials).Some?
    ensures var user := PlainUser(c, e, credentials).value;
            && e.decodeBase64(credentials) == Some(authzid + "\0" + user + "\0" + pass)
            && '\0' !in authzid && '\0' !in user && User(user, pass) in c.smtpUsers
  {
    hide IndexByte;
    var raw := e.decodeBase64(credentials).value;
    var a := IndexByte(raw, '\0');
    var rest := raw[a + 1..];
    var b := IndexByte(rest, '\0');
    authzid, pass := raw[..a], rest[b + 1..];
    ThreeFields(raw, a, rest, b);
  }

  lemma ThreeFields(raw: string, a: int, rest: string, b: int)
    requires 0 <= a < |raw| && raw[a] == '\0' && rest == raw[a + 1..]
    requires 0 <= b < |rest| && rest[b] == '\0'
    ensures raw == raw[..a] + "\0" + rest[..b] + "\0" + rest[b + 1..]
  {
  }

  /** The whole answer to AUTH; `user` is who logs in, when someone does. */
  ghost predicate AuthReply(v: Server, secured: bool, arg: string, nextLine: Option<string>, replies: seq<nat>,
                            login: Option<string>)
  {
    if v.cfg.requireTLS && !secured then replies == [530] && login.None?
    else if !TakesPasswords(v.cfg) then replies == [502] && login.None?
    else if !(|arg| >= 5 && SameButCase(arg[..5], "PLAIN")) then replies == [504] && login.None?
    else
      var inline := TrimSpace(arg[5..]);
      if inline != "" then Verdict(v, inline, replies, login)
      else
        && replies != [] && replies[0] == 334
        && match nextLine
           case None => replies == [334] && login.None?
           case Some(line) => Verdict(v, line, replies[1..], login)
  }

  ghost predicate Verdict(v: Server, credentials: string, replies: seq<nat>, login: Option<string>) {
    match login
    case Some(user) => replies == [235] && LogsIn(v.cfg, v.env.decodeBase64(credentials), user)
    case None => replies == [535] && forall user :: !LogsIn(v.cfg, v.env.decodeBase64(credentials), user)
  }

  lemma AuthReplied(v: Server, cmds: seq<Cmd>, n: nat) returns (login: Option<string>)
    requires Acceptable(v.cfg) && n < |cmds| && Verb(cmds[n].line) == AUTH
    ensures var t := Trace(v, START, cmds);
            && AuthReply(v, Secured(t[..n]), Arg(cmds[n].line), cmds[n].nextLine, t[n].replies, login)
            && t[n].sent.None?
    ensures var before, after := After(v, START, cmds[..n]), After(v, START, cmds[..n + 1]);
            after == if login.Some? then before.(authedUser := login.value) else before
  {
    hide Secured, Certified, LoggedIn, Policy, EnvelopeAgrees, Arg, Acceptable, Auth, AuthReply, Trace, StartTLS, MailFrom,
         RcptTo, Data, Verb;
    var s, arg, nextLine := After(v, START, cmds[..n]), Arg(cmds[n].line), cmds[n].nextLine;
    EventAt(v, START, cmds, n);
    SessionAgrees(v, cmds[..n]);
    TraceAppend(v, START, cmds[..n], cmds[n]);
    assert cmds[..n] + [cmds[n]] == cmds[..n + 1];
    login := AuthMeans(v, s, arg, nextLine);
  }

  lemma AuthMeans(v: Server, s: Session, arg: string, nextLine: Option<string>) returns (login: Option<string>)
    ensures var r := Auth(v.cfg, v.env, s, arg, nextLine);
            && AuthReply(v, s.tlsActive, arg, nextLine, r.replies, login) && r.sent.None?
            && r.next == if login.Some? then s.(authedUser := login.value) else s
  {
    hide PlainUser, LogsIn, EqualFold, SameButCase, TrimSpace;
    if |arg| >= 5 {
      FoldIff(arg[..5], "PLAIN");
    }
    login := None;
    if !NeedsTLS(v.cfg, s) && UsesPasswords(v.cfg) && |arg| >= 5 && EqualFold(arg[..5], "PLAIN") {
      var inline := TrimSpace(arg[5..]);
      if inline != "" || nextLine.Some? {
        var credentials := if inline == "" then nextLine.value else inline;
        login := PlainUser(v.cfg, v.env, credentials);
        forall user ensures PlainUser(v.cfg, v.env, credentials) == Some(user)
                            <==> LogsIn(v.cfg, v.env.decodeBase64(credentials), user)
        {
          LogsInIff(v.cfg, v.env, credentials, user);
        }
      }
    }
  }

  // --- The other commands, and a session by certificate ----------------------------------------------

  lemma {:induction false} OthersReplied(v: Server, cmds: seq<Cmd>, n: nat)
    requires Acceptable(v.cfg) && n < |cmds|
    requires !(Verb(cmds[n].line) in {MAIL, RCPT, DATA, STARTTLS, AUTH})
    ensures var t := Trace(v, START, cmds);
            && t[n].sent.None?
            && t[n].replies == match Verb(cmds[n].line) {
                 case QUIT => [221]
                 case OTHER => [500]
                 case _ => [250]
               }
  {
    EventAt(v, START, cmds, n);
  }

  /** Where certificates count, a client that presents a verified one in STARTTLS may send at
      once. */
  lemma {:induction false} CertificateSession(v: Server, tls: Cmd, mail: Cmd)
    requires Acceptable(v.cfg) && (v.cfg.authRequired.ClientCert? || v.cfg.authRequired.Either?)
    requires Verb(tls.line) == STARTTLS && tls.handshake == Established(true)
    requires GoodMail(v.cfg, mail)
    ensures var t := Trace(v, START, [tls, mail]); t[0].replies == [220] && t[1].replies == [250]
  {
    hide Sender, Allowlisted, Acceptable;
    var cmds := [tls, mail];
    StartTLSReplied(v, cmds, 0);
    MailReplied(v, cmds, 1);
    EventAt(v, START, cmds, 0);
    EventAt(v, START, cmds, 1);
    var t := Trace(v, START, cmds);
    assert t[..0] == [] && t[..1][0] == t[0];
    assert SecuredBy(t[..1][0]);
  }
}
