/** Whole sessions: what a trace of commands and reply codes alone says about who may
    send, to whom, and when, proved to be what the session does. */
module SmtpTrace {
  import opened Wrappers
  import opened Text
  import opened Numbers
  import opened Transport
  import opened SmtpConfig
  import opened SmtpSession

  // --- What a trace says, without looking at any session ------------------------------------

  predicate AcceptedMail(e: Event) {
    Verb(e.cmd.line) == MAIL && e.replies == [250]
  }

  predicate AcceptedRcpt(e: Event) {
    Verb(e.cmd.line) == RCPT && e.replies == [250]
  }

  predicate SecuredBy(e: Event) {
    Verb(e.cmd.line) == STARTTLS && e.replies == [220] && e.cmd.handshake.Established?
  }

  predicate LoggedInBy(e: Event) {
    Verb(e.cmd.line) == AUTH && 235 in e.replies
  }

  /** RSET, a completed STARTTLS, or a DATA that got as far as 354. */
  predicate Ends(e: Event) {
    Verb(e.cmd.line) == RSET || SecuredBy(e) || (Verb(e.cmd.line) == DATA && 354 in e.replies)
  }

  /** The addresses of the accepted RCPT commands, in order. */
  function Rcpts(t: seq<Event>): seq<string> {
    if t == [] then []
    else Rcpts(t[..|t| - 1]) + if AcceptedRcpt(t[|t| - 1]) then [Recipient(t[|t| - 1].cmd.line)] else []
  }

  /** The transaction in progress after t was opened by the MAIL at m. */
  ghost predicate OpenedAt(t: seq<Event>, m: nat) {
    && m < |t| && AcceptedMail(t[m])
    && forall j :: m < j < |t| ==> !AcceptedMail(t[j]) && !Ends(t[j])
  }

  predicate Secured(t: seq<Event>) {
    exists j :: 0 <= j < |t| && SecuredBy(t[j])
  }

  predicate Certified(t: seq<Event>) {
    exists j :: 0 <= j < |t| && SecuredBy(t[j]) && t[j].cmd.handshake.verified
  }

  /** A login that no later STARTTLS has wiped out. */
  ghost predicate LoggedIn(t: seq<Event>) {
    exists j :: 0 <= j < |t| && LoggedInBy(t[j]) && forall k :: j < k < |t| ==> !SecuredBy(t[k])
  }

  /** What the policy asks of a trace before a MAIL may follow it. */
  ghost predicate Authorized(c: Config, t: seq<Event>) {
    && (c.requireTLS ==> Secured(t))
    && match EffectiveAuthMode(c)
       case SmtpAuth => LoggedIn(t)
       case ClientCert => Certified(t)
       case _ => LoggedIn(t) || Certified(t)
  }

  // --- The session agrees with its trace ------------------------------------------------------

  /** The session's security is what the trace shows. */
  ghost predicate SecurityAgrees(s: Session, t: seq<Event>) {
    && s.tlsActive == Secured(t)
    && s.authedViaCert == Certified(t)
    && (s.authedUser != "" <==> LoggedIn(t))
  }

  /** The envelope being built is what the trace shows. */
  ghost predicate EnvelopeAgrees(s: Session, t: seq<Event>) {
    && (s.transaction <==> exists m: nat :: OpenedAt(t, m))
    && (forall m: nat :: OpenedAt(t, m) ==> s.mailFrom == Sender(t[m].cmd.line) && s.rcptTo == Rcpts(t[m + 1..]))
  }

  /** The reachable-state invariant: an open transaction satisfies the whole policy. */
  ghost predicate Policy(c: Config, s: Session) {
    if s.transaction then
      && !NeedsTLS(c, s) && !AuthMissing(c, s)
      && s.mailFrom != "" && Allowlisted(s.mailFrom, c.allowedSenders)
      && (forall a <- s.rcptTo :: MayReceive(c, a))
      && (if EffectiveMaxRecipients(c) > 0 then |s.rcptTo| <= EffectiveMaxRecipients(c) else c.allowedRecipients != [])
    else s.mailFrom == "" && s.rcptTo == []
  }

  /** In a validated config every user name is non-empty, so a login always shows. */
  lemma LoginNamesAUser(c: Config, e: Env, credentials: string)
    requires Acceptable(c) && UsesPasswords(c) && PlainUser(c, e, credentials).Some?
    ensures PlainUser(c, e, credentials).value != ""
  {
    var raw := e.decodeBase64(credentials).value;
    var a := IndexByte(raw, '\0');
    var b := IndexByte(raw[a + 1..], '\0');
    var u := User(raw[a + 1..][..b], raw[a + 1..][b + 1..]);
    assert u in c.smtpUsers && TrimSpace(u.username) != "";
    assert TrimSpace("") == "";
  }

  /** AUTH either changes nothing or, exactly when it answers 235, logs a user in. */
  lemma AuthOutcome(c: Config, e: Env, s: Session, arg: string, nextLine: Option<string>)
    requires Acceptable(c)
    ensures var r := Auth(c, e, s, arg, nextLine);
            if 235 in r.replies then r.next == s.(authedUser := r.next.authedUser) && r.next.authedUser != ""
            else r.next == s
    ensures var replies := Auth(c, e, s, arg, nextLine).replies;
            |replies| > 0 && (235 in replies <==> replies[|replies| - 1] == 235)
    ensures Auth(c, e, s, arg, nextLine).sent.None? && 354 !in Auth(c, e, s, arg, nextLine).replies
  {
    hide PlainUser, TrimSpace, EqualFold;
    if !NeedsTLS(c, s) && UsesPasswords(c) && |arg| >= 5 {
      var inline := TrimSpace(arg[5..]);
      if inline != "" || nextLine.Some? {
        var credentials := if inline == "" then nextLine.value else inline;
        if PlainUser(c, e, credentials).Some? {
          LoginNamesAUser(c, e, credentials);
        }
      }
    }
  }

  lemma MailKeepsPolicy(c: Config, s: Session, line: string)
    requires Policy(c, s)
    ensures Policy(c, MailFrom(c, s, line).next)
  {
    hide Sender, Allowlisted;
  }

  lemma RcptKeepsPolicy(c: Config, s: Session, line: string)
    requires Policy(c, s)
    ensures Policy(c, RcptTo(c, s, line).next)
  {
    hide Recipient, MayReceive;
  }

  lemma PolicyKept(v: Server, s: Session, cmd: Cmd)
    requires Acceptable(v.cfg) && Policy(v.cfg, s)
    ensures Policy(v.cfg, Respond(v.cfg, v.env, v.maxBody, s, cmd).next)
  {
    hide Verb, Arg, Auth, MailFrom, RcptTo, Allowlisted, MayReceive, Acceptable, ParseMIME, Kept;
    AuthOutcome(v.cfg, v.env, s, Arg(cmd.line), cmd.nextLine);
    MailKeepsPolicy(v.cfg, s, cmd.line);
    RcptKeepsPolicy(v.cfg, s, cmd.line);
  }

  // --- Steps ---------------------------------------------------------------------------------

  lemma {:induction false} RcptsAppend(t: seq<Event>, e: Event)
    ensures Rcpts(t + [e]) == Rcpts(t) + if AcceptedRcpt(e) then [Recipient(e.cmd.line)] else []
  {
    assert (t + [e])[..|t|] == t;
  }

  lemma SecurityStep(t: seq<Event>, e: Event)
    ensures Secured(t + [e]) <==> Secured(t) || SecuredBy(e)
    ensures Certified(t + [e]) <==> Certified(t) || (SecuredBy(e) && e.cmd.handshake.verified)
    ensures LoggedIn(t + [e]) <==> LoggedInBy(e) || (LoggedIn(t) && !SecuredBy(e))
  {
    hide SecuredBy, LoggedInBy;
    var u := t + [e];
    assert u[|t|] == e && forall j :: 0 <= j < |t| ==> u[j] == t[j];
    if j :| 0 <= j < |t| && LoggedInBy(t[j]) && forall k :: j < k < |t| ==> !SecuredBy(t[k]) {
      assert LoggedInBy(u[j]);
    }
    if LoggedIn(u) && !LoggedInBy(e) {
      var j :| 0 <= j < |u| && LoggedInBy(u[j]) && forall k :: j < k < |u| ==> !SecuredBy(u[k]);
      assert forall k :: j < k < |t| ==> t[k] == u[k];
      assert LoggedInBy(t[j]) && !SecuredBy(u[|t|]);
    }
    if j :| 0 <= j < |t| && SecuredBy(t[j]) {
      assert SecuredBy(u[j]);
    }
  }

  lemma SecurityAgreesKept(v: Server, s: Session, t: seq<Event>, cmd: Cmd)
    requires Acceptable(v.cfg) && SecurityAgrees(s, t)
    ensures SecurityAgrees(Respond(v.cfg, v.env, v.maxBody, s, cmd).next, t + [EventOf(v, s, cmd)])
  {
    hide Verb, Arg, Auth, Secured, Certified, LoggedIn, Acceptable, ParseMIME, Kept, Sender, Recipient, MailCode, RcptCode;
    SecurityStep(t, EventOf(v, s, cmd));
    AuthOutcome(v.cfg, v.env, s, Arg(cmd.line), cmd.nextLine);
  }

  /** How the envelope moves: an accepted MAIL opens it, RSET, STARTTLS and a DATA past
      354 close it, an accepted RCPT extends it, and nothing else touches it. */
  lemma EnvelopeStep(v: Server, s: Session, cmd: Cmd)
    requires Acceptable(v.cfg)
    ensures var e, n := EventOf(v, s, cmd), Respond(v.cfg, v.env, v.maxBody, s, cmd).next;
            if AcceptedMail(e) then !Ends(e) && n.transaction && n.mailFrom == Sender(cmd.line) && n.rcptTo == []
            else if Ends(e) then !n.transaction && n.mailFrom == "" && n.rcptTo == []
            else
              && n.transaction == s.transaction && n.mailFrom == s.mailFrom
              && n.rcptTo == s.rcptTo + (if AcceptedRcpt(e) then [Recipient(cmd.line)] else [])
              && (AcceptedRcpt(e) ==> s.transaction)
  {
    hide Verb, Arg, Auth, Acceptable, ParseMIME, Kept, Sender, Recipient, MayReceive, MailCode;
    match Verb(cmd.line)
    case AUTH => AuthOutcome(v.cfg, v.env, s, Arg(cmd.line), cmd.nextLine);
    case DATA => DataOutcome(v, s, cmd.data, cmd.sendOk);
    case _ =>
  }

  lemma EnvelopeAgreesKept(v: Server, s: Session, t: seq<Event>, cmd: Cmd)
    requires Acceptable(v.cfg) && EnvelopeAgrees(s, t)
    ensures EnvelopeAgrees(Respond(v.cfg, v.env, v.maxBody, s, cmd).next, t + [EventOf(v, s, cmd)])
  {
    hide Respond, Sender, Recipient, AcceptedMail, AcceptedRcpt, Ends, Rcpts;
    var e, n := EventOf(v, s, cmd), Respond(v.cfg, v.env, v.maxBody, s, cmd).next;
    var u := t + [e];
    EnvelopeStep(v, s, cmd);
    forall m: nat
      ensures OpenedAt(u, m) <==> (m == |t| && AcceptedMail(e)) || (OpenedAt(t, m) && !AcceptedMail(e) && !Ends(e))
      ensures m < |t| ==> Rcpts(u[m + 1..]) == Rcpts(t[m + 1..]) + if AcceptedRcpt(e) then [Recipient(cmd.line)] else []
    {
      OpenedStep(t, e, m);
      if m < |t| {
        assert u[m + 1..] == t[m + 1..] + [e];
        RcptsAppend(t[m + 1..], e);
      }
    }
    if AcceptedMail(e) {
      assert OpenedAt(u, |t|) && u[|t| + 1..] == [];
      NoRcpts();
    }
  }

  lemma OpenedStep(t: seq<Event>, e: Event, m: nat)
    ensures OpenedAt(t + [e], m) <==> (m == |t| && AcceptedMail(e)) || (OpenedAt(t, m) && !AcceptedMail(e) && !Ends(e))
    ensures OpenedAt(t, m) ==> m < |t|
  {
    hide AcceptedMail, Ends;
    var u := t + [e];
    assert u[|t|] == e && forall j :: 0 <= j < |t| ==> u[j] == t[j];
  }

  lemma NoRcpts()
    ensures Rcpts([]) == []
  {
  }

  lemma {:induction false} SessionAgrees(v: Server, cmds: seq<Cmd>)
    requires Acceptable(v.cfg)
    ensures var s, t := After(v, START, cmds), Trace(v, START, cmds);
            SecurityAgrees(s, t) && EnvelopeAgrees(s, t) && Policy(v.cfg, s)
  {
    hide Respond, Policy, SecurityAgrees, EnvelopeAgrees;
    if cmds == [] {
      Fresh(v);
    } else {
      var pre, cmd := cmds[..|cmds| - 1], cmds[|cmds| - 1];
      SessionAgrees(v, pre);
      var s, t := After(v, START, pre), Trace(v, START, pre);
      SecurityAgreesKept(v, s, t, cmd);
      EnvelopeAgreesKept(v, s, t, cmd);
      PolicyKept(v, s, cmd);
    }
  }

  lemma Fresh(v: Server)
    ensures SecurityAgrees(START, []) && EnvelopeAgrees(START, []) && Policy(v.cfg, START)
  {
  }

  // --- Theorems over every session ---------------------------------------------------------------

  /** Event n of a session is its answer to command n in the state the first n leave. */
  lemma {:induction false} EventAt(v: Server, s: Session, cmds: seq<Cmd>, n: nat)
    requires n < |cmds|
    ensures Trace(v, s, cmds)[n] == EventOf(v, After(v, s, cmds[..n]), cmds[n])
    ensures Trace(v, s, cmds)[..n] == Trace(v, s, cmds[..n])
  {
    hide Respond;
    if n < |cmds| - 1 {
      EventAt(v, s, cmds[..|cmds| - 1], n);
      assert cmds[..|cmds| - 1][..n] == cmds[..n];
    }
  }

  /** A MAIL is accepted if and only if the trace before it satisfies the TLS and
      authentication policy and its sender is a well-formed, allowlisted address. */
  lemma {:induction false} MailAcceptedIff(v: Server, cmds: seq<Cmd>, n: nat)
    requires Acceptable(v.cfg) && n < |cmds| && Verb(cmds[n].line) == MAIL
    ensures var t, line := Trace(v, START, cmds), cmds[n].line;
            AcceptedMail(t[n]) <==>
              Authorized(v.cfg, t[..n]) && Sender(line) != "" && Allowlisted(Sender(line), v.cfg.allowedSenders)
  {
    hide Secured, Certified, LoggedIn, Sender, Allowlisted, Policy, EnvelopeAgrees;
    EventAt(v, START, cmds, n);
    SessionAgrees(v, cmds[..n]);
  }

  /** A RCPT is accepted if and only if a transaction is open, its address is well-formed
      and allowed, and the transaction still has room under the cap. */
  lemma RcptAcceptedIff(v: Server, cmds: seq<Cmd>, n: nat)
    requires Acceptable(v.cfg) && n < |cmds| && Verb(cmds[n].line) == RCPT
    ensures var t, line, cap := Trace(v, START, cmds), cmds[n].line, EffectiveMaxRecipients(v.cfg);
            AcceptedRcpt(t[n]) <==>
              exists m: nat :: OpenedAt(t[..n], m) && Recipient(line) != "" && MayReceive(v.cfg, Recipient(line))
                               && (cap > 0 ==> |Rcpts(t[m + 1..n])| < cap)
  {
    hide Recipient, Sender, MayReceive, OpenedAt, Policy, SecurityAgrees, Rcpts;
    EventAt(v, START, cmds, n);
    SessionAgrees(v, cmds[..n]);
    SliceTwice(Trace(v, START, cmds), n);
  }

  lemma SliceTwice(t: seq<Event>, n: nat)
    requires n <= |t|
    ensures forall m: nat :: OpenedAt(t[..n], m) ==> m < n && t[..n][m + 1..] == t[m + 1..n]
  {
  }

  /** A message leaves only by DATA, in an open transaction with recipients. */
  lemma SentOnlyByData(v: Server, s: Session, cmd: Cmd)
    requires Acceptable(v.cfg) && EventOf(v, s, cmd).sent.Some?
    ensures Verb(cmd.line) == DATA && cmd.data.Blob? && s.transaction && s.rcptTo != []
    ensures 0 < v.maxBody < INT64_LIMIT - 1 ==>
              |cmd.data.bytes| <= v.maxBody && Kept(cmd.data.bytes, v.maxBody) == cmd.data.bytes
    ensures EventOf(v, s, cmd).sent == ParseMIME(v.env, Kept(cmd.data.bytes, v.maxBody), s.mailFrom, s.rcptTo)
  {
    hide Auth, ParseMIME, Verb, Acceptable, StartTLS, MailFrom, RcptTo;
    AuthOutcome(v.cfg, v.env, s, Arg(cmd.line), cmd.nextLine);
    OthersSendNothing(v.cfg, s, cmd);
  }

  lemma OthersSendNothing(c: Config, s: Session, cmd: Cmd)
    ensures StartTLS(c, s, cmd.handshake).sent.None?
    ensures MailFrom(c, s, cmd.line).sent.None? && RcptTo(c, s, cmd.line).sent.None?
  {
    hide MailCode, RcptCode;
  }

  /** The letter of blob m, field by field; the sender of the envelope stands in for an empty or
      missing From. */
  predicate Relays(msg: Message, m: Mail, sender: string) {
    && m.body == Some(msg.bodyText)
    && msg.subject == (if "Subject" in m.headers then m.headers["Subject"] else "")
    && msg.replyTo == (if "Reply-To" in m.headers then m.headers["Reply-To"] else "")
    && msg.from == (if "From" in m.headers && m.headers["From"] != "" then m.headers["From"] else sender)
  }

  /** What is sent is addressed by the envelope and says what the blob says. */
  lemma SentTo(e: Env, bytes: string, from: string, rcpts: seq<string>)
    ensures var sent, m := ParseMIME(e, bytes, from, rcpts), e.parseMail(bytes);
            && (sent.Some? <==> m.Some? && m.value.body.Some?)
            && (sent.Some? ==> sent.value.to == rcpts && Relays(sent.value, m.value, from))
  {
  }

  /** Every message handed to the transport goes, in order, to exactly the addresses of
      the RCPT commands accepted since the MAIL that opened its transaction; that trace
      satisfies the whole policy, and the message says what the blob kept says: the blob
      in full when there is a size limit, short of the largest 64-bit one. */
  lemma SentToAcceptedRecipients(v: Server, cmds: seq<Cmd>, n: nat) returns (m: nat)
    requires Acceptable(v.cfg)
    requires n < |cmds| && Trace(v, START, cmds)[n].sent.Some?
    ensures var t, c := Trace(v, START, cmds), v.cfg;
            var msg := t[n].sent.value;
            && OpenedAt(t[..n], m) && m < n
            && msg.to == Rcpts(t[m + 1..n]) && msg.to != []
            && Authorized(c, t[..n])
            && Allowlisted(Sender(t[m].cmd.line), c.allowedSenders)
            && (forall a <- msg.to :: MayReceive(c, a))
            && (if EffectiveMaxRecipients(c) > 0 then |msg.to| <= EffectiveMaxRecipients(c) else c.allowedRecipients != [])
            && Verb(cmds[n].line) == DATA && cmds[n].data.Blob?
            && var mail := v.env.parseMail(Kept(cmds[n].data.bytes, v.maxBody));
            && mail.Some? && Relays(msg, mail.value, Sender(t[m].cmd.line))
            && (0 < v.maxBody < INT64_LIMIT - 1 ==> |cmds[n].data.bytes| <= v.maxBody
                                                    && Kept(cmds[n].data.bytes, v.maxBody) == cmds[n].data.bytes)
  {
    hide OpenedAt, Rcpts, Secured, Certified, LoggedIn, Sender, Allowlisted, MayReceive, ParseMIME, Respond, Acceptable,
         Kept, Relays;
    var t, s := Trace(v, START, cmds), After(v, START, cmds[..n]);
    EventAt(v, START, cmds, n);
    SessionAgrees(v, cmds[..n]);
    SentOnlyByData(v, s, cmds[n]);
    SentTo(v.env, Kept(cmds[n].data.bytes, v.maxBody), s.mailFrom, s.rcptTo);
    SliceTwice(t, n);
    m :| OpenedAt(t[..n], m);
  }

  /** The blob was refused for its size, or what was sent is what the whole blob parses to. */
  predicate JudgedWhole(r: Response, whole: Option<Message>) {
    552 in r.replies || r.sent == whole
  }

  /** The reader's window: one byte past the limit, but none past the largest limit. */
  lemma WindowIs(maxBody: int)
    requires IsInt64(maxBody)
    ensures Wrap64(maxBody + 1) == if maxBody == INT64_LIMIT - 1 then -INT64_LIMIT else maxBody + 1
  {
  }

  lemma KeptOrRefused(maxBody: int, bytes: string)
    requires IsInt64(maxBody)
    requires 0 < maxBody < INT64_LIMIT - 1 || bytes == "" || |bytes| <= Wrap64(maxBody + 1)
    ensures 0 < maxBody < |Kept(bytes, maxBody)| || Kept(bytes, maxBody) == bytes
  {
    hide Wrap64;
    WindowIs(maxBody);
  }

  /** In an open transaction with recipients DATA judges the whole blob, whatever the mail
      parser and the transport answer, if and only if the listener has a positive size limit
      other than the largest, or the blob fits the reader's window anyway. At the limit 0 a
      longer blob is cut to one byte, at the largest limit to nothing, and that is what gets
      parsed and sent. */
  lemma BlobJudgedWholeIff(c: Config, maxBody: int, s: Session, bytes: string)
    requires s.transaction && s.rcptTo != [] && IsInt64(maxBody)
    ensures (forall e: Env, sendOk: bool ::
               JudgedWhole(Data(c, e, maxBody, s, Blob(bytes), sendOk), ParseMIME(e, bytes, s.mailFrom, s.rcptTo)))
       <==> 0 < maxBody < INT64_LIMIT - 1 || bytes == "" || |bytes| <= Wrap64(maxBody + 1)
  {
    hide Wrap64;
    WindowIs(maxBody);
    if 0 < maxBody < INT64_LIMIT - 1 || bytes == "" || |bytes| <= Wrap64(maxBody + 1) {
      KeptOrRefused(maxBody, bytes);
    } else {
      var onlyCut := (b: string) => if b == bytes then None else Some(Mail(map[], Some("")));
      var e := Env(_ => None, onlyCut);
      assert Kept(bytes, maxBody) != bytes;
      assert Data(c, e, maxBody, s, Blob(bytes), true).sent.Some?;
      assert !JudgedWhole(Data(c, e, maxBody, s, Blob(bytes), true), ParseMIME(e, bytes, s.mailFrom, s.rcptTo));
    }
  }

  /** A blob within the limit that parses is answered 250 and sent as it parses, for every
      parser and blob, if and only if the limit is not the largest 64-bit integer. */
  lemma WithinLimitDeliveredIff(c: Config, maxBody: int, s: Session)
    requires s.transaction && s.rcptTo != [] && IsInt64(maxBody)
    ensures (forall e: Env, bytes: string ::
               |bytes| <= maxBody && ParseMIME(e, bytes, s.mailFrom, s.rcptTo).Some? ==>
                 Delivers(Data(c, e, maxBody, s, Blob(bytes), true), ParseMIME(e, bytes, s.mailFrom, s.rcptTo)))
       <==> maxBody != INT64_LIMIT - 1
  {
    hide Wrap64, ParseMIME;
    WindowIs(maxBody);
    if maxBody == INT64_LIMIT - 1 {
      LargestLimitReadsNothing(c, s, "hello");
      var e: Env :| ParseMIME(e, "hello", s.mailFrom, s.rcptTo).Some?
                    && Data(c, e, maxBody, s, Blob("hello"), true) == Response(s.Reset(), [354, 550], None);
      assert !Delivers(Data(c, e, maxBody, s, Blob("hello"), true), ParseMIME(e, "hello", s.mailFrom, s.rcptTo));
    }
  }

  predicate Delivers(r: Response, whole: Option<Message>) {
    r.replies == [354, 250] && r.sent == whole
  }

  /** At the largest limit, with a parser that accepts everything but the empty text, every
      blob is refused with 550, however short. */
  lemma LargestLimitReadsNothing(c: Config, s: Session, bytes: string)
    requires s.transaction && s.rcptTo != [] && bytes != ""
    ensures exists e: Env ::
              && ParseMIME(e, bytes, s.mailFrom, s.rcptTo).Some?
              && Data(c, e, INT64_LIMIT - 1, s, Blob(bytes), true) == Response(s.Reset(), [354, 550], None)
  {
    hide Wrap64;
    WindowIs(INT64_LIMIT - 1);
    var e := Env(_ => None, (b: string) => if b == "" then None else Some(Mail(map[], Some(""))));
    assert Kept(bytes, INT64_LIMIT - 1) == "";
    assert ParseMIME(e, bytes, s.mailFrom, s.rcptTo).Some?;
  }

  /** Two readings of a blob with the same From, Reply-To, Subject and text. */
  predicate SameLetter(a: Option<Mail>, b: Option<Mail>) {
    match (a, b)
    case (None, None) => true
    case (Some(m), Some(n)) =>
      && m.body == n.body && HeaderOf(m, "From") == HeaderOf(n, "From")
      && HeaderOf(m, "Reply-To") == HeaderOf(n, "Reply-To") && HeaderOf(m, "Subject") == HeaderOf(n, "Subject")
    case _ => false
  }

  lemma SameData(c: Config, e: Env, f: Env, maxBody: int, s: Session, data: DataRead, sendOk: bool)
    requires forall b :: SameLetter(e.parseMail(b), f.parseMail(b))
    ensures Data(c, e, maxBody, s, data, sendOk) == Data(c, f, maxBody, s, data, sendOk)
  {
    if data.Blob? {
      var kept := Kept(data.bytes, maxBody);
      assert SameLetter(e.parseMail(kept), f.parseMail(kept));
    }
  }

  lemma SameAuth(c: Config, e: Env, f: Env, s: Session, arg: string, nextLine: Option<string>)
    requires e.decodeBase64 == f.decodeBase64
    ensures Auth(c, e, s, arg, nextLine) == Auth(c, f, s, arg, nextLine)
  {
    hide TrimSpace, EqualFold, IndexByte, KnownUser, NeedsTLS, UsesPasswords;
  }

  lemma SameAnswer(v: Server, w: Server, s: Session, cmd: Cmd)
    requires v.cfg == w.cfg && v.maxBody == w.maxBody && v.env.decodeBase64 == w.env.decodeBase64
    requires forall b :: SameLetter(v.env.parseMail(b), w.env.parseMail(b))
    ensures Respond(v.cfg, v.env, v.maxBody, s, cmd) == Respond(w.cfg, w.env, w.maxBody, s, cmd)
  {
    hide Verb, Arg, StartTLS, MailFrom, RcptTo, Auth, Data, SameLetter;
    SameData(v.cfg, v.env, w.env, v.maxBody, s, cmd.data, cmd.sendOk);
    SameAuth(v.cfg, v.env, w.env, s, Arg(cmd.line), cmd.nextLine);
  }

  /** Whatever else a blob's headers say, To, Cc and Bcc included: if two mail parsers differ
      only there, every session of one is, reply by reply and message by message, that of the
      other. */
  lemma {:induction false} OtherHeadersNeverMatter(v: Server, w: Server, cmds: seq<Cmd>)
    requires v.cfg == w.cfg && v.maxBody == w.maxBody && v.env.decodeBase64 == w.env.decodeBase64
    requires forall b :: SameLetter(v.env.parseMail(b), w.env.parseMail(b))
    ensures Trace(v, START, cmds) == Trace(w, START, cmds) && After(v, START, cmds) == After(w, START, cmds)
  {
    hide Respond, SameLetter;
    if cmds != [] {
      var pre, cmd := cmds[..|cmds| - 1], cmds[|cmds| - 1];
      OtherHeadersNeverMatter(v, w, pre);
      SameAnswer(v, w, After(v, START, pre), cmd);
    }
  }

  // --- Stability and completeness ------------------------------------------------------------------

  /** DATA is either out of sequence or gets to 354 and closes the transaction. */
  lemma DataOutcome(v: Server, s: Session, data: DataRead, sendOk: bool)
    ensures var r := Data(v.cfg, v.env, v.maxBody, s, data, sendOk);
            r == Say(s, 503) || (354 in r.replies && r.next == s.Reset())
  {
    hide ParseMIME, Kept;
    var r := Data(v.cfg, v.env, v.maxBody, s, data, sendOk);
    assert s.transaction && s.rcptTo != [] ==> r.replies[0] == 354;
  }

  /** A command whose last reply is a refusal, and that did not get past 354, leaves the
      TLS, authentication and transaction state as it was. */
  lemma RefusedChangesNothing(v: Server, s: Session, cmd: Cmd)
    requires Acceptable(v.cfg)
    requires var replies := EventOf(v, s, cmd).replies;
             |replies| > 0 && replies[|replies| - 1] >= 400 && 354 !in replies
    ensures Respond(v.cfg, v.env, v.maxBody, s, cmd).next == s
  {
    hide Verb, Arg, Auth, Data, Acceptable, Sender, Recipient, MailCode, RcptCode;
    AuthOutcome(v.cfg, v.env, s, Arg(cmd.line), cmd.nextLine);
    DataOutcome(v, s, cmd.data, cmd.sendOk);
  }

  /** Any DATA that reached 354 ends with the transaction closed, TLS and login intact. */
  lemma DataPast354Closes(v: Server, s: Session, cmd: Cmd)
    requires Acceptable(v.cfg) && 354 in EventOf(v, s, cmd).replies
    ensures Respond(v.cfg, v.env, v.maxBody, s, cmd).next == s.Reset()
  {
    hide Verb, Arg, Auth, Data, Acceptable, Sender, Recipient, Allowlisted, MayReceive;
    AuthOutcome(v.cfg, v.env, s, Arg(cmd.line), cmd.nextLine);
    DataOutcome(v, s, cmd.data, cmd.sendOk);
  }

  /** What EHLO lists holds: STARTTLS is listed exactly when it would be taken; once TLS is
      satisfied, AUTH PLAIN exactly when no AUTH is answered 502; and a blob over the listed
      size is refused for it. */
  lemma EhloIsHonest(v: Server, s: Session, limit: int, bytes: string, sendOk: bool)
    requires IsInt64(v.maxBody) && v.maxBody < INT64_LIMIT - 1
    ensures var listed := Capabilities(v.cfg, v.maxBody, s);
            && (OfferSTARTTLS in listed <==> forall h :: StartTLS(v.cfg, s, h).replies == [220])
            && (!NeedsTLS(v.cfg, s) ==> (OfferAuthPlain in listed
                  <==> forall arg, next :: Auth(v.cfg, v.env, s, arg, next).replies != [502]))
            && (OfferSize(limit) in listed && |bytes| > limit && s.transaction && s.rcptTo != [] ==>
                  Data(v.cfg, v.env, v.maxBody, s, Blob(bytes), sendOk).replies == [354, 552])
  {
    hide Auth, ParseMIME, UsesPasswords, OffersTLS, Wrap64;
    WindowIs(v.maxBody);
    assert StartTLS(v.cfg, s, Failed).replies == [220] <==> OffersTLS(v.cfg) && !s.tlsActive;
    forall arg, next ensures !NeedsTLS(v.cfg, s) ==>
                               (Auth(v.cfg, v.env, s, arg, next).replies == [502] <==> !UsesPasswords(v.cfg))
    {
      if !NeedsTLS(v.cfg, s) {
        AuthNotSupported(v.cfg, v.env, s, arg, next);
      }
    }
    assert !NeedsTLS(v.cfg, s) && !UsesPasswords(v.cfg) ==> Auth(v.cfg, v.env, s, "", None).replies == [502];
  }

  lemma AuthNotSupported(c: Config, e: Env, s: Session, arg: string, nextLine: Option<string>)
    requires !NeedsTLS(c, s)
    ensures Auth(c, e, s, arg, nextLine).replies == [502] <==> !UsesPasswords(c)
  {
    hide UsesPasswords, PlainUser, EqualFold, TrimSpace;
    var replies := Auth(c, e, s, arg, nextLine).replies;
    assert replies == [502] ==> |replies| == 1 && replies[0] == 502;
  }

  function Addresses(rcpts: seq<Cmd>): seq<string> {
    if rcpts == [] then [] else Addresses(rcpts[..|rcpts| - 1]) + [Recipient(rcpts[|rcpts| - 1].line)]
  }

  predicate GoodMail(c: Config, cmd: Cmd) {
    Verb(cmd.line) == MAIL && Sender(cmd.line) != "" && Allowlisted(Sender(cmd.line), c.allowedSenders)
  }

  predicate GoodRcpt(c: Config, cmd: Cmd) {
    Verb(cmd.line) == RCPT && Recipient(cmd.line) != "" && MayReceive(c, Recipient(cmd.line))
  }

  /** Allowed MAIL and RCPT commands within the cap are all accepted. */
  lemma {:induction false} EnvelopeAccepted(v: Server, s: Session, mail: Cmd, rcpts: seq<Cmd>)
    requires !NeedsTLS(v.cfg, s) && !AuthMissing(v.cfg, s) && GoodMail(v.cfg, mail)
    requires forall r <- rcpts :: GoodRcpt(v.cfg, r)
    requires EffectiveMaxRecipients(v.cfg) > 0 ==> |rcpts| <= EffectiveMaxRecipients(v.cfg)
    ensures After(v, s, [mail] + rcpts) ==
            s.(mailFrom := Sender(mail.line), rcptTo := Addresses(rcpts), transaction := true)
    ensures forall e <- Trace(v, s, [mail] + rcpts) :: e.replies == [250] && e.sent.None?
    ensures |Addresses(rcpts)| == |rcpts|
  {
    hide Sender, Recipient, Allowlisted, MayReceive, Verb, AuthMissing, After, Trace;
    if rcpts == [] {
      NothingHeard(v, s);
      TraceAppend(v, s, [], mail);
      assert [] + [mail] == [mail] + rcpts;
    } else {
      var n := |rcpts| - 1;
      var pre, r := rcpts[..n], rcpts[n];
      EnvelopeAccepted(v, s, mail, pre);
      TraceAppend(v, s, [mail] + pre, r);
      assert ([mail] + pre) + [r] == [mail] + rcpts;
      assert GoodRcpt(v.cfg, r);
    }
  }

  /** Completeness: once TLS and authentication are satisfied, an allowed MAIL, one to cap
      allowed RCPTs and a parseable DATA within the size limit draw only positive replies
      and exactly one Send, of the blob's letter to those recipients in that order. */
  lemma {:induction false} AllowedMailIsDelivered(v: Server, s: Session, mail: Cmd, rcpts: seq<Cmd>, data: Cmd)
    requires !NeedsTLS(v.cfg, s) && !AuthMissing(v.cfg, s) && GoodMail(v.cfg, mail)
    requires rcpts != [] && forall r <- rcpts :: GoodRcpt(v.cfg, r)
    requires EffectiveMaxRecipients(v.cfg) > 0 ==> |rcpts| <= EffectiveMaxRecipients(v.cfg)
    requires Verb(data.line) == DATA && data.data.Blob? && data.sendOk
    requires |data.data.bytes| <= v.maxBody < INT64_LIMIT - 1
    requires var m := v.env.parseMail(data.data.bytes); m.Some? && m.value.body.Some?
    ensures var cmds := [mail] + rcpts + [data];
            var t, last := Trace(v, s, cmds), |rcpts| + 1;
            && (forall j :: 0 <= j < last ==> t[j].replies == [250] && t[j].sent.None?)
            && t[last].replies == [354, 250]
            && t[last].sent.Some? && t[last].sent.value.to == Addresses(rcpts)
            && Relays(t[last].sent.value, v.env.parseMail(data.data.bytes).value, Sender(mail.line))
            && After(v, s, cmds) == s.Reset()
  {
    hide Sender, Recipient, Allowlisted, MayReceive, Verb, AuthMissing, After, Trace, ParseMIME, Relays;
    EnvelopeAccepted(v, s, mail, rcpts);
    TraceAppend(v, s, [mail] + rcpts, data);
    SentTo(v.env, data.data.bytes, Sender(mail.line), Addresses(rcpts));
    var before := Trace(v, s, [mail] + rcpts);
    forall j | 0 <= j < |before| ensures before[j].replies == [250] && before[j].sent.None? {
      assert before[j] in before;
    }
  }

  /** The right credentials always log in a configured user whose name has no NUL, in any case
      of the mechanism's name, sent with the command or after the 334 prompt. */
  lemma KnownUserLogsIn(v: Server, s: Session, authzid: string, u: User, arg: string, nextLine: Option<string>,
                        credentials: string)
    requires !NeedsTLS(v.cfg, s) && UsesPasswords(v.cfg) && u in v.cfg.smtpUsers
    requires '\0' !in authzid && '\0' !in u.username
    requires v.env.decodeBase64(credentials) == Some(authzid + "\0" + u.username + "\0" + u.password)
    requires |arg| >= 5 && EqualFold(arg[..5], "PLAIN")
    requires if TrimSpace(arg[5..]) == "" then nextLine == Some(credentials) else TrimSpace(arg[5..]) == credentials
    ensures Auth(v.cfg, v.env, s, arg, nextLine)
         == Response(s.(authedUser := u.username), (if TrimSpace(arg[5..]) == "" then [334] else []) + [235], None)
  {
    hide TrimSpace, IndexByte, PlainUser, EqualFold;
    PlainFieldsFound(v.cfg, v.env, authzid, u, credentials);
  }

  lemma PlainFieldsFound(c: Config, e: Env, authzid: string, u: User, credentials: string)
    requires u in c.smtpUsers && '\0' !in authzid && '\0' !in u.username
    requires e.decodeBase64(credentials) == Some(authzid + "\0" + u.username + "\0" + u.password)
    ensures PlainUser(c, e, credentials) == Some(u.username)
  {
    hide IndexByte;
    var after := u.username + ['\0'] + u.password;
    var raw := authzid + ['\0'] + after;
    assert authzid + "\0" + u.username + "\0" + u.password == raw;
    IndexByteIs(authzid, after, '\0');
    assert raw[|authzid| + 1..] == after;
    IndexByteIs(u.username, u.password, '\0');
    assert after[..|u.username|] == u.username && after[|u.username| + 1..] == u.password;
  }
}
