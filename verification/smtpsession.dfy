/** core/smtp/session.go: the inbound SMTP session. `Session` is its abstract state and
    `Respond` the answer to one command; the class keeps the fields the program keeps.
    What the network and the libraries decide arrives with each command. */
module SmtpSession {
  import opened Wrappers
  import opened Text
  import opened Numbers
  import opened Transport
  import opened SmtpConfig

  // --- Outside decisions -----------------------------------------------------------------

  /** A STARTTLS handshake fails, or succeeds with or without a verified client chain. */
  datatype Handshake = Failed | Established(verified: bool)

  /** What the limited reader of DATA meets: an error within its window, or a blob. */
  datatype DataRead = ReadError | Blob(bytes: string)

  /** One command line and what its handler would read or be told after it: the handshake,
      the line after a 334 prompt, the DATA blob, and whether the transport accepts. */
  datatype Cmd = Cmd(line: string, handshake: Handshake, nextLine: Option<string>, data: DataRead, sendOk: bool)

  /** A parsed DATA blob: decoded header values and the text/plain body, if it has one. */
  datatype Mail = Mail(headers: map<string, string>, body: Option<string>)

  /** The library: base64 decoding and MIME parsing. */
  datatype Env = Env(decodeBase64: string -> Option<string>, parseMail: string -> Option<Mail>)

  // --- Reading a command -------------------------------------------------------------------

  function SplitCommand(line: string): (string, string) {
    var i := IndexByte(line, ' ');
    if i < 0 then (line, "") else (line[..i], line[i + 1..])
  }

  datatype Keyword = EHLO | HELO | STARTTLS | AUTH | MAIL | RCPT | DATA | RSET | NOOP | QUIT | OTHER

  function Verb(line: string): Keyword {
    var verb := ToUpper(SplitCommand(line).0);
    if verb == "EHLO" then EHLO
    else if verb == "HELO" then HELO
    else if verb == "STARTTLS" then STARTTLS
    else if verb == "AUTH" then AUTH
    else if verb == "MAIL" then MAIL
    else if verb == "RCPT" then RCPT
    else if verb == "DATA" then DATA
    else if verb == "RSET" then RSET
    else if verb == "NOOP" then NOOP
    else if verb == "QUIT" then QUIT
    else OTHER
  }

  function Arg(line: string): string {
    SplitCommand(line).1
  }

  function ExtractEnvelopeAddress(arg: string, prefix: string): string {
    if |arg| < |prefix| || !EqualFold(arg[..|prefix|], prefix) then ""
    else
      var rest := TrimSpace(arg[|prefix|..]);
      if !HasPrefix(rest, "<") then ""
      else
        var end := IndexByte(rest, '>');
        if end < 0 then "" else assert end > 0; rest[1..end]
  }

  function Sender(line: string): string {
    ExtractEnvelopeAddress(Arg(line), "FROM:")
  }

  function Recipient(line: string): string {
    ExtractEnvelopeAddress(Arg(line), "TO:")
  }

  /** An entry admits its own text, every address of its domain if it is "*@domain", and
      everything if it is "*". */
  predicate Admits(entry: string, addr: string) {
    || entry == "*"
    || entry == addr
    || (HasPrefix(entry, "*@") && var at := IndexByte(addr, '@'); at >= 0 && addr[at + 1..] == entry[2..])
  }

  predicate Allowlisted(addr: string, allowlist: seq<string>) {
    exists i :: 0 <= i < |allowlist| && Admits(allowlist[i], addr)
  }

  method MatchesAllowlist(addr: string, allowlist: seq<string>) returns (ok: bool)
    ensures ok == Allowlisted(addr, allowlist)
  {
    hide IndexByte;
    for i := 0 to |allowlist|
      invariant forall j :: 0 <= j < i ==> !Admits(allowlist[j], addr)
    {
      var entry := allowlist[i];
      if entry == "*" {
        return true;
      }
      if entry == addr {
        return true;
      }
      if HasPrefix(entry, "*@") {
        var domain := entry[2..];
        var at := IndexByte(addr, '@');
        if at >= 0 && addr[at + 1..] == domain {
          return true;
        }
      }
    }
    ok := false;
  }

  predicate KnownUser(c: Config, user: string, pass: string) {
    User(user, pass) in c.smtpUsers
  }

  method VerifyUser(c: Config, user: string, pass: string) returns (ok: bool)
    ensures ok == KnownUser(c, user, pass)
  {
    for i := 0 to |c.smtpUsers|
      invariant User(user, pass) !in c.smtpUsers[..i]
    {
      var u := c.smtpUsers[i];
      if u.username == user && u.password == pass {
        return true;
      }
    }
    assert c.smtpUsers[..|c.smtpUsers|] == c.smtpUsers;
    ok := false;
  }

  // --- The state machine ---------------------------------------------------------------------

  datatype Session = Session(
    tlsActive: bool, authedUser: string, authedViaCert: bool,
    mailFrom: string, rcptTo: seq<string>, transaction: bool)
  {
    function Reset(): Session {
      this.(mailFrom := "", rcptTo := [], transaction := false)
    }
  }

  const START := Session(false, "", false, "", [], false)

  predicate AuthMissing(c: Config, s: Session) {
    match EffectiveAuthMode(c)
    case SmtpAuth => s.authedUser == ""
    case ClientCert => !s.authedViaCert
    case _ => s.authedUser == "" && !s.authedViaCert
  }

  predicate NeedsTLS(c: Config, s: Session) {
    c.requireTLS && !s.tlsActive
  }

  /** What one command does: the new state, the reply codes in order, and the message
      handed to the transport, if any. */
  datatype Response = Response(next: Session, replies: seq<nat>, sent: Option<Message>)

  function Say(s: Session, code: nat): Response {
    Response(s, [code], None)
  }

  function StartTLS(c: Config, s: Session, handshake: Handshake): Response {
    if !OffersTLS(c) then Say(s, 502)
    else if s.tlsActive then Say(s, 503)
    else match handshake
      case Failed => Say(s, 220)
      case Established(verified) =>
        Say(s.Reset().(tlsActive := true, authedUser := "", authedViaCert := s.authedViaCert || verified), 220)
  }

  /** The user a base64 PLAIN response names, if its credentials are known. */
  function PlainUser(c: Config, e: Env, credentials: string): Option<string> {
    match e.decodeBase64(credentials)
    case None => None
    case Some(raw) =>
      var a := IndexByte(raw, '\0');
      if a < 0 then None
      else
        var b := IndexByte(raw[a + 1..], '\0');
        if b < 0 then None
        else
          var user, pass := raw[a + 1..][..b], raw[a + 1..][b + 1..];
          if KnownUser(c, user, pass) then Some(user) else None
  }

  function Auth(c: Config, e: Env, s: Session, arg: string, nextLine: Option<string>): Response {
    if NeedsTLS(c, s) then Say(s, 530)
    else if !UsesPasswords(c) then Say(s, 502)
    else if |arg| < 5 || !EqualFold(arg[..5], "PLAIN") then Say(s, 504)
    else
      var inline := TrimSpace(arg[5..]);
      var prompt := if inline == "" then [334] else [];
      if inline == "" && nextLine.None? then Response(s, prompt, None)
      else
        var user := PlainUser(c, e, if inline == "" then nextLine.value else inline);
        if user.None? then Response(s, prompt + [535], None)
        else Response(s.(authedUser := user.value), prompt + [235], None)
  }

  function MailCode(c: Config, s: Session, line: string): nat {
    if NeedsTLS(c, s) || AuthMissing(c, s) then 530
    else if Sender(line) == "" then 501
    else if !Allowlisted(Sender(line), c.allowedSenders) then 550
    else 250
  }

  function MailFrom(c: Config, s: Session, line: string): Response {
    var code := MailCode(c, s, line);
    Say(if code == 250 then s.(mailFrom := Sender(line), rcptTo := [], transaction := true) else s, code)
  }

  predicate MayReceive(c: Config, addr: string) {
    |c.allowedRecipients| > 0 ==> Allowlisted(addr, c.allowedRecipients)
  }

  function RcptCode(c: Config, s: Session, line: string): nat {
    if !s.transaction then 503
    else if Recipient(line) == "" then 501
    else if 0 < EffectiveMaxRecipients(c) <= |s.rcptTo| then 452
    else if !MayReceive(c, Recipient(line)) then 550
    else 250
  }

  function RcptTo(c: Config, s: Session, line: string): Response {
    var code := RcptCode(c, s, line);
    Say(if code == 250 then s.(rcptTo := s.rcptTo + [Recipient(line)]) else s, code)
  }

  /** What is left of a blob after a reader limited to maxBody + 1 bytes, counted in 64 bits:
      past the largest limit the count wraps and nothing is read. */
  function Kept(bytes: string, maxBody: int): string {
    var window := Wrap64(maxBody + 1);
    if |bytes| <= window then bytes else if window <= 0 then "" else bytes[..window]
  }

  function HeaderOf(m: Mail, name: string): string {
    if name in m.headers then m.headers[name] else ""
  }

  /** The outbound message: recipients from the envelope, never from the headers. */
  function ToMessage(m: Mail, from: string, rcpts: seq<string>): Option<Message> {
    if m.body.None? then None
    else
      var fromHdr := HeaderOf(m, "From");
      Some(Message(if fromHdr == "" then from else fromHdr, rcpts, HeaderOf(m, "Reply-To"),
                   HeaderOf(m, "Subject"), m.body.value))
  }

  function ParseMIME(e: Env, bytes: string, from: string, rcpts: seq<string>): Option<Message> {
    match e.parseMail(bytes)
    case None => None
    case Some(m) => ToMessage(m, from, rcpts)
  }

  function Data(c: Config, e: Env, maxBody: int, s: Session, data: DataRead, sendOk: bool): Response {
    if !s.transaction || s.rcptTo == [] then Say(s, 503)
    else match data
      case ReadError => Response(s.Reset(), [354, 451], None)
      case Blob(bytes) =>
        if 0 < maxBody < |Kept(bytes, maxBody)| then Response(s.Reset(), [354, 552], None)
        else
          var m := ParseMIME(e, Kept(bytes, maxBody), s.mailFrom, s.rcptTo);
          if m.None? then Response(s.Reset(), [354, 550], None)
          else Response(s.Reset(), [354, if sendOk then 250 else 451], m)
  }

  function Respond(c: Config, e: Env, maxBody: int, s: Session, cmd: Cmd): Response {
    match Verb(cmd.line)
    case EHLO => Say(s, 250)
    case HELO => Say(s, 250)
    case NOOP => Say(s, 250)
    case STARTTLS => StartTLS(c, s, cmd.handshake)
    case AUTH => Auth(c, e, s, Arg(cmd.line), cmd.nextLine)
    case MAIL => MailFrom(c, s, cmd.line)
    case RCPT => RcptTo(c, s, cmd.line)
    case DATA => Data(c, e, maxBody, s, cmd.data, cmd.sendOk)
    case RSET => Say(s.Reset(), 250)
    case QUIT => Say(s, 221)
    case OTHER => Say(s, 500)
  }

  // --- What EHLO advertises ---------------------------------------------------------------------

  datatype Capability = OfferSTARTTLS | OfferAuthPlain | OfferSize(limit: int)

  function Capabilities(c: Config, maxBody: int, s: Session): seq<Capability> {
    (if OffersTLS(c) && !s.tlsActive then [OfferSTARTTLS] else [])
    + (if UsesPasswords(c) then [OfferAuthPlain] else [])
    + (if maxBody > 0 then [OfferSize(maxBody)] else [])
  }

  // --- Whole sessions -----------------------------------------------------------------------------

  datatype Event = Event(cmd: Cmd, replies: seq<nat>, sent: Option<Message>)

  datatype Server = Server(cfg: Config, env: Env, maxBody: int)

  function After(v: Server, s: Session, cmds: seq<Cmd>): Session {
    if cmds == [] then s
    else Respond(v.cfg, v.env, v.maxBody, After(v, s, cmds[..|cmds| - 1]), cmds[|cmds| - 1]).next
  }

  function Trace(v: Server, s: Session, cmds: seq<Cmd>): (t: seq<Event>)
    ensures |t| == |cmds|
  {
    if cmds == [] then []
    else
      var pre, cmd := cmds[..|cmds| - 1], cmds[|cmds| - 1];
      var r := Respond(v.cfg, v.env, v.maxBody, After(v, s, pre), cmd);
      Trace(v, s, pre) + [Event(cmd, r.replies, r.sent)]
  }

  function EventOf(v: Server, s: Session, cmd: Cmd): Event {
    var r := Respond(v.cfg, v.env, v.maxBody, s, cmd);
    Event(cmd, r.replies, r.sent)
  }

  lemma {:induction false} TraceAppend(v: Server, s: Session, cmds: seq<Cmd>, cmd: Cmd)
    ensures After(v, s, cmds + [cmd]) == Respond(v.cfg, v.env, v.maxBody, After(v, s, cmds), cmd).next
    ensures Trace(v, s, cmds + [cmd]) == Trace(v, s, cmds) + [EventOf(v, After(v, s, cmds), cmd)]
  {
    assert (cmds + [cmd])[..|cmds|] == cmds;
  }

  /** The reply codes of a trace, in order. */
  function RepliesOf(t: seq<Event>): seq<nat> {
    if t == [] then [] else RepliesOf(t[..|t| - 1]) + t[|t| - 1].replies
  }

  /** The messages a trace handed to the transport, in order. */
  function SendsOf(t: seq<Event>): seq<Message> {
    if t == [] then []
    else SendsOf(t[..|t| - 1]) + if t[|t| - 1].sent.Some? then [t[|t| - 1].sent.value] else []
  }

  lemma {:induction false} NothingHeard(v: Server, s: Session)
    ensures After(v, s, []) == s && Trace(v, s, []) == [] && RepliesOf([]) == [] && SendsOf([]) == []
  {
  }

  lemma {:induction false} OutputAppend(t: seq<Event>, e: Event)
    ensures RepliesOf(t + [e]) == RepliesOf(t) + e.replies
    ensures SendsOf(t + [e]) == SendsOf(t) + if e.sent.Some? then [e.sent.value] else []
  {
    assert (t + [e])[..|t|] == t;
  }

  // --- The session object ------------------------------------------------------------------------

  class SmtpConnection {
    const cfg: Config
    const env: Env
    const maxBody: int
    var tlsActive: bool
    var authedUser: string
    var authedViaCert: bool
    var mailFrom: string
    var rcptTo: seq<string>
    var transaction: bool
    var replies: seq<nat>     // written to the client so far
    var sent: seq<Message>    // handed to the transport so far

    ghost function State(): Session
      reads this
    {
      Session(tlsActive, authedUser, authedViaCert, mailFrom, rcptTo, transaction)
    }

    /** The handler did what r says. */
    twostate predicate Did(r: Response)
      reads this
    {
      && State() == r.next
      && replies == old(replies) + r.replies
      && sent == old(sent) + if r.sent.Some? then [r.sent.value] else []
    }

    constructor (cfg: Config, env: Env, maxBody: int)
      ensures this.cfg == cfg && this.env == env && this.maxBody == maxBody
      ensures State() == START && replies == [220] && sent == []
    {
      this.cfg, this.env, this.maxBody := cfg, env, maxBody;
      tlsActive, authedUser, authedViaCert := false, "", false;
      mailFrom, rcptTo, transaction := "", [], false;
      replies, sent := [220], [];
    }

    method WriteReply(code: nat)
      modifies this`replies
      ensures replies == old(replies) + [code]
    {
      replies := replies + [code];
    }

    method ResetTransaction()
      modifies this`mailFrom, this`rcptTo, this`transaction
      ensures State() == old(State()).Reset()
    {
      mailFrom := "";
      rcptTo := [];
      transaction := false;
    }

    method AuthRequiredAndMissing() returns (missing: bool)
      ensures missing == AuthMissing(cfg, State())
    {
      var mode := EffectiveAuthMode(cfg);
      if mode == SmtpAuth {
        return authedUser == "";
      }
      if mode == ClientCert {
        return !authedViaCert;
      }
      missing := authedUser == "" && !authedViaCert;
    }

    method HandleEHLO() returns (lines: seq<Capability>)
      modifies this
      ensures Did(Say(old(State()), 250))
      ensures lines == Capabilities(cfg, maxBody, State())
    {
      lines := [];
      if OffersTLS(cfg) && !tlsActive {
        lines := lines + [OfferSTARTTLS];
      }
      var missing := AuthRequiredAndMissing();
      var passwords := EffectiveAuthMode(cfg) == SmtpAuth || EffectiveAuthMode(cfg) == Either;
      if !missing || passwords {
        if passwords {
          lines := lines + [OfferAuthPlain];
        }
      }
      if maxBody > 0 {
        lines := lines + [OfferSize(maxBody)];
      }
      WriteReply(250);
    }

    method HandleSTARTTLS(handshake: Handshake)
      modifies this
      ensures Did(StartTLS(cfg, old(State()), handshake))
    {
      if !OffersTLS(cfg) {
        WriteReply(502);
        return;
      }
      if tlsActive {
        WriteReply(503);
        return;
      }
      WriteReply(220);
      if handshake.Failed? {
        return;
      }
      tlsActive := true;
      ResetTransaction();
      authedUser := "";
      if handshake.verified {
        authedViaCert := true;
      }
    }

    method HandleAUTH(arg: string, nextLine: Option<string>)
      modifies this
      ensures Did(Auth(cfg, env, old(State()), arg, nextLine))
    {
      hide IndexByte, TrimSpace, EqualFold, KnownUser, UsesPasswords;
      if cfg.requireTLS && !tlsActive {
        WriteReply(530);
        return;
      }
      if !UsesPasswords(cfg) {
        WriteReply(502);
        return;
      }
      if |arg| < 5 || !EqualFold(arg[..5], "PLAIN") {
        WriteReply(504);
        return;
      }
      var credentials := TrimSpace(arg[5..]);
      if credentials == "" {
        WriteReply(334);
        if nextLine.None? {
          return;
        }
        credentials := nextLine.value;
      }
      var user := CheckCredentials(credentials);
      if user.None? {
        WriteReply(535);
        return;
      }
      authedUser := user.value;
      WriteReply(235);
    }

    /** Decodes a PLAIN response, three fields between NULs, and looks its user up. */
    method CheckCredentials(credentials: string) returns (user: Option<string>)
      ensures user == PlainUser(cfg, env, credentials)
    {
      var raw := env.decodeBase64(credentials);
      if raw.None? {
        return None;
      }
      var a := IndexByte(raw.value, '\0');
      var b := if a < 0 then -1 else IndexByte(raw.value[a + 1..], '\0');
      if b < 0 {
        return None;
      }
      var name, pass := raw.value[a + 1..][..b], raw.value[a + 1..][b + 1..];
      var ok := VerifyUser(cfg, name, pass);
      user := if ok then Some(name) else None;
    }

    method HandleMAIL(line: string)
      modifies this
      ensures Did(MailFrom(cfg, old(State()), line))
    {
      if cfg.requireTLS && !tlsActive {
        WriteReply(530);
        return;
      }
      var missing := AuthRequiredAndMissing();
      if missing {
        WriteReply(530);
        return;
      }
      var addr := ExtractEnvelopeAddress(Arg(line), "FROM:");
      if addr == "" {
        WriteReply(501);
        return;
      }
      var ok := MatchesAllowlist(addr, cfg.allowedSenders);
      if !ok {
        WriteReply(550);
        return;
      }
      ResetTransaction();
      mailFrom := addr;
      transaction := true;
      WriteReply(250);
    }

    method HandleRCPT(line: string)
      modifies this
      ensures Did(RcptTo(cfg, old(State()), line))
    {
      if !transaction {
        WriteReply(503);
        return;
      }
      var addr := ExtractEnvelopeAddress(Arg(line), "TO:");
      if addr == "" {
        WriteReply(501);
        return;
      }
      var cap := EffectiveMaxRecipients(cfg);
      if cap > 0 && |rcptTo| >= cap {
        WriteReply(452);
        return;
      }
      if |cfg.allowedRecipients| > 0 {
        var ok := MatchesAllowlist(addr, cfg.allowedRecipients);
        if !ok {
          WriteReply(550);
          return;
        }
      }
      rcptTo := rcptTo + [addr];
      WriteReply(250);
    }

    method HandleDATA(data: DataRead, sendOk: bool)
      modifies this
      ensures Did(Data(cfg, env, maxBody, old(State()), data, sendOk))
    {
      if !transaction {
        WriteReply(503);
        return;
      }
      if |rcptTo| == 0 {
        WriteReply(503);
        return;
      }
      WriteReply(354);
      if data.ReadError? {
        WriteReply(451);
        ResetTransaction();
        return;
      }
      var buf := Kept(data.bytes, maxBody);
      if maxBody > 0 && |buf| > maxBody {
        WriteReply(552);
        ResetTransaction();
        return;
      }
      var msg := ParseMIME(env, buf, mailFrom, rcptTo);
      if msg.None? {
        WriteReply(550);
        ResetTransaction();
        return;
      }
      sent := sent + [msg.value];
      if !sendOk {
        WriteReply(451);
        ResetTransaction();
        return;
      }
      WriteReply(250);
      ResetTransaction();
    }

    /** One turn of the command loop; `open` is false after QUIT. */
    method Handle(cmd: Cmd) returns (open: bool)
      modifies this
      ensures Did(Respond(cfg, env, maxBody, old(State()), cmd))
      ensures open <==> Verb(cmd.line) != QUIT
    {
      hide Verb, Arg, Auth, MailFrom, RcptTo, Data, StartTLS;
      open := true;
      match Verb(cmd.line) {
        case EHLO =>
          var lines := HandleEHLO();
        case HELO => WriteReply(250);
        case STARTTLS => HandleSTARTTLS(cmd.handshake);
        case AUTH => HandleAUTH(Arg(cmd.line), cmd.nextLine);
        case MAIL => HandleMAIL(cmd.line);
        case RCPT => HandleRCPT(cmd.line);
        case DATA => HandleDATA(cmd.data, cmd.sendOk);
        case RSET =>
          ResetTransaction();
          WriteReply(250);
        case NOOP => WriteReply(250);
        case QUIT =>
          WriteReply(221);
          open := false;
        case OTHER => WriteReply(500);
      }
    }

    /** The command loop: hears commands up to a QUIT or the end of the connection, and
        leaves, says and sends what the trace of the commands heard says. */
    method Run(cmds: seq<Cmd>) returns (heard: nat)
      requires State() == START
      modifies this
      ensures heard <= |cmds| && (heard < |cmds| ==> heard > 0 && Verb(cmds[heard - 1].line) == QUIT)
      ensures forall j :: 0 <= j < heard - 1 ==> Verb(cmds[j].line) != QUIT
      ensures var v := Server(cfg, env, maxBody);
              var t := Trace(v, START, cmds[..heard]);
              && State() == After(v, START, cmds[..heard])
              && replies == old(replies) + RepliesOf(t)
              && sent == old(sent) + SendsOf(t)
    {
      hide Verb, Respond, After, Trace, RepliesOf, SendsOf;
      ghost var v := Server(cfg, env, maxBody);
      heard := 0;
      NothingHeard(v, START);
      assert cmds[..0] == [];
      while heard < |cmds|
        invariant heard <= |cmds|
        invariant forall j :: 0 <= j < heard ==> Verb(cmds[j].line) != QUIT
        invariant State() == After(v, START, cmds[..heard])
        invariant replies == old(replies) + RepliesOf(Trace(v, START, cmds[..heard]))
        invariant sent == old(sent) + SendsOf(Trace(v, START, cmds[..heard]))
      {
        ghost var past, e := cmds[..heard], EventOf(v, State(), cmds[heard]);
        TraceAppend(v, START, past, cmds[heard]);
        OutputAppend(Trace(v, START, past), e);
        assert past + [cmds[heard]] == cmds[..heard + 1];
        var open := Handle(cmds[heard]);
        heard := heard + 1;
        if !open {
          return;
        }
      }
    }
  }
}
