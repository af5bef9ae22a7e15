/** The recipient cap over a whole session (core/smtp/config.go, core/smtp/session.go): it
    bounds each transaction, so a session keeps it exactly while one MAIL is accepted. */
module SmtpCap {
  import opened SmtpConfig
  import opened SmtpSession
  import opened SmtpTrace

  /** How many MAIL commands were accepted. */
  function Mails(t: seq<Event>): nat {
    if t == [] then 0 else Mails(t[..|t| - 1]) + if AcceptedMail(t[|t| - 1]) then 1 else 0
  }

  lemma {:induction false} MailsAppend(t: seq<Event>, e: Event)
    ensures Mails(t + [e]) == Mails(t) + if AcceptedMail(e) then 1 else 0
  {
    hide AcceptedMail;
    assert (t + [e])[..|t|] == t;
  }

  lemma {:induction false} CountsConcat(a: seq<Event>, b: seq<Event>)
    ensures Mails(a + b) == Mails(a) + Mails(b) && Rcpts(a + b) == Rcpts(a) + Rcpts(b)
  {
    hide AcceptedMail, AcceptedRcpt, Recipient, Mails, Rcpts;
    if b == [] {
      NoCounts();
      assert a + b == a;
    } else {
      var front, e := b[..|b| - 1], b[|b| - 1];
      CountsConcat(a, front);
      assert b == front + [e] && a + b == (a + front) + [e];
      MailsAppend(a + front, e);
      MailsAppend(front, e);
      RcptsAppend(a + front, e);
      RcptsAppend(front, e);
    }
  }

  lemma NoCounts()
    ensures Mails([]) == 0 && Rcpts([]) == []
  {
  }

  // --- The bound ----------------------------------------------------------------------------

  /** Finished transactions took at most the cap each; the open one has what it has. */
  predicate Counted(cap: nat, s: Session, t: seq<Event>) {
    if s.transaction then Mails(t) >= 1 && |Rcpts(t)| <= cap * (Mails(t) - 1) + |s.rcptTo|
    else |Rcpts(t)| <= cap * Mails(t)
  }

  lemma CapTimes(cap: nat, n: nat)
    requires n >= 1
    ensures cap * n == cap * (n - 1) + cap
  {
  }

  lemma CountedKept(v: Server, s: Session, t: seq<Event>, cmd: Cmd)
    requires Acceptable(v.cfg) && Policy(v.cfg, s) && EffectiveMaxRecipients(v.cfg) > 0
    requires Counted(EffectiveMaxRecipients(v.cfg), s, t)
    ensures Counted(EffectiveMaxRecipients(v.cfg), Respond(v.cfg, v.env, v.maxBody, s, cmd).next, t + [EventOf(v, s, cmd)])
  {
    hide Respond, EventOf, Verb, Acceptable, Allowlisted, MayReceive, NeedsTLS, AuthMissing, Recipient, Sender, Mails, Rcpts;
    var cap, e := EffectiveMaxRecipients(v.cfg), EventOf(v, s, cmd);
    EnvelopeStep(v, s, cmd);
    MailsAppend(t, e);
    RcptsAppend(t, e);
    CapTimes(cap, Mails(t) + 1);
    if s.transaction {
      CapTimes(cap, Mails(t));
    }
  }

  /** In every session at most the cap of recipients per accepted MAIL. */
  lemma {:induction false} SessionCounted(v: Server, cmds: seq<Cmd>)
    requires Acceptable(v.cfg) && EffectiveMaxRecipients(v.cfg) > 0
    ensures Counted(EffectiveMaxRecipients(v.cfg), After(v, START, cmds), Trace(v, START, cmds))
  {
    hide Respond, EventOf, Counted, Acceptable, EffectiveMaxRecipients;
    if cmds == [] {
      NothingHeard(v, START);
      NothingCounted(EffectiveMaxRecipients(v.cfg));
    } else {
      var pre, cmd := cmds[..|cmds| - 1], cmds[|cmds| - 1];
      SessionCounted(v, pre);
      SessionAgrees(v, pre);
      CountedKept(v, After(v, START, pre), Trace(v, START, pre), cmd);
      TraceAppend(v, START, pre, cmd);
      assert pre + [cmd] == cmds;
    }
  }

  lemma NothingCounted(cap: nat)
    ensures Counted(cap, START, [])
  {
  }

  lemma {:induction false} SessionBound(v: Server, cmds: seq<Cmd>)
    requires Acceptable(v.cfg) && EffectiveMaxRecipients(v.cfg) > 0
    ensures |Rcpts(Trace(v, START, cmds))| <= EffectiveMaxRecipients(v.cfg) * Mails(Trace(v, START, cmds))
  {
    hide Acceptable, Trace, After, Mails, Rcpts, NeedsTLS, AuthMissing, Allowlisted, MayReceive, SecurityAgrees,
         EnvelopeAgrees, EffectiveMaxRecipients;
    SessionCounted(v, cmds);
    SessionAgrees(v, cmds);
    var n := Mails(Trace(v, START, cmds));
    if n >= 1 {
      CapTimes(EffectiveMaxRecipients(v.cfg), n);
    }
  }

  // --- It is reached: a session over the cap ------------------------------------------------

  lemma {:induction false} TraceSplit(v: Server, s: Session, a: seq<Cmd>, b: seq<Cmd>)
    ensures After(v, s, a + b) == After(v, After(v, s, a), b)
    ensures Trace(v, s, a + b) == Trace(v, s, a) + Trace(v, After(v, s, a), b)
  {
    hide Respond, EventOf, After, Trace;
    if b == [] {
      NothingHeard(v, After(v, s, a));
      assert a + b == a;
    } else {
      var front, cmd := b[..|b| - 1], b[|b| - 1];
      TraceSplit(v, s, a, front);
      assert b == front + [cmd] && a + b == (a + front) + [cmd];
      TraceAppend(v, s, a + front, cmd);
      TraceAppend(v, After(v, s, a), front, cmd);
    }
  }

  /** A MAIL and its RCPTs, all good and within the cap. */
  predicate Burst(c: Config, s: Session, mail: Cmd, rcpts: seq<Cmd>) {
    && !NeedsTLS(c, s) && !AuthMissing(c, s) && GoodMail(c, mail)
    && (forall r <- rcpts :: GoodRcpt(c, r))
    && (EffectiveMaxRecipients(c) > 0 ==> |rcpts| <= EffectiveMaxRecipients(c))
  }

  lemma {:induction false} BurstCounts(v: Server, s: Session, mail: Cmd, rcpts: seq<Cmd>)
    requires Burst(v.cfg, s, mail, rcpts)
    ensures Mails(Trace(v, s, [mail] + rcpts)) == 1 && Rcpts(Trace(v, s, [mail] + rcpts)) == Addresses(rcpts)
  {
    hide Sender, Recipient, Allowlisted, MayReceive, Verb, AuthMissing, NeedsTLS, After, Trace, Mails, Rcpts, Respond;
    NoCounts();
    EnvelopeAccepted(v, s, mail, rcpts);
    if rcpts == [] {
      NothingHeard(v, s);
      TraceAppend(v, s, [], mail);
      assert [] + [mail] == [mail] + rcpts;
      var e := EventOf(v, s, mail);
      assert Trace(v, s, [mail] + rcpts) == [] + [e] && e in [] + [e];
      MailsAppend([], e);
      RcptsAppend([], e);
    } else {
      var pre, r := rcpts[..|rcpts| - 1], rcpts[|rcpts| - 1];
      BurstCounts(v, s, mail, pre);
      TraceAppend(v, s, [mail] + pre, r);
      assert ([mail] + pre) + [r] == [mail] + rcpts;
      assert GoodRcpt(v.cfg, r);
      var t, e := Trace(v, s, [mail] + pre), EventOf(v, After(v, s, [mail] + pre), r);
      assert e in t + [e];
      MailsAppend(t, e);
      RcptsAppend(t, e);
    }
  }

  /** The same envelope twice over, without anything in between, is accepted both times: with
      a full envelope the session takes twice the cap. */
  lemma {:induction false} TwiceTheCap(v: Server, s: Session, mail: Cmd, rcpts: seq<Cmd>)
    requires Burst(v.cfg, s, mail, rcpts)
    ensures var t := Trace(v, s, ([mail] + rcpts) + ([mail] + rcpts));
            && (forall e <- t :: e.replies == [250]) && Mails(t) == 2 && |Rcpts(t)| == 2 * |rcpts|
  {
    hide Sender, Recipient, Allowlisted, MayReceive, Verb, After, Trace, Mails, Rcpts;
    var burst := [mail] + rcpts;
    EnvelopeAccepted(v, s, mail, rcpts);
    BurstCounts(v, s, mail, rcpts);
    var next := After(v, s, burst);
    EnvelopeAccepted(v, next, mail, rcpts);
    BurstCounts(v, next, mail, rcpts);
    TraceSplit(v, s, burst, burst);
    CountsConcat(Trace(v, s, burst), Trace(v, next, burst));
  }

  // --- When a session keeps the cap ------------------------------------------------------------

  /** No session with at most n accepted MAILs takes more recipients than the cap. */
  ghost predicate SessionsKeepCap(v: Server, n: nat) {
    forall cmds :: Mails(Trace(v, START, cmds)) <= n ==> |Rcpts(Trace(v, START, cmds))| <= EffectiveMaxRecipients(v.cfg)
  }

  /** Where a session can get as far as an accepted envelope at all, the cap holds per session
      for sessions with at most one accepted MAIL, and for no larger number. */
  lemma {:induction false} SessionCapIff(v: Server, n: nat, login: seq<Cmd>, mail: Cmd, rcpt: Cmd)
    requires Acceptable(v.cfg) && EffectiveMaxRecipients(v.cfg) > 0
    requires Mails(Trace(v, START, login)) == 0 && Burst(v.cfg, After(v, START, login), mail, [rcpt])
    ensures SessionsKeepCap(v, n) <==> n <= 1
  {
    hide Trace, After, Mails, Rcpts, Acceptable, NeedsTLS, AuthMissing, GoodMail, GoodRcpt;
    var cap := EffectiveMaxRecipients(v.cfg);
    if n <= 1 {
      forall cmds | Mails(Trace(v, START, cmds)) <= n ensures |Rcpts(Trace(v, START, cmds))| <= cap {
        SessionBound(v, cmds);
        if Mails(Trace(v, START, cmds)) == 1 {
          CapTimes(cap, 1);
        }
      }
    } else {
      assert rcpt in [rcpt];
      var rcpts := seq(cap, _ => rcpt);
      var s := After(v, START, login);
      TwiceTheCap(v, s, mail, rcpts);
      var bursts := ([mail] + rcpts) + ([mail] + rcpts);
      TraceSplit(v, START, login, bursts);
      CountsConcat(Trace(v, START, login), Trace(v, s, bursts));
      assert |Rcpts(Trace(v, START, login + bursts))| > cap;
    }
  }
}
