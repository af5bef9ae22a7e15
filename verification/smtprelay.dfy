/** From the inbound session to the outbound wire: a message a session hands over, printed by
    the outbound transport (core/transport/smtpout.go) and read back by its receiver. */
module SmtpRelay {
  import opened Wrappers
  import opened Text
  import opened SmtpConfig
  import opened SmtpSession
  import opened SmtpTrace
  import Rfc5322

  function ValueOf(m: Mail, name: string): string {
    if name in m.headers then m.headers[name] else ""
  }

  /** The receiver reads, by header name, what the blob said under that name; in To, the
      recipients; and the blob's text as the body. An empty Reply-To is left out, and an empty
      From is the envelope's sender. */
  ghost predicate Arrives(text: string, m: Mail, sender: string, rcpts: seq<string>, encodeWord: string -> string) {
    var read := Rfc5322.Parse(text);
    var subject, replyTo, from := ValueOf(m, "Subject"), ValueOf(m, "Reply-To"), ValueOf(m, "From");
    && read.Some? && var (hs, body) := read.value;
    && Rfc5322.Field(hs, "Subject") == Some(if Rfc5322.IsASCII(subject) then subject else encodeWord(subject))
    && Rfc5322.Field(hs, "Reply-To") == (if replyTo == "" then None else Some(replyTo))
    && Rfc5322.Field(hs, "From") == Some(if from == "" then sender else from)
    && Rfc5322.Field(hs, "To") == Some(Join(rcpts, ", "))
    && m.body == Some(body)
  }

  /** Every message of every session that the outbound transport accepts arrives. */
  lemma RelayedMessageArrives(v: Server, cmds: seq<Cmd>, n: nat, encodeWord: string -> string, date: string)
      returns (m: nat)
    requires Acceptable(v.cfg)
    requires n < |cmds| && Trace(v, START, cmds)[n].sent.Some?
    requires Rfc5322.Clean(Trace(v, START, cmds)[n].sent.value)
    requires Rfc5322.OneLine(date) && forall s :: Rfc5322.OneLine(encodeWord(s))
    ensures var t := Trace(v, START, cmds);
            var msg := t[n].sent.value;
            && OpenedAt(t[..n], m) && m < n && cmds[n].data.Blob?
            && var mail := v.env.parseMail(Kept(cmds[n].data.bytes, v.maxBody));
            && mail.Some?
            && Arrives(Rfc5322.Print(Rfc5322.Headers(msg, encodeWord, date), msg.bodyText),
                       mail.value, Sender(t[m].cmd.line), Rcpts(t[m + 1..n]), encodeWord)
  {
    hide Rfc5322.Parse, Rfc5322.Print, Rfc5322.Headers, Rfc5322.Field, Rfc5322.Clean, Rfc5322.OneLine, Rfc5322.IsASCII;
    hide Trace, OpenedAt, Rcpts, Sender, Join, Acceptable, Authorized, Kept, Allowlisted, MayReceive, Verb;
    var msg := Trace(v, START, cmds)[n].sent.value;
    m := SentToAcceptedRecipients(v, cmds, n);
    Rfc5322.AcceptedMessageShows(msg, encodeWord, date);
  }
}
