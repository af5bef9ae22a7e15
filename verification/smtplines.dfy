/** Which address a MAIL or RCPT line names (core/smtp/session.go), read off the line itself:
    the reader against the syntax it is for. */
module SmtpLines {
  import opened Text
  import opened SmtpConfig
  import opened SmtpSession
  import opened SmtpTrace

  /** PREFIX <address> anything: the prefix in any case, and blanks may come before the angle
      bracket. */
  predicate Names(arg: string, prefix: string, p: string, blanks: string, addr: string, tail: string) {
    && arg == p + blanks + "<" + addr + ">" + tail
    && SameButCase(p, prefix) && AllSpace(blanks) && '>' !in addr
  }

  lemma Bracketed(addr: string, tail: string)
    requires '>' !in addr
    ensures var s := "<" + addr + ">" + tail;
            IndexByte(s, '>') == |addr| + 1 && s[1..|addr| + 1] == addr && HasPrefix(s, "<")
  {
    hide IndexByte;
    var s := "<" + addr + ">" + tail;
    assert '>' !in "<" + addr;
    IndexByteIs("<" + addr, tail, '>');
    assert s == ("<" + addr) + ['>'] + tail;
  }

  /** An argument of that shape is read as the address in it. */
  lemma AddressIsRead(arg: string, prefix: string, p: string, blanks: string, addr: string, tail: string)
    requires Names(arg, prefix, p, blanks, addr, tail)
    ensures ExtractEnvelopeAddress(arg, prefix) == addr
  {
    hide IndexByte, IsSpace, TrimLeft, TrimRight, EqualFold, SameButCase, HasPrefix;
    FoldIff(p, prefix);
    var inner := "<" + addr + ">";
    assert arg[..|prefix|] == p && arg[|prefix|..] == blanks + (inner + tail);
    TrimLeftBlanks(blanks, inner + tail);
    NoSpaceThere();
    TrimLeftStops(inner + tail);
    TrimRightAfter(inner, tail);
    assert TrimSpace(arg[|prefix|..]) == "<" + addr + ">" + TrimRight(tail);
    Bracketed(addr, TrimRight(tail));
  }

  lemma NoSpaceThere()
    ensures !IsSpace('<') && !IsSpace('>')
  {
  }

  /** And only such an argument is read as an address. */
  lemma ReadIsAddress(arg: string, prefix: string) returns (p: string, blanks: string, tail: string)
    requires ExtractEnvelopeAddress(arg, prefix) != ""
    ensures Names(arg, prefix, p, blanks, ExtractEnvelopeAddress(arg, prefix), tail)
  {
    hide IndexByte, IsSpace, TrimLeft, TrimRight, EqualFold, SameButCase;
    FoldIff(arg[..|prefix|], prefix);
    var s := arg[|prefix|..];
    p := arg[..|prefix|];
    var rest := TrimSpace(s);
    var end := IndexByte(rest, '>');
    blanks := TrimLeftParts(s);
    var after := TrimRightParts(TrimLeft(s));
    tail := rest[end + 1..] + after;
    BracketsAround(rest, end);
    Reassemble(arg, p, s, blanks, rest, rest[1..end], rest[end + 1..], after);
  }

  lemma {:induction false} BracketsAround(rest: string, end: int)
    requires HasPrefix(rest, "<") && end == IndexByte(rest, '>') > 0
    ensures rest == "<" + rest[1..end] + ">" + rest[end + 1..] && '>' !in rest[1..end]
  {
    hide IndexByte;
    assert forall i :: 0 <= i < end - 1 ==> rest[1..end][i] == rest[..end][i + 1];
  }

  lemma Reassemble(arg: string, p: string, s: string, blanks: string, rest: string, addr: string, rear: string, after: string)
    requires arg == p + s && s == blanks + (rest + after) && rest == "<" + addr + ">" + rear
    ensures arg == p + blanks + "<" + addr + ">" + (rear + after)
  {
  }

  lemma {:induction false} TrimRightParts(s: string) returns (b: string)
    ensures AllSpace(b) && s == TrimRight(s) + b
  {
    hide IsSpace;
    b := "";
    if s != "" && IsSpace(s[|s| - 1]) {
      var rest := TrimRightParts(s[..|s| - 1]);
      b := rest + [s[|s| - 1]];
      assert s == s[..|s| - 1] + [s[|s| - 1]];
    }
  }

  /** The exact grammar of the reader. */
  lemma AddressIff(arg: string, prefix: string, addr: string)
    requires addr != ""
    ensures ExtractEnvelopeAddress(arg, prefix) == addr
       <==> exists p, blanks, tail :: Names(arg, prefix, p, blanks, addr, tail)
  {
    hide ExtractEnvelopeAddress, Names;
    if ExtractEnvelopeAddress(arg, prefix) == addr {
      var p, blanks, tail := ReadIsAddress(arg, prefix);
      assert Names(arg, prefix, p, blanks, addr, tail);
    }
    if p, blanks, tail :| Names(arg, prefix, p, blanks, addr, tail) {
      AddressIsRead(arg, prefix, p, blanks, addr, tail);
    }
  }

  // --- Command words ------------------------------------------------------------------------

  /** The first word decides the command, in any case of its letters; the rest is its argument. */
  lemma LineReads(word: string, arg: string)
    requires ' ' !in word
    ensures Verb(word + " " + arg) == Verb(word) && Arg(word + " " + arg) == arg
    ensures Verb(word) == Verb(ToUpper(word))
  {
    hide ToUpper;
    IndexByteIs(word, arg, ' ');
    assert word + " " + arg == word + [' '] + arg;
    var line := word + " " + arg;
    assert line[..|word|] == word && line[|word| + 1..] == arg;
    UpperTwice(word);
  }

  lemma SpelledWord(word: string, command: string)
    requires forall i :: 0 <= i < |command| ==> 'A' <= command[i] <= 'Z'
    requires Spells(word, command)
    ensures ToUpper(word) == command && ' ' !in word
  {
    SpellsIff(word, command);
    forall i | 0 <= i < |word| ensures word[i] != ' ' {
      assert 'A' <= command[i] <= 'Z';
    }
  }

  lemma UpperTwice(word: string)
    requires ' ' !in word
    ensures ToUpper(ToUpper(word)) == ToUpper(word) && ' ' !in ToUpper(word)
  {
    forall i | 0 <= i < |word| ensures UpperChar(UpperChar(word[i])) == UpperChar(word[i]) && ToUpper(word)[i] != ' ' {
    }
  }

  /** The ten words of the protocol. */
  lemma Words()
    ensures Verb("EHLO") == EHLO && Verb("HELO") == HELO && Verb("STARTTLS") == STARTTLS && Verb("AUTH") == AUTH
    ensures Verb("MAIL") == MAIL && Verb("RCPT") == RCPT && Verb("DATA") == DATA && Verb("RSET") == RSET
    ensures Verb("NOOP") == NOOP && Verb("QUIT") == QUIT
  {
    hide Verb;
    OpeningWords();
    EnvelopeWords();
    OtherWords();
  }

  lemma OpeningWords()
    ensures Verb("EHLO") == EHLO && Verb("HELO") == HELO && Verb("STARTTLS") == STARTTLS && Verb("AUTH") == AUTH
  {
    hide Verb;
    UpperWord("EHLO");
    UpperWord("HELO");
    UpperWord("STARTTLS");
    UpperWord("AUTH");
  }

  lemma EnvelopeWords()
    ensures Verb("MAIL") == MAIL && Verb("RCPT") == RCPT && Verb("DATA") == DATA
  {
    hide Verb;
    UpperWord("MAIL");
    UpperWord("RCPT");
    UpperWord("DATA");
  }

  lemma OtherWords()
    ensures Verb("RSET") == RSET && Verb("NOOP") == NOOP && Verb("QUIT") == QUIT
  {
    hide Verb;
    UpperWord("RSET");
    UpperWord("NOOP");
    UpperWord("QUIT");
  }

  lemma UpperWord(word: string)
    requires forall i :: 0 <= i < |word| ==> 'A' <= word[i] <= 'Z'
    ensures Verb(word) ==
            if word == "EHLO" then EHLO else if word == "HELO" then HELO else if word == "STARTTLS" then STARTTLS
            else if word == "AUTH" then AUTH else if word == "MAIL" then MAIL else if word == "RCPT" then RCPT
            else if word == "DATA" then DATA else if word == "RSET" then RSET else if word == "NOOP" then NOOP
            else if word == "QUIT" then QUIT else OTHER
  {
    hide IndexByte;
    assert ToUpper(word) == word;
    assert ' ' !in word;
    assert word == SplitCommand(word).0 by {
      assert IndexByte(word, ' ') < 0;
    }
  }

  // --- Sessions on literal lines ----------------------------------------------------------------

  /** A MAIL line that names an address, word and prefix in any case, is accepted if and only if
      the trace before it meets the policy and that address is allowlisted. */
  lemma {:induction false} MailLineAcceptedIff(v: Server, cmds: seq<Cmd>, n: nat, word: string, p: string,
                                               blanks: string, addr: string, tail: string)
    requires Acceptable(v.cfg) && n < |cmds| && Spells(word, "MAIL") && addr != ""
    requires cmds[n].line == word + " " + (p + blanks + "<" + addr + ">" + tail)
    requires Names(p + blanks + "<" + addr + ">" + tail, "FROM:", p, blanks, addr, tail)
    ensures var t := Trace(v, START, cmds);
            AcceptedMail(t[n]) <==> Authorized(v.cfg, t[..n]) && Allowlisted(addr, v.cfg.allowedSenders)
    ensures AcceptedMail(Trace(v, START, cmds)[n]) ==> After(v, START, cmds[..n + 1]).mailFrom == addr
  {
    hide Names, ExtractEnvelopeAddress, Verb, Arg, Allowlisted, Authorized, Trace, After, Acceptable, ToUpper, Spells;
    var arg := p + blanks + "<" + addr + ">" + tail;
    SpelledWord(word, "MAIL");
    LineReads(word, arg);
    EnvelopeWords();
    AddressIsRead(arg, "FROM:", p, blanks, addr, tail);
    assert Sender(cmds[n].line) == addr;
    MailAcceptedIff(v, cmds, n);
    EventAt(v, START, cmds, n);
    var s := After(v, START, cmds[..n]);
    EnvelopeStep(v, s, cmds[n]);
    TraceAppend(v, START, cmds[..n], cmds[n]);
    assert cmds[..n] + [cmds[n]] == cmds[..n + 1];
  }

  /** Likewise a RCPT line, in an open transaction with room; the address joins the recipients. */
  lemma RcptLineAcceptedIff(v: Server, cmds: seq<Cmd>, n: nat, word: string, p: string, blanks: string, addr: string,
                            tail: string)
    requires Acceptable(v.cfg) && n < |cmds| && Spells(word, "RCPT") && addr != ""
    requires cmds[n].line == word + " " + (p + blanks + "<" + addr + ">" + tail)
    requires Names(p + blanks + "<" + addr + ">" + tail, "TO:", p, blanks, addr, tail)
    ensures var t, cap := Trace(v, START, cmds), EffectiveMaxRecipients(v.cfg);
            AcceptedRcpt(t[n]) <==>
              exists m: nat :: OpenedAt(t[..n], m) && MayReceive(v.cfg, addr) && (cap > 0 ==> |Rcpts(t[m + 1..n])| < cap)
    ensures AcceptedRcpt(Trace(v, START, cmds)[n]) ==>
              After(v, START, cmds[..n + 1]).rcptTo == After(v, START, cmds[..n]).rcptTo + [addr]
  {
    hide Names, ExtractEnvelopeAddress, Verb, Arg, MayReceive, OpenedAt, Rcpts, Trace, After, Acceptable, ToUpper, Spells;
    var arg := p + blanks + "<" + addr + ">" + tail;
    SpelledWord(word, "RCPT");
    LineReads(word, arg);
    EnvelopeWords();
    AddressIsRead(arg, "TO:", p, blanks, addr, tail);
    assert Recipient(cmds[n].line) == addr;
    RcptAcceptedIff(v, cmds, n);
    EventAt(v, START, cmds, n);
    var s := After(v, START, cmds[..n]);
    EnvelopeStep(v, s, cmds[n]);
    TraceAppend(v, START, cmds[..n], cmds[n]);
    assert cmds[..n] + [cmds[n]] == cmds[..n + 1];
  }

  // --- Allowlist entries ------------------------------------------------------------------------------

  /** "*@domain" admits exactly the addresses of that domain, the part before the first '@'
      being anything; any other entry but "*" admits its own text alone. */
  lemma EntryAdmits(entry: string, domain: string, local: string, other: string)
    requires '@' !in local
    ensures Admits("*@" + domain, local + "@" + other) <==> other == domain
    ensures Admits("*", local + "@" + other)
    ensures entry != "*" && !HasPrefix(entry, "*@") ==> (Admits(entry, local + "@" + other) <==> entry == local + "@" + other)
  {
    hide IndexByte;
    var addr := local + "@" + other;
    assert addr == local + ['@'] + other;
    IndexByteIs(local, other, '@');
    assert addr[|local| + 1..] == other;
    var wild := "*@" + domain;
    assert wild[2..] == domain && wild[0] == '*' && wild[1] == '@';
    if wild == addr {
      IndexByteIs("*", domain, '@');
      assert wild == "*" + ['@'] + domain;
      assert |local| == 1;
    }
  }
}
