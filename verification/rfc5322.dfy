/** core/transport/smtpout.go: the message printer, proved against a reader of sections 2.1
    and 2.2 of RFC 5322. The MIME word encoder is a parameter. */
module Rfc5322 {
  import opened Wrappers
  import opened Text
  import opened Transport

  datatype Header = Header(name: string, value: string)

  const CRLF := "\r\n"

  // --- Printing ----------------------------------------------------------------------------

  function HeaderLine(h: Header): string {
    h.name + ": " + h.value + CRLF
  }

  function Print(hs: seq<Header>, body: string): string {
    if hs == [] then CRLF + body else HeaderLine(hs[0]) + Print(hs[1..], body)
  }

  // --- Reading -----------------------------------------------------------------------------

  /** Where the first CRLF of s is, or -1. */
  function IndexCRLF(s: string): (i: int)
    ensures -1 <= i <= |s| - 2 || i == -1
    ensures i >= 0 ==> s[i] == '\r' && s[i + 1] == '\n'
  {
    if |s| < 2 then -1
    else if s[0] == '\r' && s[1] == '\n' then 0
    else
      var i := IndexCRLF(s[1..]);
      if i < 0 then -1 else i + 1
  }

  /** Header lines up to the first empty line; the rest is the body. */
  function Parse(s: string): Option<(seq<Header>, string)>
    decreases |s|
  {
    var i := IndexCRLF(s);
    if i < 0 then None
    else if i == 0 then Some(([], s[2..]))
    else
      var colon := IndexByte(s[..i], ':');
      var rest := Parse(s[i + 2..]);
      if colon < 0 || colon + 1 >= i || s[colon + 1] != ' ' || rest.None? then None
      else Some(([Header(s[..colon], s[colon + 2..i])] + rest.value.0, rest.value.1))
  }

  // --- The round trip -----------------------------------------------------------------------

  predicate NameOk(h: Header) {
    forall i :: 0 <= i < |h.name| ==> h.name[i] != ':' && h.name[i] != '\r' && h.name[i] != '\n'
  }

  predicate HasCRLF(s: string) {
    exists i :: 0 <= i < |s| - 1 && s[i] == '\r' && s[i + 1] == '\n'
  }

  lemma {:induction false} IndexCRLFIs(s: string, i: nat)
    requires i + 1 < |s| && s[i] == '\r' && s[i + 1] == '\n'
    requires forall j :: 0 <= j < i ==> s[j] != '\r' || s[j + 1] != '\n'
    ensures IndexCRLF(s) == i
  {
    if i > 0 {
      assert s[0] != '\r' || s[1] != '\n';
      IndexCRLFIs(s[1..], i - 1);
    }
  }

  /** Reading a first line that has a name, a colon and a space. */
  lemma {:induction false} ParseLine(s: string, name: string, value: string, n: nat)
    requires n + 1 < |s| && IndexCRLF(s) == n > 0
    requires s[..n] == name + ": " + value && ':' !in name
    ensures var p := Parse(s[n + 2..]);
            Parse(s) == if p.None? then None else Some(([Header(name, value)] + p.value.0, p.value.1))
  {
    hide IndexCRLF, IndexByte;
    var line := s[..n];
    assert line == name + ":" + (" " + value);
    IndexByteIs(name, " " + value, ':');
    assert line[|name| + 1] == ' ' && line[..|name|] == name && line[|name| + 2..] == value;
    assert s[|name| + 1] == line[|name| + 1] && s[..|name|] == line[..|name|] && s[|name| + 2..n] == line[|name| + 2..];
  }

  /** No CRLF starts before position n of a header line whose value has none before there. */
  lemma NoEarlyCRLF(h: Header, s: string, n: nat)
    requires NameOk(h) && |h.name| + 2 <= n < |s|
    requires forall j :: 0 <= j <= n && j < |h.name| + 2 + |h.value| ==> s[j] == (h.name + ": " + h.value)[j]
    requires n <= |h.name| + 2 + |h.value|
    requires s[n] == '\r'
    requires forall v :: 0 <= v < n - |h.name| - 2 && v + 1 < |h.value| ==> h.value[v] != '\r' || h.value[v + 1] != '\n'
    ensures forall j :: 0 <= j < n ==> s[j] != '\r' || s[j + 1] != '\n'
  {
    var line := h.name + ": " + h.value;
    forall j | 0 <= j < n ensures s[j] != '\r' || s[j + 1] != '\n' {
      assert s[j] == line[j];
      var v := j - |h.name| - 2;
      if v < 0 {
        if j < |h.name| {
          assert line[j] == h.name[j];
        }
      } else if j + 1 < n {
        assert line[j] == h.value[v] && s[j + 1] == line[j + 1] == h.value[v + 1];
      }
    }
  }

  /** One printed header is read back, provided its value holds no CRLF. */
  lemma {:induction false} ParseHeader(h: Header, rest: string)
    requires NameOk(h) && !HasCRLF(h.value)
    ensures var p := Parse(rest);
            Parse(HeaderLine(h) + rest) == if p.None? then None else Some(([h] + p.value.0, p.value.1))
  {
    hide Parse, IndexCRLF;
    var s := HeaderLine(h) + rest;
    var line := h.name + ": " + h.value;
    var n := |line|;
    assert s == line + CRLF + rest;
    assert s[..n] == line && s[n + 2..] == rest && s[n] == '\r' && s[n + 1] == '\n';
    NoEarlyCRLF(h, s, n);
    IndexCRLFIs(s, n);
    ParseLine(s, h.name, h.value, n);
  }

  /** A header whose value holds a CRLF is cut short when read back. */
  lemma {:induction false} ParseCutsShort(h: Header, rest: string)
    requires NameOk(h) && HasCRLF(h.value)
    ensures var p := Parse(HeaderLine(h) + rest);
            p.Some? ==> p.value.0 != [] && p.value.0[0] != h
  {
    hide Parse, IndexCRLF;
    var s := HeaderLine(h) + rest;
    var line := h.name + ": " + h.value;
    FirstOf(h.value);
    var c := IndexCRLF(h.value);
    var n := |h.name| + 2 + c;
    assert s == line + CRLF + rest;
    assert s[n] == line[n] == h.value[c] && s[n + 1] == line[n + 1] == h.value[c + 1];
    NoEarlyCRLF(h, s, n);
    IndexCRLFIs(s, n);
    assert s[..n] == line[..n] == h.name + ": " + h.value[..c];
    ParseLine(s, h.name, h.value[..c], n);
  }

  /** IndexCRLF finds the first CRLF whenever there is one. */
  lemma {:induction false} FirstOf(s: string)
    ensures IndexCRLF(s) >= 0 <==> HasCRLF(s)
    ensures forall j :: 0 <= j < IndexCRLF(s) ==> s[j] != '\r' || s[j + 1] != '\n'
  {
    if |s| >= 2 && !(s[0] == '\r' && s[1] == '\n') {
      var t := s[1..];
      FirstOf(t);
      if HasCRLF(s) {
        var i :| 0 <= i < |s| - 1 && s[i] == '\r' && s[i + 1] == '\n';
        assert t[i - 1] == '\r' && t[i - 1 + 1] == '\n';
      }
      if HasCRLF(t) {
        var i :| 0 <= i < |t| - 1 && t[i] == '\r' && t[i + 1] == '\n';
        assert s[i + 1] == '\r' && s[i + 1 + 1] == '\n';
      }
      forall j | 0 <= j < IndexCRLF(s) ensures s[j] != '\r' || s[j + 1] != '\n' {
        if j > 0 {
          assert t[j - 1] == s[j] && t[j - 1 + 1] == s[j + 1];
        }
      }
    }
  }

  /** Printing loses nothing, whatever the body holds, exactly when no header value holds a
      CRLF. */
  lemma {:induction false} RoundTripIff(hs: seq<Header>, body: string)
    requires forall i :: 0 <= i < |hs| ==> NameOk(hs[i])
    ensures Parse(Print(hs, body)) == Some((hs, body))
       <==> forall i :: 0 <= i < |hs| ==> !HasCRLF(hs[i].value)
  {
    hide Parse, NameOk, HasCRLF, HeaderLine;
    if hs == [] {
      ParseBody(body);
    } else {
      var h, rest := hs[0], Print(hs[1..], body);
      RoundTripIff(hs[1..], body);
      assert hs == [h] + hs[1..];
      if HasCRLF(h.value) {
        ParseCutsShort(h, rest);
      } else {
        ParseHeader(h, rest);
        assert forall i :: 1 <= i < |hs| ==> hs[i] == hs[1..][i - 1];
        var p := Parse(rest);
        if p.Some? && [h] + p.value.0 == hs {
          assert p.value.0 == ([h] + p.value.0)[1..] == hs[1..];
        }
      }
    }
  }

  lemma {:induction false} ParseBody(body: string)
    ensures Parse(CRLF + body) == Some(([], body))
  {
    var s := CRLF + body;
    assert s[0] == '\r' && s[1] == '\n';
    assert s[2..] == body;
  }

  // --- The program's message ----------------------------------------------------------------

  predicate OneLine(s: string) {
    forall i :: 0 <= i < |s| ==> s[i] != '\r' && s[i] != '\n'
  }

  datatype Rejection = FromBad | ReplyToBad | SubjectBad | ToBad(index: nat)

  /** No header the sender controls holds a CR or LF. */
  predicate Clean(m: Message) {
    && OneLine(m.from) && OneLine(m.replyTo) && OneLine(m.subject)
    && forall i :: 0 <= i < |m.to| ==> OneLine(m.to[i])
  }

  method ContainsCROrLF(s: string) returns (found: bool)
    ensures found <==> !OneLine(s)
  {
    for i := 0 to |s|
      invariant OneLine(s[..i])
    {
      if s[i] == '\r' || s[i] == '\n' {
        return true;
      }
      assert s[..i + 1] == s[..i] + [s[i]];
    }
    assert s[..|s|] == s;
    return false;
  }

  method ValidateNoHeaderCRLF(m: Message) returns (err: Option<Rejection>)
    ensures err.None? <==> Clean(m)
    ensures err == Some(FromBad) <==> !OneLine(m.from)
    ensures err == Some(ReplyToBad) <==> OneLine(m.from) && !OneLine(m.replyTo)
    ensures err == Some(SubjectBad) <==> OneLine(m.from) && OneLine(m.replyTo) && !OneLine(m.subject)
    ensures err.Some? && err.value.ToBad? ==>
              && err.value.index < |m.to| && !OneLine(m.to[err.value.index])
              && forall j :: 0 <= j < err.value.index ==> OneLine(m.to[j])
  {
    hide OneLine;
    var bad := ContainsCROrLF(m.from);
    if bad {
      return Some(FromBad);
    }
    bad := ContainsCROrLF(m.replyTo);
    if bad {
      return Some(ReplyToBad);
    }
    bad := ContainsCROrLF(m.subject);
    if bad {
      return Some(SubjectBad);
    }
    for i := 0 to |m.to|
      invariant forall j :: 0 <= j < i ==> OneLine(m.to[j])
    {
      bad := ContainsCROrLF(m.to[i]);
      if bad {
        return Some(ToBad(i));
      }
    }
    return None;
  }

  predicate IsASCII(s: string) {
    forall i :: 0 <= i < |s| ==> s[i] as int <= 127
  }

  method NeedsMIMEEncoding(s: string) returns (needs: bool)
    ensures needs <==> !IsASCII(s)
  {
    for i := 0 to |s|
      invariant forall j :: 0 <= j < i ==> s[j] as int <= 127
    {
      if s[i] as int > 127 {
        return true;
      }
    }
    return false;
  }

  function SubjectText(subject: string, encodeWord: string -> string): string {
    if IsASCII(subject) then subject else encodeWord(subject)
  }

  method EncodeMIMESubject(subject: string, encodeWord: string -> string) returns (text: string)
    ensures text == SubjectText(subject, encodeWord)
  {
    var needs := NeedsMIMEEncoding(subject);
    if !needs {
      return subject;
    }
    return encodeWord(subject);
  }

  /** The headers of a message, in the order they are sent. */
  function Headers(m: Message, encodeWord: string -> string, date: string): seq<Header> {
    [Header("From", m.from), Header("To", Join(m.to, ", "))]
    + (if m.replyTo != "" then [Header("Reply-To", m.replyTo)] else [])
    + [Header("Subject", SubjectText(m.subject, encodeWord)),
       Header("Date", date),
       Header("MIME-Version", "1.0"),
       Header("Content-Type", "text/plain; charset=\"utf-8\""),
       Header("Content-Transfer-Encoding", "8bit")]
  }

  class Buffer {
    var data: string

    constructor ()
      ensures data == ""
    {
      data := "";
    }

    method WriteString(s: string)
      modifies this
      ensures data == old(data) + s
    {
      data := data + s;
    }
  }

  /** The header lines alone. */
  function Lines(hs: seq<Header>): string {
    if hs == [] then "" else Lines(hs[..|hs| - 1]) + HeaderLine(hs[|hs| - 1])
  }

  method WriteHeader(buf: Buffer, ghost before: seq<Header>, name: string, value: string)
    requires buf.data == Lines(before)
    modifies buf
    ensures buf.data == Lines(before + [Header(name, value)])
  {
    buf.WriteString(name);
    buf.WriteString(": ");
    buf.WriteString(value);
    buf.WriteString("\r\n");
    var h := Header(name, value);
    assert (before + [h])[..|before|] == before;
    assert buf.data == Lines(before) + HeaderLine(h);
  }

  lemma {:induction false} PrintIsLines(hs: seq<Header>, more: seq<Header>, body: string)
    ensures Print(hs + more, body) == Lines(hs) + Print(more, body)
    decreases |hs|
  {
    hide HeaderLine;
    if hs == [] {
      assert hs + more == more;
    } else {
      var front, last := hs[..|hs| - 1], hs[|hs| - 1];
      PrintIsLines(front, [last] + more, body);
      assert hs + more == front + ([last] + more);
      assert ([last] + more)[1..] == more;
    }
  }

  method BuildRFC5322(m: Message, encodeWord: string -> string, date: string) returns (text: string)
    ensures text == Print(Headers(m, encodeWord, date), m.bodyText)
  {
    hide HeaderLine, Lines, Print, Join, SubjectText;
    var buf := new Buffer();
    ghost var hs: seq<Header> := [];
    NoLines();
    WriteHeader(buf, hs, "From", m.from);
    hs := hs + [Header("From", m.from)];
    WriteHeader(buf, hs, "To", Join(m.to, ", "));
    hs := hs + [Header("To", Join(m.to, ", "))];
    if m.replyTo != "" {
      WriteHeader(buf, hs, "Reply-To", m.replyTo);
      hs := hs + [Header("Reply-To", m.replyTo)];
    }
    var subject := EncodeMIMESubject(m.subject, encodeWord);
    WriteHeader(buf, hs, "Subject", subject);
    hs := hs + [Header("Subject", subject)];
    WriteHeader(buf, hs, "Date", date);
    hs := hs + [Header("Date", date)];
    WriteHeader(buf, hs, "MIME-Version", "1.0");
    hs := hs + [Header("MIME-Version", "1.0")];
    WriteHeader(buf, hs, "Content-Type", "text/plain; charset=\"utf-8\"");
    hs := hs + [Header("Content-Type", "text/plain; charset=\"utf-8\"")];
    WriteHeader(buf, hs, "Content-Transfer-Encoding", "8bit");
    hs := hs + [Header("Content-Transfer-Encoding", "8bit")];
    assert hs == Headers(m, encodeWord, date);
    PrintIsLines(hs, [], m.bodyText);
    PrintBody(m.bodyText);
    assert hs + [] == hs;
    buf.WriteString("\r\n");
    buf.WriteString(m.bodyText);
    text := buf.data;
  }

  lemma NoLines()
    ensures Lines([]) == ""
  {
  }

  lemma {:induction false} PrintBody(body: string)
    ensures Print([], body) == CRLF + body
  {
  }

  lemma {:induction false} JoinOneLine(parts: seq<string>, sep: string)
    requires OneLine(sep) && forall i :: 0 <= i < |parts| ==> OneLine(parts[i])
    ensures OneLine(Join(parts, sep))
  {
    JoinAvoids(parts, sep, '\r');
    JoinAvoids(parts, sep, '\n');
  }

  lemma OneLineNoCRLF(s: string)
    requires OneLine(s)
    ensures !HasCRLF(s)
  {
  }

  /** Whatever validateNoHeaderCRLF lets through is read back as exactly the headers meant,
      in order, and exactly the body, whatever the body holds. */
  lemma AcceptedMessageReadsBack(m: Message, encodeWord: string -> string, date: string)
    requires Clean(m) && OneLine(date)
    requires forall s :: OneLine(encodeWord(s))
    ensures Parse(Print(Headers(m, encodeWord, date), m.bodyText)) == Some((Headers(m, encodeWord, date), m.bodyText))
  {
    hide Parse, Print, OneLine, HasCRLF, Join, NameOk;
    var hs := Headers(m, encodeWord, date);
    PlainSeparators();
    JoinOneLine(m.to, ", ");
    NamesOk();
    forall i | 0 <= i < |hs| ensures NameOk(hs[i]) && !HasCRLF(hs[i].value) {
      assert OneLine(hs[i].value) && NameOk(hs[i]);
      OneLineNoCRLF(hs[i].value);
    }
    RoundTripIff(hs, m.bodyText);
  }

  /** The value of the first header of that name. */
  function Field(hs: seq<Header>, name: string): Option<string> {
    if hs == [] then None
    else if hs[0].name == name then Some(hs[0].value)
    else Field(hs[1..], name)
  }

  /** What a reader of the sent text finds, by name: each of its headers once, and the body. */
  ghost predicate Shows(text: string, m: Message, encodeWord: string -> string, date: string) {
    var read := Parse(text);
    && read.Some? && var (hs, body) := read.value;
    && |hs| == (if m.replyTo == "" then 7 else 8)
    && Field(hs, "From") == Some(m.from)
    && Field(hs, "To") == Some(Join(m.to, ", "))
    && Field(hs, "Reply-To") == (if m.replyTo == "" then None else Some(m.replyTo))
    && Field(hs, "Subject") == Some(if IsASCII(m.subject) then m.subject else encodeWord(m.subject))
    && Field(hs, "Date") == Some(date)
    && Field(hs, "MIME-Version") == Some("1.0")
    && Field(hs, "Content-Type") == Some("text/plain; charset=\"utf-8\"")
    && Field(hs, "Content-Transfer-Encoding") == Some("8bit")
    && body == m.bodyText
  }

  /** The sent text of an accepted message shows that message. */
  lemma AcceptedMessageShows(m: Message, encodeWord: string -> string, date: string)
    requires Clean(m) && OneLine(date)
    requires forall s :: OneLine(encodeWord(s))
    ensures Shows(Print(Headers(m, encodeWord, date), m.bodyText), m, encodeWord, date)
  {
    hide Parse, Print, Clean, OneLine, Join, IsASCII, Field;
    AcceptedMessageReadsBack(m, encodeWord, date);
    Fields(m, encodeWord, date);
  }

  lemma {:induction false} FieldAt(hs: seq<Header>, k: nat)
    requires k < |hs| && forall i :: 0 <= i < k ==> hs[i].name != hs[k].name
    ensures Field(hs, hs[k].name) == Some(hs[k].value)
  {
    if k > 0 {
      FieldAt(hs[1..], k - 1);
    }
  }

  lemma {:induction false} FieldMissing(hs: seq<Header>, name: string)
    requires forall h <- hs :: h.name != name
    ensures Field(hs, name) == None
  {
    if hs != [] {
      FieldMissing(hs[1..], name);
    }
  }

  predicate DistinctNames(hs: seq<Header>) {
    forall i, j :: 0 <= i < j < |hs| ==> hs[i].name != hs[j].name
  }

  lemma HeadersDiffer(m: Message, encodeWord: string -> string, date: string)
    ensures DistinctNames(Headers(m, encodeWord, date))
    ensures m.replyTo == "" ==> forall h <- Headers(m, encodeWord, date) :: h.name != "Reply-To"
  {
    hide Join, SubjectText;
    assert "From"[0] != "Date"[0] && "MIME-Version"[0] != "Content-Type"[0];
    var hs := Headers(m, encodeWord, date);
    if m.replyTo == "" {
      assert |hs| == 7;
    }
  }

  lemma Fields(m: Message, encodeWord: string -> string, date: string)
    ensures var hs := Headers(m, encodeWord, date);
            && |hs| == (if m.replyTo == "" then 7 else 8)
            && Field(hs, "From") == Some(m.from)
            && Field(hs, "To") == Some(Join(m.to, ", "))
            && Field(hs, "Reply-To") == (if m.replyTo == "" then None else Some(m.replyTo))
            && Field(hs, "Subject") == Some(if IsASCII(m.subject) then m.subject else encodeWord(m.subject))
            && Field(hs, "Date") == Some(date)
            && Field(hs, "MIME-Version") == Some("1.0")
            && Field(hs, "Content-Type") == Some("text/plain; charset=\"utf-8\"")
            && Field(hs, "Content-Transfer-Encoding") == Some("8bit")
  {
    hide Join, IsASCII, Field, DistinctNames;
    var hs := Headers(m, encodeWord, date);
    HeadersDiffer(m, encodeWord, date);
    forall k: nat | k < |hs| ensures Field(hs, hs[k].name) == Some(hs[k].value) {
      FieldOf(hs, k);
    }
    if m.replyTo == "" {
      FieldMissing(hs, "Reply-To");
    } else {
      assert hs[2] == Header("Reply-To", m.replyTo);
    }
    var n := if m.replyTo == "" then 2 else 3;
    assert hs[0] == Header("From", m.from) && hs[1] == Header("To", Join(m.to, ", "));
    assert hs[n] == Header("Subject", SubjectText(m.subject, encodeWord)) && hs[n + 1] == Header("Date", date);
    assert hs[n + 2] == Header("MIME-Version", "1.0");
    assert hs[n + 3] == Header("Content-Type", "text/plain; charset=\"utf-8\"");
    assert hs[n + 4] == Header("Content-Transfer-Encoding", "8bit");
  }

  lemma {:induction false} FieldOf(hs: seq<Header>, k: nat)
    requires DistinctNames(hs) && k < |hs|
    ensures Field(hs, hs[k].name) == Some(hs[k].value)
  {
    FieldAt(hs, k);
  }

  /** The recipients are read back from the To header by its commas. */
  lemma {:induction false} RecipientsReadBack(to: seq<string>)
    requires to != [] && forall a <- to :: ',' !in a
    ensures Split(Join(to, ", "), ',') == [to[0]] + Spaced(to[1..])
  {
    SplitCommaList(to);
  }

  lemma NamesOk()
    ensures forall v :: NameOk(Header("From", v)) && NameOk(Header("To", v)) && NameOk(Header("Reply-To", v))
    ensures forall v :: NameOk(Header("Subject", v)) && NameOk(Header("Date", v)) && NameOk(Header("MIME-Version", v))
    ensures forall v :: NameOk(Header("Content-Type", v)) && NameOk(Header("Content-Transfer-Encoding", v))
  {
  }

  lemma PlainSeparators()
    ensures OneLine(", ") && OneLine("1.0") && OneLine("text/plain; charset=\"utf-8\"") && OneLine("8bit")
  {
  }
}
