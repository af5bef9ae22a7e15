/** core/smtp/parse.go: which part of a multipart message becomes the body. Parts arrive
    with their media type already parsed; an unreadable part has no content. */
module SmtpParse {
  import opened Wrappers
  import opened Text

  datatype Part = Part(mediaType: string, content: Option<string>)

  predicate IsPlain(p: Part) {
    p.mediaType == "" || HasPrefix(p.mediaType, "text/plain")
  }

  /** The content of the first text part, if there is one and it can be read. */
  function PlainText(parts: seq<Part>): Option<string> {
    if parts == [] then None
    else if IsPlain(parts[0]) then parts[0].content
    else PlainText(parts[1..])
  }

  /** Reads parts until the first text/plain one, whose content (or failure to be read)
      decides; if none comes before the end, or before the reader fails, there is no body. */
  method ReadPlainTextFromMultipart(parts: seq<Part>) returns (body: Option<string>)
    ensures body == PlainText(parts)
  {
    var i := 0;
    while i < |parts|
      invariant 0 <= i <= |parts|
      invariant PlainText(parts) == PlainText(parts[i..])
    {
      if IsPlain(parts[i]) {
        return parts[i].content;
      }
      i := i + 1;
    }
    body := None;
  }

  /** Parts of another type are passed over, and the first one that is plain text, with any
      parameters, or says nothing of its type, decides whatever comes after. */
  lemma {:induction false} FirstTextDecides(before: seq<Part>, p: Part, after: seq<Part>)
    requires forall q <- before :: q.mediaType != "" && !("text/plain" <= q.mediaType)
    requires p.mediaType == "" || "text/plain" <= p.mediaType
    ensures PlainText(before + [p] + after) == p.content
  {
    if before != [] {
      FirstTextDecides(before[1..], p, after);
      assert before[0] in before && (before + [p] + after)[1..] == before[1..] + [p] + after;
    }
  }

  lemma {:induction false} NoTextNoBody(parts: seq<Part>)
    requires forall q <- parts :: q.mediaType != "" && !("text/plain" <= q.mediaType)
    ensures PlainText(parts) == None
  {
    if parts != [] {
      assert parts[0] in parts;
      NoTextNoBody(parts[1..]);
    }
  }
}
