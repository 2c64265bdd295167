/** Body and attachment selection over the parts of a parsed message
    (`_get_body` and `_get_attachments`). Parsing the MIME tree, decoding
    payloads and charsets belong to the email library: a part is given
    with its headers and its payload already decoded. */
module Mime {
  import opened Text

  /** One part yielded by `msg.walk()`. */
  datatype Part = Part(
    contentType: string,       // get_content_type()
    disposition: string,       // str(get("Content-Disposition", ""))
    payload: Option<Bytes>,    // get_payload(decode=True)
    text: string,              // the payload decoded with the part's charset
    filename: Option<string>)  // get_filename(), header-decoded

  /** A parsed message: a single part, or the parts `walk()` yields in order. */
  datatype Content = Single(part: Part) | Multipart(walk: seq<Part>)

  datatype Attachment = Attachment(filename: string, contentType: string, size: nat, data: Option<Bytes>)

  const PLAIN := "text/plain"
  const HTML := "text/html"
  /** What the detail pane shows when a message has no body text. */
  const NO_CONTENT := "(無內容)"

  predicate MarkedAttachment(p: Part) { Contains(p.disposition, "attachment") }

  /** A part of a multipart message that `_get_body` decodes as type `ct`. */
  predicate BodyCandidate(p: Part, ct: string) {
    !MarkedAttachment(p) && p.payload.Some? && p.contentType == ct
  }

  /** The body of type `ct` that the walk in `_get_body` leaves behind:
      each candidate is taken while nothing non-empty has been taken yet. */
  function FirstBody(walk: seq<Part>, ct: string): string
  {
    if walk == [] then ""
    else
      var prev := FirstBody(walk[..|walk| - 1], ct);
      var p := walk[|walk| - 1];
      if prev == "" && BodyCandidate(p, ct) then p.text else prev
  }

  /** The first candidate with non-empty text wins; with none, the body is empty. */
  lemma {:induction false} FirstBodyIsFirstNonEmpty(walk: seq<Part>, ct: string)
    ensures FirstBody(walk, ct) == "" <==>
              forall k :: 0 <= k < |walk| && BodyCandidate(walk[k], ct) ==> walk[k].text == ""
    ensures FirstBody(walk, ct) != "" ==>
              exists j :: 0 <= j < |walk| && BodyCandidate(walk[j], ct) && walk[j].text == FirstBody(walk, ct)
                       && forall k :: 0 <= k < j && BodyCandidate(walk[k], ct) ==> walk[k].text == ""
  {
    if walk != [] {
      var init, p := walk[..|walk| - 1], walk[|walk| - 1];
      FirstBodyIsFirstNonEmpty(init, ct);
      assert forall k :: 0 <= k < |init| ==> init[k] == walk[k];
      if FirstBody(init, ct) != "" {
        var j :| 0 <= j < |init| && BodyCandidate(init[j], ct) && init[j].text == FirstBody(init, ct)
                 && forall k :: 0 <= k < j && BodyCandidate(init[k], ct) ==> init[k].text == "";
        assert walk[j] == init[j];
      } else if BodyCandidate(p, ct) && p.text != "" {
        assert walk[|walk| - 1] == p;
      }
    }
  }

  /** The text/plain body `_get_body` returns. */
  function TextBody(c: Content): string
  {
    match c
    case Single(p) =>
      if p.payload.Some? && p.payload.value != [] && p.contentType != HTML then p.text else ""
    case Multipart(walk) => FirstBody(walk, PLAIN)
  }

  /** The text/html body `_get_body` returns. */
  function HtmlBody(c: Content): string
  {
    match c
    case Single(p) =>
      if p.payload.Some? && p.payload.value != [] && p.contentType == HTML then p.text else ""
    case Multipart(walk) => FirstBody(walk, HTML)
  }

  /** A single-part message has only one body: never both a text and an HTML one. */
  lemma SingleHasOneBody(p: Part)
    ensures TextBody(Single(p)) == "" || HtmlBody(Single(p)) == ""
    ensures p.payload.Some? && p.payload.value != [] ==>
              (if p.contentType == HTML then HtmlBody(Single(p)) else TextBody(Single(p))) == p.text
  {
  }

  /** `_get_body(msg)`: the walk over the parts, keeping the first non-empty
      text/plain and text/html payloads that are not attachments. */
  method GetBody(c: Content) returns (text: string, html: string)
    ensures text == TextBody(c) && html == HtmlBody(c)
  {
    text, html := "", "";
    match c {
      case Single(p) =>
        if p.payload.Some? && p.payload.value != [] {
          if p.contentType == HTML { html := p.text; } else { text := p.text; }
        }
      case Multipart(walk) =>
        var i := 0;
        while i < |walk|
          invariant 0 <= i <= |walk|
          invariant text == FirstBody(walk[..i], PLAIN)
          invariant html == FirstBody(walk[..i], HTML)
        {
          var part := walk[i];
          assert walk[..i + 1][..i] == walk[..i];
          if !MarkedAttachment(part) && part.payload.Some? {
            if part.contentType == PLAIN && text == "" {
              text := part.text;
            } else if part.contentType == HTML && html == "" {
              html := part.text;
            }
          }
          i := i + 1;
        }
        assert walk[..i] == walk;
    }
  }

  /** Python's `get_content_maintype()`: the type before the first '/'. */
  function MainType(contentType: string): string
  {
    Split(contentType, '/')[0]
  }

  /** A part that `_get_attachments` lists. */
  predicate IsAttachment(p: Part) {
    (MarkedAttachment(p) || MainType(p.contentType) == "application")
    && p.filename.Some? && p.filename.value != ""
  }

  function AttachmentOf(p: Part): Attachment
    requires IsAttachment(p)
  {
    Attachment(p.filename.value, p.contentType,
               if p.payload.Some? then |p.payload.value| else 0, p.payload)
  }

  function AttachmentsOf(walk: seq<Part>): seq<Attachment>
  {
    if walk == [] then []
    else
      var p := walk[|walk| - 1];
      AttachmentsOf(walk[..|walk| - 1]) + (if IsAttachment(p) then [AttachmentOf(p)] else [])
  }

  /** The attachments `_get_attachments` returns: none for a single-part message. */
  function Attachments(c: Content): seq<Attachment>
  {
    match c
    case Single(_) => []
    case Multipart(walk) => AttachmentsOf(walk)
  }

  /** Exactly the qualifying parts are listed, each as itself, with its
      payload's length as size (0 without payload). */
  lemma {:induction false} AttachmentsAreQualifyingParts(walk: seq<Part>, a: Attachment)
    ensures a in AttachmentsOf(walk) <==>
              exists k :: 0 <= k < |walk| && IsAttachment(walk[k]) && a == AttachmentOf(walk[k])
    ensures a in AttachmentsOf(walk) ==> a.size == (if a.data.Some? then |a.data.value| else 0)
    ensures |AttachmentsOf(walk)| <= |walk|
  {
    if walk != [] {
      var init, p := walk[..|walk| - 1], walk[|walk| - 1];
      AttachmentsAreQualifyingParts(init, a);
      assert forall k :: 0 <= k < |init| ==> init[k] == walk[k];
      if a in AttachmentsOf(init) {
        var k :| 0 <= k < |init| && IsAttachment(init[k]) && a == AttachmentOf(init[k]);
        assert walk[k] == init[k];
      }
      if IsAttachment(p) && a == AttachmentOf(p) {
        assert walk[|walk| - 1] == p;
      }
    }
  }

  /** `_get_attachments(msg)`. */
  method GetAttachments(c: Content) returns (attachments: seq<Attachment>)
    ensures attachments == Attachments(c)
  {
    attachments := [];
    if c.Single? {
      return;
    }
    var walk := c.walk;
    var i := 0;
    while i < |walk|
      invariant 0 <= i <= |walk|
      invariant attachments == AttachmentsOf(walk[..i])
    {
      var part := walk[i];
      assert walk[..i + 1][..i] == walk[..i];
      if MarkedAttachment(part) || MainType(part.contentType) == "application" {
        var filename := part.filename;
        if filename.Some? && filename.value != "" {
          attachments := attachments + [AttachmentOf(part)];
        }
      }
      i := i + 1;
    }
    assert walk[..i] == walk;
  }

  /** `text_body or html_body or "(無內容)"`: what the detail pane shows. */
  function DisplayBody(c: Content): (shown: string)
    ensures shown != ""
    ensures TextBody(c) != "" ==> shown == TextBody(c)
    ensures TextBody(c) == "" && HtmlBody(c) != "" ==> shown == HtmlBody(c)
    ensures TextBody(c) == "" && HtmlBody(c) == "" ==> shown == NO_CONTENT
  {
    if TextBody(c) != "" then TextBody(c)
    else if HtmlBody(c) != "" then HtmlBody(c)
    else NO_CONTENT
  }
}
