/** The content extractor: turns a message's content into the payload of a
    converted message, and writes the payload's content type into the
    headers the header mapper produced. */
module ContentExtraction {
  import opened MailTypes

  /** The header the header mapper fills with the mail's own content type
      (`MailHeaders.CONTENT_TYPE`). */
  const MailContentType := "mail_contentType"
  /** The header that carries the payload's content type
      (`MessageHeaders.CONTENT_TYPE`). */
  const ContentTypeHeader := "contentType"
  const TextPlain := "text/plain"
  const OctetStream := "application/octet-stream"

  function LowerAscii(c: char): char {
    if 'A' <= c <= 'Z' then (c as int + 32) as char else c
  }

  function ToLower(s: string): string {
    seq(|s|, i requires 0 <= i < |s| => LowerAscii(s[i]))
  }

  /** `ct.toLowerCase().startsWith("text")` */
  predicate IsTextType(ct: string) {
    var lower := ToLower(ct);
    |lower| >= 4 && lower[..4] == "text"
  }

  /** The content type written for textual content: the mail's own when it is
      a textual one, "text/plain" otherwise (also when there is none). */
  function TextContentType(mailType: Option<string>): string {
    if mailType.Some? && IsTextType(mailType.value) then mailType.value else TextPlain
  }

  /** Headers that agree with `headers` everywhere except, possibly, on the
      content type header. */
  ghost predicate OnlyContentTypeWritten(headers: Headers, written: Headers) {
    && written.Keys <= headers.Keys + {ContentTypeHeader}
    && forall k :: k in headers && k != ContentTypeHeader ==> k in written && written[k] == headers[k]
  }

  /** Buffered bytes become the payload, typed as an octet stream. */
  function ByteArrayToContent(headers: Headers, data: seq<Byte>): (r: (Payload, Headers))
    ensures r.0 == Bytes(data)
    ensures OnlyContentTypeWritten(headers, r.1)
    ensures ContentTypeHeader in r.1 && r.1[ContentTypeHeader] == Str(OctetStream)
  {
    (Bytes(data), headers[ContentTypeHeader := Str(OctetStream)])
  }

  /** `extractContent`: the payload for `message` and the headers after the
      content type is written. Every exception on the way (the content cannot
      be read, the mail content type header is not a String, a stream or a
      part cannot be written out) becomes one error naming the message. */
  function ExtractContent(message: MimeMessage, headers: Headers, embeddedPartsAsBytes: bool): (r: Result<(Payload, Headers)>)
    ensures r.Failure? ==> r.error == ExtractionFailed(message.id)
    ensures r.Success? ==> OnlyContentTypeWritten(headers, r.value.1)
    ensures r.Success? && r.value.0.AsIs? ==> r.value.0.content == message.content
  {
    var content := message.content;
    match content
    case Unavailable => Failure(ExtractionFailed(message.id))
    case Text(_) =>
      if MailContentType in headers && headers[MailContentType].NonString? then
        Failure(ExtractionFailed(message.id))
      else
        var mailType := if MailContentType in headers then Some(headers[MailContentType].s) else None;
        Success((AsIs(content), headers[ContentTypeHeader := Str(TextContentType(mailType))]))
    case Stream(data) =>
      if data.None? then Failure(ExtractionFailed(message.id))
      else Success(ByteArrayToContent(headers, data.value))
    case Multipart(part) =>
      if !embeddedPartsAsBytes then Success((AsIs(content), headers))
      else if part.wire.None? then Failure(ExtractionFailed(message.id))
      else Success(ByteArrayToContent(headers, part.wire.value))
    case NestedPart(part) =>
      if !embeddedPartsAsBytes then Success((AsIs(content), headers))
      else if part.wire.None? then Failure(ExtractionFailed(message.id))
      else Success(ByteArrayToContent(headers, part.wire.value))
    case Other(_) => Success((AsIs(content), headers))
  }

  lemma TextPlainIsText()
    ensures IsTextType(TextPlain)
  {
    assert ToLower(TextPlain)[..4] == "text";
  }

  /** Textual content is passed through unchanged, and the content type
      written is the mail's own when that is textual, "text/plain" otherwise;
      either way it is a textual content type, and the mail's own content
      type header is kept as it was. */
  lemma TextContent(message: MimeMessage, headers: Headers, embeddedPartsAsBytes: bool)
    requires message.content.Text?
    requires MailContentType in headers ==> headers[MailContentType].Str?
    ensures var r := ExtractContent(message, headers, embeddedPartsAsBytes);
      var mailType := if MailContentType in headers then Some(headers[MailContentType].s) else None;
      && r.Success?
      && r.value.0 == AsIs(Text(message.content.text))
      && ContentTypeHeader in r.value.1
      && r.value.1[ContentTypeHeader] == Str(TextContentType(mailType))
      && (mailType.Some? && IsTextType(mailType.value) ==> TextContentType(mailType) == mailType.value)
      && (mailType.None? || !IsTextType(mailType.value) ==> TextContentType(mailType) == TextPlain)
      && IsTextType(TextContentType(mailType))
      && (MailContentType in headers ==> MailContentType in r.value.1 && r.value.1[MailContentType] == headers[MailContentType])
  {
    TextPlainIsText();
  }

  /** Streams, and parts when they are to be rendered as bytes, become their
      bytes typed "application/octet-stream"; reading or writing them out
      failing is the only way this fails. */
  lemma BytesContent(message: MimeMessage, headers: Headers, embeddedPartsAsBytes: bool)
    requires message.content.Stream? || (embeddedPartsAsBytes && (message.content.Multipart? || message.content.NestedPart?))
    ensures var r := ExtractContent(message, headers, embeddedPartsAsBytes);
      var bytes := if message.content.Stream? then message.content.data else message.content.part.wire;
      && (r.Success? <==> bytes.Some?)
      && (r.Success? ==> r.value.0 == Bytes(bytes.value) && r.value.1 == headers[ContentTypeHeader := Str(OctetStream)])
  {
  }

  /** Parts that are not to be rendered as bytes, and any other object, are
      passed through as they are, and no header is written. */
  lemma PassThroughContent(message: MimeMessage, headers: Headers, embeddedPartsAsBytes: bool)
    requires message.content.Other? || (!embeddedPartsAsBytes && (message.content.Multipart? || message.content.NestedPart?))
    ensures ExtractContent(message, headers, embeddedPartsAsBytes) == Success((AsIs(message.content), headers))
  {
  }

  /** Exactly these inputs make the extraction fail. */
  lemma ExtractionFailure(message: MimeMessage, headers: Headers, embeddedPartsAsBytes: bool)
    ensures ExtractContent(message, headers, embeddedPartsAsBytes).Failure? <==>
      match message.content
      case Unavailable => true
      case Text(_) => MailContentType in headers && headers[MailContentType].NonString?
      case Stream(data) => data.None?
      case Multipart(part) => embeddedPartsAsBytes && part.wire.None?
      case NestedPart(part) => embeddedPartsAsBytes && part.wire.None?
      case Other(_) => false
  {
  }
}
