/**
  The error texts the prompt generator shows, and the fact that none of them carries one of
  the service's error markers.
 */
module GeminiMessages {

  // Each text is written as its word groups, so that the lemmas below can check it group by group.
  const EmptyReplyMessage :=
    "Gemini API'den" + " boş yanıt" + " alındı."
  const MissingKeyMessage :=
    "Gemini API" + " anahtarı" + " bulunamadı." + " Lütfen .env" + " dosyasını" + " kontrol edin."
  const ImageReadMessage :=
    "Görsel" + " işlenirken bir" + " hata oluştu."
  const InvalidKeyMessage :=
    "Gemini API" + " anahtarı" + " geçersiz." + " Lütfen .env" + " dosyasını" + " kontrol edin."
  const QuotaMessage :=
    "Gemini API" + " kotası aşıldı." + " Lütfen daha" + " sonra tekrar" + " deneyin."
  const SafetyMessage :=
    "Görsel içerik" + " güvenlik" + " politikalarına" + " uymuyor." + " Lütfen farklı" + " bir görsel" + " deneyin."
  const DefaultErrorMessage :=
    "Prompt" + " üretilirken" + " bir hata" + " oluştu. Lütfen" + " tekrar" + " deneyin."

  /** A message lacking `_`, `Q` and `S`: it can contain none of the three markers. */
  predicate KeyCharFree(m: string) {
    '_' !in m && 'Q' !in m && 'S' !in m
  }

  // Each error text lacks the markers' key characters.

  lemma EmptyReplyMessageKeyCharFree()
    ensures KeyCharFree(EmptyReplyMessage)
  {
    assert KeyCharFree("Gemini API'den");
    assert KeyCharFree(" boş yanıt");
    assert KeyCharFree(" alındı.");
  }

  lemma MissingKeyMessageKeyCharFree()
    ensures KeyCharFree(MissingKeyMessage)
  {
    assert KeyCharFree("Gemini API");
    assert KeyCharFree(" anahtarı");
    assert KeyCharFree(" bulunamadı.");
    assert KeyCharFree(" Lütfen .env");
    assert KeyCharFree(" dosyasını");
    assert KeyCharFree(" kontrol edin.");
  }

  lemma ImageReadMessageKeyCharFree()
    ensures KeyCharFree(ImageReadMessage)
  {
    assert KeyCharFree("Görsel");
    assert KeyCharFree(" işlenirken bir");
    assert KeyCharFree(" hata oluştu.");
  }

  lemma InvalidKeyMessageKeyCharFree()
    ensures KeyCharFree(InvalidKeyMessage)
  {
    assert KeyCharFree("Gemini API");
    assert KeyCharFree(" anahtarı");
    assert KeyCharFree(" geçersiz.");
    assert KeyCharFree(" Lütfen .env");
    assert KeyCharFree(" dosyasını");
    assert KeyCharFree(" kontrol edin.");
  }

  lemma QuotaMessageKeyCharFree()
    ensures KeyCharFree(QuotaMessage)
  {
    assert KeyCharFree("Gemini API");
    assert KeyCharFree(" kotası aşıldı.");
    assert KeyCharFree(" Lütfen daha");
    assert KeyCharFree(" sonra tekrar");
    assert KeyCharFree(" deneyin.");
  }

  lemma SafetyMessageKeyCharFree()
    ensures KeyCharFree(SafetyMessage)
  {
    assert KeyCharFree("Görsel içerik");
    assert KeyCharFree(" güvenlik");
    assert KeyCharFree(" politikalarına");
    assert KeyCharFree(" uymuyor.");
    assert KeyCharFree(" Lütfen farklı");
    assert KeyCharFree(" bir görsel");
    assert KeyCharFree(" deneyin.");
  }

  lemma DefaultErrorMessageKeyCharFree()
    ensures KeyCharFree(DefaultErrorMessage)
  {
    assert KeyCharFree("Prompt");
    assert KeyCharFree(" üretilirken");
    assert KeyCharFree(" bir hata");
    assert KeyCharFree(" oluştu. Lütfen");
    assert KeyCharFree(" tekrar");
    assert KeyCharFree(" deneyin.");
  }
}

/**
  The string handling around the prompt-generation request: choosing the image's MIME type
  from its file name, cutting the base64 payload out of a data URL (RFC 2397), composing the
  user's message, rejecting an empty reply, and turning thrown errors into the messages the
  user sees. The network call, the file reader and the generative model are outside the
  model; what they return is a parameter.
 */
module Gemini {
  import opened Wrappers
  import opened Text
  import opened GeminiMessages

  const JpegType := "image/jpeg"
  const PngType := "image/png"
  const GifType := "image/gif"
  const WebpType := "image/webp"

  /** `split('.').pop()`: the part of a file name or URI after its last `.`, or the whole
      text when it has none. */
  function Extension(uri: string): (e: string)
    ensures '.' !in e
    ensures |e| <= |uri| && e == uri[|uri| - |e|..]
    ensures |e| < |uri| ==> uri[|uri| - |e| - 1] == '.'
  {
    var parts := Split(uri, '.');
    LastPiece(uri, '.');
    parts[|parts| - 1]
  }

  /** The three facts `Extension` ensures single out its result: any dot-free tail of the URI
      that is either all of it or preceded by a `.` is the extension. */
  lemma ExtensionUnique(uri: string, e: string)
    requires '.' !in e && |e| <= |uri| && e == uri[|uri| - |e|..]
    requires |e| < |uri| ==> uri[|uri| - |e| - 1] == '.'
    ensures Extension(uri) == e
  {
  }

  /** The MIME type for an already lower-cased extension; anything unknown is taken for JPEG. */
  function MimeForExtension(e: string): (m: string)
    ensures m == PngType <==> e == "png"
    ensures m == GifType <==> e == "gif"
    ensures m == WebpType <==> e == "webp"
    ensures m == JpegType <==> e != "png" && e != "gif" && e != "webp"
  {
    match e
    case "jpg" => JpegType
    case "jpeg" => JpegType
    case "png" => PngType
    case "gif" => GifType
    case "webp" => WebpType
    case _ => JpegType
  }

  /** The MIME type sent with the image: decided by the lower-cased last `.`-separated piece of
      the URI, and always one of the four image types. */
  function MimeType(uri: string): (m: string)
    ensures m == JpegType || m == PngType || m == GifType || m == WebpType
  {
    MimeForExtension(Lower(Extension(uri)))
  }

  /** For a name `p.e` whose extension `e` has no `.`, the type depends on `e` alone. */
  lemma MimeOfDottedName(p: string, e: string)
    requires '.' !in e
    ensures MimeType(p + ['.'] + e) == MimeForExtension(Lower(e))
  {
    SplitLast(p, '.', e);
  }

  /** A URI with no `.` at all is its own extension. */
  lemma MimeOfUndottedName(uri: string)
    requires '.' !in uri
    ensures MimeType(uri) == MimeForExtension(Lower(uri))
  {
  }

  /** The choice ignores letter case: names differing only in the case of their extension get
      the same type. */
  lemma MimeIgnoresCase(p: string, e1: string, e2: string)
    requires '.' !in e1 && '.' !in e2 && Lower(e1) == Lower(e2)
    ensures MimeType(p + ['.'] + e1) == MimeType(p + ['.'] + e2)
  {
    MimeOfDottedName(p, e1);
    MimeOfDottedName(p, e2);
  }

  /** Lower-casing the whole URI never changes the type. */
  lemma MimeOfLowered(uri: string)
    ensures MimeType(Lower(uri)) == MimeType(uri)
  {
    ExtensionOfLowered(uri);
    LowerIdempotent(Extension(uri));
  }

  /** Lower-casing commutes with taking the extension, since it never creates or removes a `.`. */
  lemma {:induction false} ExtensionOfLowered(s: string)
    ensures Extension(Lower(s)) == Lower(Extension(s))
    decreases |s|
  {
    if '.' in s {
      var i := IndexOf(s, '.');
      var a, b := s[..i], s[i + 1..];
      assert s == a + ['.'] + b;
      LowerConcat(a + ['.'], b);
      LowerConcat(a, ['.']);
      assert Lower(['.']) == ['.'];
      LowerNoDot(a);
      ExtensionAfterDot(a, b);
      ExtensionAfterDot(Lower(a), Lower(b));
      ExtensionOfLowered(b);
    } else {
      LowerNoDot(s);
    }
  }

  /** Everything up to and including the first `.` has no say in the extension. */
  lemma ExtensionAfterDot(a: string, b: string)
    requires '.' !in a
    ensures Extension(a + ['.'] + b) == Extension(b)
  {
    var parts, tail := Split(a + ['.'] + b, '.'), Split(b, '.');
    SplitFirst(a, '.', b);
    assert parts == [a] + tail;
    assert parts[|parts| - 1] == tail[|tail| - 1];
  }

  /** Lower-casing never produces a `.`. */
  lemma LowerNoDot(s: string)
    requires '.' !in s
    ensures '.' !in Lower(s)
  {
    forall t | 0 <= t < |s| ensures Lower(s)[t] != '.' {
      assert s[t] != '.';
    }
  }

  /** `dataUrl.split(',')[1] || dataUrl`: the text between the first and the second comma
      when that text is non-empty, and otherwise the whole input. */
  function Base64Payload(dataUrl: string): (r: string)
    ensures r == dataUrl || (r != [] && ',' !in r)
    ensures ',' !in dataUrl ==> r == dataUrl
  {
    var parts := Split(dataUrl, ',');
    if |parts| > 1 && parts[1] != [] then parts[1] else dataUrl
  }

  /** The payload of a data URL `data:<type>;base64,<payload>` is returned exactly, provided
      the media type has no comma and the payload is non-empty base64 (which has no comma). */
  lemma DataUrlPayload(mediaType: string, payload: string)
    requires ',' !in mediaType && ',' !in payload && payload != []
    ensures Base64Payload("data:" + mediaType + ";base64," + payload) == payload
  {
    var head := "data:" + mediaType + ";base64";
    assert ',' !in head;
    assert "data:" + mediaType + ";base64," + payload == head + [','] + payload;
    SplitTwo(head, ',', payload);
  }

  /** The general rule: for a comma-free head `a` and a comma-free field `b` after the first
      comma, followed by nothing or by a further comma and anything, the result is `b` when it
      is non-empty and the whole input otherwise. */
  lemma PayloadIsSecondField(a: string, b: string, c: string)
    requires ',' !in a && ',' !in b
    requires c == [] || c[0] == ','
    ensures var s := a + [','] + b + c;
      Base64Payload(s) == if b != [] then b else s
  {
    if c == [] {
      assert a + [','] + b + c == a + [','] + b;
      SplitTwo(a, ',', b);
    } else {
      var rest := c[1..];
      assert c == [','] + rest;
      SecondFieldOf(a, b, rest);
    }
  }

  /** With a second comma, the pieces are the head, the field and whatever `split` makes of
      the rest. */
  lemma SecondFieldOf(a: string, b: string, rest: string)
    requires ',' !in a && ',' !in b
    ensures Split(a + [','] + b + ([','] + rest), ',') == [a, b] + Split(rest, ',')
  {
    Regroup(a + [','], b, [','] + rest);
    SplitFirst(a, ',', b + ([','] + rest));
    Regroup(b, [','], rest);
    SplitFirst(b, ',', rest);
    assert [a] + ([b] + Split(rest, ',')) == [a, b] + Split(rest, ',');
  }

  /** An empty field after the first comma falls back to the whole input. */
  lemma EmptyPayloadFallsBack(head: string, rest: string)
    requires ',' !in head
    ensures Base64Payload(head + [','] + [','] + rest) == head + [','] + [','] + rest
  {
    PayloadIsSecondField(head, [], [','] + rest);
    assert head + [','] + [] + ([','] + rest) == head + [','] + [','] + rest;
  }

  const BaseUserMessage := "Bu görseli analiz et ve yukarıdaki kriterlere uygun bir prompt metni üret."
  const DescriptionLabel := "\n\nKullanıcı açıklaması: "

  /** The user's message: the fixed request, followed by the trimmed description when one was
      given and is not blank. */
  function UserMessage(description: Option<string>): (m: string)
    ensures BaseUserMessage <= m
    ensures description.None? ==> m == BaseUserMessage
    ensures description.Some? && AllSpace(description.value) ==> m == BaseUserMessage
  {
    match description
    case Some(d) =>
      TrimEmptyIffAllSpace(d);
      if Trim(d) != [] then BaseUserMessage + DescriptionLabel + Trim(d) else BaseUserMessage
    case None => BaseUserMessage
  }

  /** Reads the description back out of a user message: what follows the label, if anything. */
  function DescriptionIn(m: string): Option<string> {
    var head := BaseUserMessage + DescriptionLabel;
    if |m| > |head| && m[..|head|] == head then Some(m[|head|..]) else None
  }

  /** The message carries the description exactly when one was given and is not blank, and
      then it carries its trimmed text. */
  lemma UserMessageRoundTrip(description: Option<string>)
    ensures DescriptionIn(UserMessage(description)) ==
      if description.Some? && !AllSpace(description.value) then Some(Trim(description.value)) else None
  {
    if description.Some? {
      TrimEmptyIffAllSpace(description.value);
      var t := Trim(description.value);
      if t != [] {
        PrefixSplits(BaseUserMessage + DescriptionLabel, t);
      }
    }
  }

  /** A reply is accepted when it is not blank, and then it is returned trimmed. */
  function CheckReply(text: string): (r: Result<string, string>)
    ensures r.Failure? <==> AllSpace(text)
    ensures r.Failure? ==> r.error == EmptyReplyMessage
    ensures r.Success? ==> r.value != [] && Trimmed(r.value) && r.value == Trim(text)
  {
    TrimEmptyIffAllSpace(text);
    var t := Trim(text);
    if t == [] then Failure(EmptyReplyMessage) else Success(t)
  }

  /** A message carrying one of the service's error markers. */
  predicate HasMarker(m: string) {
    Contains(m, "API_KEY") || Contains(m, "QUOTA") || Contains(m, "SAFETY")
  }

  /** The message of an error caught around the request, by priority: an invalid key, an
      exhausted quota, a safety rejection, else the error's own message, or a default text when
      it has none. */
  function ClassifyError(message: Option<string>): (r: string)
    ensures r != []
    ensures message.Some? && Contains(message.value, "API_KEY") ==> r == InvalidKeyMessage
    ensures message.Some? && !Contains(message.value, "API_KEY") && Contains(message.value, "QUOTA")
      ==> r == QuotaMessage
    ensures (message.Some? && !Contains(message.value, "API_KEY") && !Contains(message.value, "QUOTA")
             && Contains(message.value, "SAFETY")) ==> r == SafetyMessage
    ensures message.Some? && !HasMarker(message.value) && message.value != [] ==> r == message.value
    ensures message.None? || message.value == [] ==> r == DefaultErrorMessage
  {
    match message
    case None => DefaultErrorMessage
    case Some(m) =>
      if Contains(m, "API_KEY") then InvalidKeyMessage
      else if Contains(m, "QUOTA") then QuotaMessage
      else if Contains(m, "SAFETY") then SafetyMessage
      else if m != [] then m
      else DefaultErrorMessage
  }

  /** A message lacking `_`, `Q` and `S` carries no marker. */
  lemma NoMarkerWithoutKeyChars(m: string)
    requires KeyCharFree(m)
    ensures !HasMarker(m)
  {
    if Contains(m, "API_KEY") {
      ContainsChars(m, "API_KEY", 3);
    }
    if Contains(m, "QUOTA") {
      ContainsChars(m, "QUOTA", 0);
    }
    if Contains(m, "SAFETY") {
      ContainsChars(m, "SAFETY", 0);
    }
  }

  /** None of the app's own error texts carries a marker. */
  lemma FixedMessagesUnmarked()
    ensures !HasMarker(EmptyReplyMessage) && !HasMarker(MissingKeyMessage)
    ensures !HasMarker(ImageReadMessage) && !HasMarker(InvalidKeyMessage)
    ensures !HasMarker(QuotaMessage) && !HasMarker(SafetyMessage)
    ensures !HasMarker(DefaultErrorMessage)
  {
    EmptyReplyMessageKeyCharFree();
    MissingKeyMessageKeyCharFree();
    ImageReadMessageKeyCharFree();
    InvalidKeyMessageKeyCharFree();
    QuotaMessageKeyCharFree();
    SafetyMessageKeyCharFree();
    DefaultErrorMessageKeyCharFree();
    NoMarkerWithoutKeyChars(EmptyReplyMessage);
    NoMarkerWithoutKeyChars(MissingKeyMessage);
    NoMarkerWithoutKeyChars(ImageReadMessage);
    NoMarkerWithoutKeyChars(InvalidKeyMessage);
    NoMarkerWithoutKeyChars(QuotaMessage);
    NoMarkerWithoutKeyChars(SafetyMessage);
    NoMarkerWithoutKeyChars(DefaultErrorMessage);
  }

  /** What the handler surfaces never carries a marker, and handling it a second time changes
      nothing: a classified error re-thrown through the same handler keeps its message. */
  lemma ClassifyIdempotent(message: Option<string>)
    ensures !HasMarker(ClassifyError(message))
    ensures ClassifyError(Some(ClassifyError(message))) == ClassifyError(message)
  {
    FixedMessagesUnmarked();
  }

  /** The request sent to the model: the image payload, its MIME type and the user's text. */
  datatype Request = Request(data: string, mimeType: string, text: string)

  /** What the model call produced: a text, or a thrown error with an optional message. */
  datatype Reply = Text(text: string) | Threw(message: Option<string>)

  /** One call of the prompt generator: whether a request went out, and what the caller gets. */
  datatype Generation = Generation(request: Option<Request>, result: Result<string, string>)

  /** What reading the image gave: the data URL the file reader produced; a failed fetch or
      blob read of the file, which the converter catches and re-throws with its own text; or a failed file
      reader, whose rejection is returned from the converter without being awaited, so it
      escapes the converter's handler and reaches the generator's as an event with no
      message. */
  datatype ImageRead = Read(dataUrl: string) | FetchFailed | ReaderFailed

  /** The generator: no request without an API key or when the image cannot be read;
      otherwise the request built from the image and the description, and the reply checked.
      Every error thrown inside, including the generator's own, passes through the same
      classification. */
  function GeneratePrompt(hasKey: bool, uri: string, image: ImageRead, description: Option<string>, reply: Reply): (g: Generation)
    ensures g.request.Some? <==> hasKey && image.Read?
    ensures g.request.Some? ==>
      && g.request.value.mimeType == MimeType(uri)
      && g.request.value.data == Base64Payload(image.dataUrl)
      && g.request.value.text == UserMessage(description)
    ensures !hasKey ==> g.result == Failure(MissingKeyMessage)
    ensures hasKey && image.FetchFailed? ==> g.result == Failure(ImageReadMessage)
    ensures hasKey && image.ReaderFailed? ==> g.result == Failure(DefaultErrorMessage)
    ensures g.result.Success? <==> g.request.Some? && reply.Text? && !AllSpace(reply.text)
    ensures g.result.Success? ==> g.result.value == Trim(reply.text) && g.result.value != [] && Trimmed(g.result.value)
    ensures g.request.Some? && reply.Text? && AllSpace(reply.text) ==> g.result == Failure(EmptyReplyMessage)
    ensures g.request.Some? && reply.Threw? ==> g.result == Failure(ClassifyError(reply.message))
    ensures g.result.Failure? ==> g.result.error != [] && !HasMarker(g.result.error)
  {
    FixedMessagesUnmarked();
    if !hasKey then Generation(None, Failure(ClassifyError(Some(MissingKeyMessage))))
    else if image.FetchFailed? then Generation(None, Failure(ClassifyError(Some(ImageReadMessage))))
    else if image.ReaderFailed? then Generation(None, Failure(ClassifyError(None)))
    else
      var request := Request(Base64Payload(image.dataUrl), MimeType(uri), UserMessage(description));
      match reply
      case Threw(m) =>
        ClassifyIdempotent(m);
        Generation(Some(request), Failure(ClassifyError(m)))
      case Text(t) =>
        match CheckReply(t)
        case Success(v) => Generation(Some(request), Success(v))
        case Failure(e) => Generation(Some(request), Failure(ClassifyError(Some(e))))
  }
}
