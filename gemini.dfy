/**
 * The generation client (services/gemini.ts) without the SDK: the prompt it
 * builds, the request parts it sends, and how it reads the response. The SDK
 * call itself is an exchange: `GenerateImage` returns the request it would
 * send and takes the SDK's outcome (a response, or a thrown value) as input.
 */
module Gemini {
  import opened Wrappers
  import opened Types
  import opened Strings
  import Codec

  /** The three system prompts of prompts/index.ts, treated as opaque text. */
  datatype SystemPrompts = SystemPrompts(frontal: string, back: string, base: string) {
    function For(t: TabId): string {
      match t
      case Frontal => frontal
      case Back => back
      case Base => base
    }
  }

  /** What separates the system prompt from the user's request. */
  const RequestSeparator: string := "\n\nUser request: "

  /** `buildPrompt`: the view's system prompt, the separator, then the user's text. */
  function BuildPrompt(prompts: SystemPrompts, t: TabId, userPrompt: string): (r: string)
    ensures |r| == |prompts.For(t)| + |RequestSeparator| + |userPrompt|
    ensures r[..|prompts.For(t)|] == prompts.For(t)
    ensures r[|prompts.For(t)|..|prompts.For(t)| + |RequestSeparator|] == RequestSeparator
    ensures r[|r| - |userPrompt|..] == userPrompt
  {
    match t
    case Frontal => prompts.frontal + RequestSeparator + userPrompt
    case Back => prompts.back + RequestSeparator + userPrompt
    case Base => prompts.base + RequestSeparator + userPrompt
  }

  /** The user's request is recoverable from the prompt: different requests give different prompts. */
  lemma BuildPromptInjective(prompts: SystemPrompts, t: TabId, u1: string, u2: string)
    requires BuildPrompt(prompts, t, u1) == BuildPrompt(prompts, t, u2)
    ensures u1 == u2
  {
    var p := BuildPrompt(prompts, t, u1);
    assert u1 == p[|p| - |u1|..];
  }

  /** An inline binary part as the SDK takes it; `data` is absent when the data URL has no comma. */
  datatype InlineData = InlineData(mimeType: string, data: Option<string>)

  /** One part of the request. */
  datatype RequestPart = InlinePart(inlineData: InlineData) | TextPart(text: string)

  /** `dataUrlToBase64`: the header's MIME type (PNG by default) and the text after the first comma. */
  function DataUrlToBase64(dataUrl: string): (r: InlineData)
    ensures r.mimeType == Codec.MimeOf(Codec.SplitComma(dataUrl).header)
    ensures r.data == Codec.SplitComma(dataUrl).data
    ensures r.data.None? <==> ',' !in dataUrl
    ensures r.data.Some? ==> ',' !in r.data.value
  {
    var pieces := Codec.SplitComma(dataUrl);
    InlineData(Codec.MimeOf(pieces.header), pieces.data)
  }

  /** The data URL a response part becomes (gemini.ts line 82). */
  function ResponseDataUrl(mimeType: string, data: string): string {
    "data:" + mimeType + ";base64," + data
  }

  /** Taking the data URL of a returned image apart gives back its type and payload. */
  lemma DataUrlToBase64RoundTrip(mimeType: string, data: string)
    requires Codec.IsPlainMime(mimeType) && ',' !in data
    ensures DataUrlToBase64(ResponseDataUrl(mimeType, data)) == InlineData(mimeType, Some(data))
  {
    var header := "data:" + mimeType + ";base64";
    assert ResponseDataUrl(mimeType, data) == header + "," + data;
    Codec.SplitHeader(header, data);
    assert header[5 + |mimeType|] == ';';
    Codec.MimeBetween(header, 4, 5 + |mimeType|);
    assert header[5..5 + |mimeType|] == mimeType;
  }

  /** The reference image goes along only for the back view, and only when its URL is a non-empty string. */
  predicate SendsReference(t: TabId, referenceImageDataUrl: Option<string>) {
    t == Back && referenceImageDataUrl.Some? && referenceImageDataUrl.value != ""
  }

  /** The parts of a request: at most one inline reference image, then the prompt text, last. */
  predicate IsRequestParts(parts: seq<RequestPart>, prompts: SystemPrompts, t: TabId, userPrompt: string,
                           referenceImageDataUrl: Option<string>) {
    && |parts| == (if SendsReference(t, referenceImageDataUrl) then 2 else 1)
    && parts[|parts| - 1] == TextPart(BuildPrompt(prompts, t, userPrompt))
    && (SendsReference(t, referenceImageDataUrl) ==>
          parts[0] == InlinePart(DataUrlToBase64(referenceImageDataUrl.value)))
  }

  /** The `parts.push` sequence of `generateImage`. */
  method BuildParts(prompts: SystemPrompts, t: TabId, userPrompt: string, referenceImageDataUrl: Option<string>)
    returns (parts: seq<RequestPart>)
    ensures IsRequestParts(parts, prompts, t, userPrompt, referenceImageDataUrl)
    ensures forall i :: 0 <= i < |parts| - 1 ==> parts[i].InlinePart?
  {
    var promptText := BuildPrompt(prompts, t, userPrompt);
    parts := [];
    if t == Back && referenceImageDataUrl.Some? && referenceImageDataUrl.value != "" {
      var inline := DataUrlToBase64(referenceImageDataUrl.value);
      parts := parts + [InlinePart(inline)];
    }
    parts := parts + [TextPart(promptText)];
  }

  /** The model asked for, `"gemini-2.5-flash-image"` when none is given. */
  function RequestModel(modelName: Option<string>): (r: string)
    ensures modelName.None? ==> r == ModelName(DefaultModel)
    ensures modelName.Some? ==> r == modelName.value
  {
    modelName.GetOr("gemini-2.5-flash-image")
  }

  /** The response, reduced to what `generateImage` reads of it. */
  datatype ResponseData = ResponseData(mimeType: string, data: string)
  datatype ResponsePart = ResponsePart(text: Option<string>, inlineData: Option<ResponseData>)
  datatype Content = Content(parts: Option<seq<ResponsePart>>)
  datatype Candidate = Candidate(content: Option<Content>)
  datatype Response = Response(candidates: Option<seq<Candidate>>)

  /** `{success, dataUrl?, error?}`: an image's data URL, or an error text. */
  datatype GenerationResult = Success(dataUrl: string) | Failure(error: string)

  /** The parts of the first candidate's content, when the response has any. */
  function FirstCandidateParts(resp: Response): Option<seq<ResponsePart>> {
    if resp.candidates.None? || |resp.candidates.value| == 0 then None
    else if resp.candidates.value[0].content.None? then None
    else resp.candidates.value[0].content.value.parts
  }

  /** The index of the first part carrying image data. */
  function FirstImagePart(parts: seq<ResponsePart>): (r: Option<nat>)
    ensures r.None? <==> forall i :: 0 <= i < |parts| ==> parts[i].inlineData.None?
    ensures r.Some? ==> r.value < |parts| && parts[r.value].inlineData.Some?
    ensures r.Some? ==> forall i :: 0 <= i < r.value ==> parts[i].inlineData.None?
  {
    if parts == [] then None
    else if parts[0].inlineData.Some? then Some(0)
    else
      match FirstImagePart(parts[1..])
      case None => None
      case Some(i) => Some(i + 1)
  }

  /**
   * How a response is read: no candidates is "No response generated"; a first
   * candidate without parts is "No content in response" (an empty list of
   * parts is not "no parts"); otherwise the first image part, or "No image in
   * response" when there is none.
   */
  predicate IsSelection(resp: Response, r: GenerationResult) {
    if resp.candidates.None? || |resp.candidates.value| == 0 then
      r == Failure("No response generated")
    else if FirstCandidateParts(resp).None? then
      r == Failure("No content in response")
    else
      var parts := FirstCandidateParts(resp).value;
      match FirstImagePart(parts)
      case None => r == Failure("No image in response")
      case Some(k) =>
        r == Success(ResponseDataUrl(parts[k].inlineData.value.mimeType, parts[k].inlineData.value.data))
  }

  /** The candidate checks and the `for` loop over the parts, returning at the first image. */
  method ReadResponse(resp: Response) returns (r: GenerationResult)
    ensures IsSelection(resp, r)
  {
    var candidates := resp.candidates;
    if candidates.None? || |candidates.value| == 0 {
      return Failure("No response generated");
    }
    var content := candidates.value[0].content;
    if content.None? || content.value.parts.None? {
      return Failure("No content in response");
    }
    var responseParts := content.value.parts.value;
    for i := 0 to |responseParts|
      invariant forall j :: 0 <= j < i ==> responseParts[j].inlineData.None?
    {
      var part := responseParts[i];
      if part.inlineData.Some? {
        var inline := part.inlineData.value;
        assert FirstImagePart(responseParts) == Some(i);
        return Success(ResponseDataUrl(inline.mimeType, inline.data));
      }
    }
    return Failure("No image in response");
  }

  /** What the SDK may throw: an `Error` with a message, or any other value. */
  datatype Thrown = ErrorObject(message: string) | OtherValue

  /** The SDK's answer to one request. */
  datatype SdkOutcome = Returned(response: Response) | Threw(thrown: Thrown)

  /** The error text of a caught value. */
  function ThrownMessage(t: Thrown): string {
    match t
    case ErrorObject(m) => m
    case OtherValue => "Unknown error occurred"
  }

  /** The options `generateImage` takes. */
  datatype GenerateImageOptions = GenerateImageOptions(
    apiKey: string,
    generationType: TabId,
    userPrompt: string,
    referenceImageDataUrl: Option<string>,
    modelName: Option<string>)

  /** What is sent to the service: the credential, the model and the parts. */
  datatype Request = Request(apiKey: string, model: string, parts: seq<RequestPart>)

  /**
   * `generateImage`: the request it sends, and what it makes of the SDK's
   * outcome. A thrown value becomes a failure result; nothing propagates.
   */
  method GenerateImage(options: GenerateImageOptions, prompts: SystemPrompts, outcome: SdkOutcome)
    returns (request: Request, r: GenerationResult)
    ensures request.apiKey == options.apiKey
    ensures request.model == RequestModel(options.modelName)
    ensures IsRequestParts(request.parts, prompts, options.generationType, options.userPrompt,
                           options.referenceImageDataUrl)
    ensures outcome.Threw? ==> r == Failure(ThrownMessage(outcome.thrown))
    ensures outcome.Returned? ==> IsSelection(outcome.response, r)
  {
    var parts := BuildParts(prompts, options.generationType, options.userPrompt, options.referenceImageDataUrl);
    request := Request(options.apiKey, RequestModel(options.modelName), parts);
    match outcome
    case Threw(thrown) =>
      r := Failure(ThrownMessage(thrown));
    case Returned(response) =>
      r := ReadResponse(response);
  }

  /** The reading of a response is determined by the response. */
  lemma SelectionIsUnique(resp: Response, r1: GenerationResult, r2: GenerationResult)
    requires IsSelection(resp, r1) && IsSelection(resp, r2)
    ensures r1 == r2
  {
  }

  /** A successful result is a data URL whose type and payload `dataUrlToBase64` recovers. */
  lemma SuccessCarriesImage(resp: Response, r: GenerationResult)
    requires IsSelection(resp, r) && r.Success?
    ensures exists m, d :: r.dataUrl == ResponseDataUrl(m, d)
  {
    var parts := FirstCandidateParts(resp).value;
    var k := FirstImagePart(parts).value;
    var inline := parts[k].inlineData.value;
    assert r.dataUrl == ResponseDataUrl(inline.mimeType, inline.data);
  }
}
