/** The tail of `analyzeScreenshot`: clean the model's reply, parse it, check
    it against the schema, and fall back to no appointments on any failure.
    `JSON.parse` is the parameter `parse`: `None` stands for a thrown
    `SyntaxError`. */
module Analysis {
  import opened Wrappers
  import opened Extraction
  import opened Schema

  /** What the chat-completion call produced: it threw, or it returned a
      message whose content is text or null. */
  datatype ModelReply = CallFailed | Replied(content: Option<string>)

  /** `extractJSON`, `JSON.parse`, `AnalysisSchema.safeParse`, then the
      validated array or `[]`. */
  function ValidateReply(parse: string -> Option<JsonValue>, text: string): (r: seq<Appointment>)
    ensures forall i :: 0 <= i < |r| ==> WellFormed(r[i])
    ensures parse(ExtractJson(text)).None? ==> r == []
    ensures var p := parse(ExtractJson(text));
      p.Some? && !p.value.Arr? ==> r == []
    ensures var p := parse(ExtractJson(text));
      p.Some? && p.value.Arr? && (exists i :: 0 <= i < |p.value.items| && ValidateAppointment(p.value.items[i]).None?)
      ==> r == []
    ensures var p := parse(ExtractJson(text));
      p.Some? && p.value.Arr? && (forall i :: 0 <= i < |p.value.items| ==> ValidateAppointment(p.value.items[i]).Some?)
      ==> |r| == |p.value.items| && forall i :: 0 <= i < |r| ==> Describes(p.value.items[i], r[i])
  {
    var jsonText := ExtractJson(text);
    match parse(jsonText)
    case None => []
    case Some(rawData) => ValidateAnalysis(rawData).GetOr([])
  }

  /** The result is never a filtered subset: it is empty, or it stands for
      every element of the parsed array, in order. */
  lemma WholeBatchOrNothing(parse: string -> Option<JsonValue>, text: string)
    ensures var r := ValidateReply(parse, text);
      || r == []
      || (&& parse(ExtractJson(text)).Some?
          && parse(ExtractJson(text)).value.Arr?
          && |r| == |parse(ExtractJson(text)).value.items|
          && forall i :: 0 <= i < |r| ==> Describes(parse(ExtractJson(text)).value.items[i], r[i]))
  {
  }

  /** `analyzeScreenshot` of utils/analysisUtils.js: everything, the model
      call included, is inside one `try`, so every failure yields `[]`. A
      null content makes `extractJSON` throw. */
  function AnalyzeScreenshot(reply: ModelReply, parse: string -> Option<JsonValue>): (r: seq<Appointment>)
    ensures reply.CallFailed? ==> r == []
    ensures reply == Replied(None) ==> r == []
    ensures reply.Replied? && reply.content.Some? ==> r == ValidateReply(parse, reply.content.value)
    ensures forall i :: 0 <= i < |r| ==> WellFormed(r[i])
  {
    match reply
    case CallFailed => []
    case Replied(None) => []
    case Replied(Some(text)) => ValidateReply(parse, text)
  }

  /** `analyzeScreenshot` of script.js: the model call is outside the `try`,
      so its failure propagates (`None`); a null content is caught and
      yields `[]`. */
  function AnalyzeScreenshotScript(reply: ModelReply, parse: string -> Option<JsonValue>): (r: Option<seq<Appointment>>)
    ensures r.None? <==> reply.CallFailed?
    ensures r.Some? ==> r.value == AnalyzeScreenshot(reply, parse)
  {
    match reply
    case CallFailed => None
    case Replied(None) => Some([])
    case Replied(Some(text)) => Some(ValidateReply(parse, text))
  }

  /** The empty array, wherever the reply puts it, gives no appointments. */
  lemma EmptyArrayReply(parse: string -> Option<JsonValue>, text: string)
    requires parse(ExtractJson(text)) == Some(Arr([]))
    ensures ValidateReply(parse, text) == []
  {
  }

  /** A one-element array describing a well-formed record yields exactly
      that record. */
  lemma SingleRecordReply(parse: string -> Option<JsonValue>, text: string, a: Appointment)
    requires WellFormed(a)
    requires parse(ExtractJson(text)) == Some(Arr([ToJson(a)]))
    ensures ValidateReply(parse, text) == [a]
  {
    ValidateToJson(a);
  }

  /** A reply and its markdown-fenced form are analysed alike. */
  lemma FencedReplyAnalysedAlike(parse: string -> Option<JsonValue>, s: string)
    requires !HasFence(s)
    ensures ValidateReply(parse, JsonFence + "\n" + s + "\n" + Fence) == ValidateReply(parse, s)
  {
    ExtractJsonFenceTransparent(s);
  }
}
