/**
 What both bots share: the events a reply streams, the fixed user-facing
 messages, and the front of the request flow (last message, empty-prompt
 check, directive parsing, the one generation call, the empty-batch check).
 */
module Pipeline {
  import opened Wrappers
  import opened Strings
  import Directive
  import Naming

  type Bytes = seq<bv8>

  /** A generated image: one with pixel data (its JPEG encoding) or an empty placeholder. */
  datatype Image = Empty | Usable(jpeg: Bytes)

  /** The arguments of the one `generate_images` call. */
  datatype GenerationRequest = GenerationRequest(prompt: string, count: nat, language: string, aspectRatio: string)

  /** What the generation call returned, or the error it raised. */
  datatype Generation = Generated(images: seq<Image>) | GenerationFailed(message: string)

  /** One unit of the reply: a streamed text or a posted attachment. */
  datatype Event = Text(text: string) | Attachment(filename: string, data: Bytes)

  /** Outcome of posting one attachment. */
  datatype Delivery = Delivered | DeliveryFailed(message: string)

  /** A reply: the generation call made, if any, and the events in order. */
  datatype Reply = Reply(generation: Option<GenerationRequest>, events: seq<Event>)

  const PromptRequired: string := "Prompt is required"
  const NoImagesGenerated: string := "No images were generated. Please modify your prompt or try again later."

  /** `str(e)` of the `IndexError` that `request.query[-1]` raises on an empty conversation. */
  const IndexOutOfRange: string := "list index out of range"

  /** The outermost handler's `f"Error: {e}"`. */
  function ErrorText(message: string): Event {
    Text("Error: " + message)
  }

  predicate IsError(ev: Event) {
    ev.Text? && |ev.text| >= 7 && ev.text[..7] == "Error: "
  }

  /** A text that starts with something other than `E` is not an error report. */
  lemma NotErrorByFirstChar(ev: Event)
    requires ev.Text? && |ev.text| > 0 && ev.text[0] != 'E'
    ensures !IsError(ev)
  {
    if |ev.text| >= 7 {
      assert ev.text[..7][0] == ev.text[0];
    }
  }

  /** The fixed text between the count and the prompt of a summary; it opens with a space. */
  const SummaryMiddle: string := " " + "image(s) generated by Imagen3 attached for \""

  /**
   `f'{number_of_images} image(s) generated by Imagen3 attached for "{last_message}".'`:
   the count in decimal, then the fixed middle, then the quoted prompt.
   */
  function Summary(count: nat, prompt: string): (s: string)
    ensures !IsError(Text(s))
    ensures var d := DecimalString(count);
            && |s| == |d| + |SummaryMiddle| + |prompt| + 2
            && s[..|d|] == d
            && s[|d|..|d| + |SummaryMiddle|] == SummaryMiddle
            && s[|s| - |prompt| - 2..|s| - 2] == prompt
            && s[|s| - 2..] == "\"."
  {
    var s := DecimalString(count) + SummaryMiddle + prompt + "\".";
    NotErrorByFirstChar(Text(s));
    s
  }

  /** A summary names its count and its prompt: two different pairs never give the same text. */
  lemma SummaryInjective(c1: nat, p1: string, c2: nat, p2: string)
    requires Summary(c1, p1) == Summary(c2, p2)
    ensures c1 == c2 && p1 == p2
  {
    hide Summary, DecimalString;
    var d1, d2 := DecimalString(c1), DecimalString(c2);
    SummaryCountEnds(c1, p1);
    SummaryCountEnds(c2, p2);
    assert |d1| == |d2|;
    assert d1 == Summary(c1, p1)[..|d1|] == d2;
  }

  /** The count is the longest run of digits a summary starts with. */
  lemma SummaryCountEnds(count: nat, prompt: string)
    ensures var s, d := Summary(count, prompt), DecimalString(count);
            && |d| < |s| && !IsDigit(s[|d|])
            && forall k :: 0 <= k < |d| ==> IsDigit(s[k])
  {
    hide DecimalString;
    var s, d := Summary(count, prompt), DecimalString(count);
    assert s[|d|] == s[|d|..|d| + |SummaryMiddle|][0] == ' ';
    forall k | 0 <= k < |d| ensures IsDigit(s[k]) {
      assert s[k] == s[..|d|][k] == d[k];
    }
  }

  /** The generation call for a parsed prompt; language and aspect ratio are fixed. */
  function RequestFor(p: Directive.Parsed): GenerationRequest {
    GenerationRequest(p.prompt, p.count, "en", "1:1")
  }

  /** Where the shared front of the flow leaves a request. */
  datatype Stage = Finished(reply: Reply) | Ready(request: GenerationRequest, images: seq<Image>)

  /**
   The front of `get_response`, identical in both bots: read the last message,
   answer an empty one without generating, read the directive's count (which
   can raise), parse, call the generator once, and answer an error or an
   empty batch with one text.
   */
  function Prepare(query: seq<string>, generate: GenerationRequest -> Generation): (st: Stage)
    ensures st.Finished? ==> |st.reply.events| == 1 && st.reply.events[0].Text?
    ensures st.Finished? && st.reply.generation.None? <==>
              |query| == 0 || query[|query| - 1] == "" || Directive.CountError(query[|query| - 1]).Some?
    ensures |query| > 0 && query[|query| - 1] != "" && Directive.CountError(query[|query| - 1]).Some? ==>
              st == Finished(Reply(None, [ErrorText(Directive.CountError(query[|query| - 1]).value)]))
    ensures st.Ready? ==> |query| > 0 && query[|query| - 1] != "" && |st.images| > 0
    ensures st.Ready? ==> st.request == RequestFor(Directive.ParseCorrected(query[|query| - 1]))
    ensures st.Ready? ==> generate(st.request) == Generated(st.images)
  {
    if |query| == 0 then
      Finished(Reply(None, [ErrorText(IndexOutOfRange)]))
    else
      var message := query[|query| - 1];
      if message == "" then
        Finished(Reply(None, [Text(PromptRequired)]))
      else if Directive.CountError(message).Some? then
        Finished(Reply(None, [ErrorText(Directive.CountError(message).value)]))
      else
        var request := RequestFor(Directive.ParseCorrected(message));
        match generate(request)
        case GenerationFailed(e) => Finished(Reply(Some(request), [ErrorText(e)]))
        case Generated(images) =>
          if |images| == 0 then Finished(Reply(Some(request), [Text(NoImagesGenerated)]))
          else Ready(request, images)
  }

  /**
   Unless deleting the directives splices a new one together, the request
   handed to the generator is the one the code as written builds.
   */
  lemma PrepareAgreesAsWritten(query: seq<string>, generate: GenerationRequest -> Generation)
    requires |query| > 0 && Directive.Search(Directive.RemoveAll(query[|query| - 1])).None?
    ensures var st := Prepare(query, generate);
            var asWritten := RequestFor(Directive.Parse(query[|query| - 1]));
            && (st.Ready? ==> st.request == asWritten)
            && (st.Finished? && st.reply.generation.Some? ==> st.reply.generation.value == asWritten)
  {
    hide Directive.ParseCorrected, Directive.Parse, Directive.CountError, Directive.Search, Directive.RemoveAll;
    Directive.ParseCorrectedAgrees(query[|query| - 1]);
  }

  /**
   The positions, from `from` on, of the images that have pixel data, in
   increasing order: exactly the images the per-image loop does not skip.
   */
  function UsableIndices(images: seq<Image>, from: nat): (idx: seq<nat>)
    ensures forall k :: 0 <= k < |idx| ==> from <= idx[k] < |images| && images[idx[k]].Usable?
    ensures forall k, l :: 0 <= k < l < |idx| ==> idx[k] < idx[l]
    ensures forall j :: from <= j < |images| && images[j].Usable? ==> j in idx
    decreases |images| - from
  {
    if from >= |images| then []
    else if images[from].Usable? then [from] + UsableIndices(images, from + 1)
    else UsableIndices(images, from + 1)
  }

  /**
   The attachment posted for the image at position `j`: its display name and
   its JPEG bytes (positions without pixel data are never posted).
   */
  function AttachmentAt(prompt: string, images: seq<Image>, j: nat): Event {
    Attachment(Naming.DisplayName(prompt, j), if j < |images| && images[j].Usable? then images[j].jpeg else [])
  }

  /** The attachments for the images at positions `idx`, in that order. */
  function AttachmentsFor(prompt: string, images: seq<Image>, idx: seq<nat>): (events: seq<Event>)
    ensures |events| == |idx|
    ensures forall k :: 0 <= k < |idx| ==> events[k] == AttachmentAt(prompt, images, idx[k])
    ensures forall k :: 0 <= k < |idx| ==> events[k].Attachment? && events[k].filename == Naming.DisplayName(prompt, idx[k])
  {
    if |idx| == 0 then []
    else [AttachmentAt(prompt, images, idx[0])] + AttachmentsFor(prompt, images, idx[1..])
  }

  /** Peeling the first position off a run of attachments. */
  lemma AttachmentsForCons(prompt: string, images: seq<Image>, j: nat, rest: seq<nat>)
    ensures AttachmentsFor(prompt, images, [j] + rest)
         == [AttachmentAt(prompt, images, j)] + AttachmentsFor(prompt, images, rest)
  {
    assert ([j] + rest)[1..] == rest;
  }

  /** The usable image at `j` cannot be posted as an attachment. */
  predicate Unpostable(prompt: string, images: seq<Image>, j: nat, deliver: (string, Bytes) -> Delivery) {
    && j < |images| && images[j].Usable?
    && deliver(Naming.DisplayName(prompt, j), images[j].jpeg).DeliveryFailed?
  }

  /** The first position from `from` on whose image cannot be posted, if there is one. */
  function FirstUnpostable(prompt: string, images: seq<Image>, from: nat,
                           deliver: (string, Bytes) -> Delivery): (first: Option<nat>)
    ensures first.Some? ==> && from <= first.value
                            && Unpostable(prompt, images, first.value, deliver)
                            && forall j :: from <= j < first.value ==> !Unpostable(prompt, images, j, deliver)
    ensures first.None? ==> forall j :: from <= j ==> !Unpostable(prompt, images, j, deliver)
    decreases |images| - from
  {
    if from >= |images| then None
    else if Unpostable(prompt, images, from, deliver) then Some(from)
    else FirstUnpostable(prompt, images, from + 1, deliver)
  }
}
