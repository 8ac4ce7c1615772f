/**
 The bot of `out_gcp/imagne3_peo_test.py`: every usable image is posted as an
 attachment, in generation order, and one summary text follows the loop.
 */
module AttachBot {
  import opened Wrappers
  import opened Strings
  import Directive
  import Naming
  import opened Pipeline

  /** The attachments posted by the loop, and the error that stopped it, if any. */
  datatype Run = Run(attached: seq<Event>, failure: Option<string>)

  /**
   The loop from position `from` on: skip an image without pixel data, post
   every other one under its display name; a failed post ends the loop.
   */
  function AttachFrom(request: GenerationRequest, images: seq<Image>, from: nat,
                      deliver: (string, Bytes) -> Delivery): (run: Run)
    ensures forall k :: 0 <= k < |run.attached| ==> run.attached[k].Attachment?
    decreases |images| - from
  {
    if from >= |images| then
      Run([], None)
    else
      match images[from]
      case Empty => AttachFrom(request, images, from + 1, deliver)
      case Usable(jpeg) =>
        var name := Naming.DisplayName(request.prompt, from);
        match deliver(name, jpeg)
        case DeliveryFailed(e) => Run([], Some(e))
        case Delivered =>
          var rest := AttachFrom(request, images, from + 1, deliver);
          Run([Attachment(name, jpeg)] + rest.attached, rest.failure)
  }

  /** `get_response`: the shared front, then the per-image loop closed by one text. */
  function Handle(query: seq<string>, generate: GenerationRequest -> Generation,
                  deliver: (string, Bytes) -> Delivery): Reply
  {
    match Prepare(query, generate)
    case Finished(reply) => reply
    case Ready(request, images) =>
      var run := AttachFrom(request, images, 0, deliver);
      var last := match run.failure
        case Some(e) => ErrorText(e)
        case None => Text(Summary(request.count, request.prompt));
      Reply(Some(request), run.attached + [last])
  }

  /**
   An empty conversation and an empty message each get a single text and no
   generation; every reply is a run of attachments closed by exactly one text,
   which is the summary unless something failed.
   */
  lemma HandleShape(query: seq<string>, generate: GenerationRequest -> Generation,
                    deliver: (string, Bytes) -> Delivery)
    ensures var r := Handle(query, generate, deliver);
            && (|query| == 0 ==> r == Reply(None, [ErrorText(IndexOutOfRange)]))
            && (|query| > 0 && query[|query| - 1] == "" ==> r == Reply(None, [Text(PromptRequired)]))
            && (|query| > 0 && query[|query| - 1] != "" && Directive.CountError(query[|query| - 1]).Some? ==>
                  r == Reply(None, [ErrorText(Directive.CountError(query[|query| - 1]).value)]))
            && |r.events| > 0 && r.events[|r.events| - 1].Text?
            && forall k :: 0 <= k < |r.events| - 1 ==> r.events[k].Attachment?
  {
    hide Directive.ParseCorrected, Directive.Parse, Directive.CountError, Naming.DisplayName, Summary, AttachFrom;
  }

  /**
   For a non-empty last message, a count too long for `int()` is answered
   with the conversion error alone; otherwise the reply records the request
   parsed from it, and a failed or empty generation is answered with a
   single text.
   */
  lemma HandleRequest(query: seq<string>, generate: GenerationRequest -> Generation,
                      deliver: (string, Bytes) -> Delivery)
    requires |query| > 0 && query[|query| - 1] != ""
    ensures var message := query[|query| - 1];
            var r := Handle(query, generate, deliver);
            Directive.CountError(message).Some? ==>
              r == Reply(None, [ErrorText(Directive.CountError(message).value)])
    ensures var message := query[|query| - 1];
            var request := RequestFor(Directive.ParseCorrected(message));
            var r := Handle(query, generate, deliver);
            Directive.CountError(message).None? ==>
              && r.generation == Some(request)
              && (generate(request) == Generated([]) ==> r.events == [Text(NoImagesGenerated)])
              && (generate(request).GenerationFailed? ==> r.events == [ErrorText(generate(request).message)])
  {
    hide Directive.ParseCorrected, Directive.Parse, Directive.CountError, Naming.DisplayName, Summary, AttachFrom;
  }

  /**
   When every usable image from `from` on can be posted, the loop posts
   exactly those images, in generation order, each under the display name of
   its position.
   */
  lemma {:induction false} AttachFromDelivered(request: GenerationRequest, images: seq<Image>, from: nat,
                                               deliver: (string, Bytes) -> Delivery)
    requires from <= |images|
    requires forall j :: from <= j ==> !Unpostable(request.prompt, images, j, deliver)
    ensures AttachFrom(request, images, from, deliver)
         == Run(AttachmentsFor(request.prompt, images, UsableIndices(images, from)), None)
    decreases |images| - from
  {
    hide Naming.DisplayName;
    if from < |images| {
      AttachFromDelivered(request, images, from + 1, deliver);
      var rest := UsableIndices(images, from + 1);
      if images[from].Usable? {
        assert !Unpostable(request.prompt, images, from, deliver);
        assert UsableIndices(images, from) == [from] + rest;
        assert ([from] + rest)[1..] == rest;
      }
    }
  }

  /**
   When the first image that cannot be posted sits at `j0`, the loop posts
   the usable images before it, in generation order, and stops with the
   error of that post.
   */
  lemma {:induction false} AttachFromFirstFailure(request: GenerationRequest, images: seq<Image>, from: nat,
                                                  deliver: (string, Bytes) -> Delivery, j0: nat)
    requires from <= j0 && Unpostable(request.prompt, images, j0, deliver)
    requires forall j :: from <= j < j0 ==> !Unpostable(request.prompt, images, j, deliver)
    ensures AttachFrom(request, images, from, deliver)
         == Run(AttachmentsFor(request.prompt, images, UsableIndices(images[..j0], from)),
                Some(deliver(Naming.DisplayName(request.prompt, j0), images[j0].jpeg).message))
    decreases j0 - from
  {
    hide Naming.DisplayName;
    var before := images[..j0];
    if from == j0 {
      assert UsableIndices(before, from) == [];
    } else {
      AttachFromFirstFailure(request, images, from + 1, deliver, j0);
      var rest := UsableIndices(before, from + 1);
      var tail := AttachFrom(request, images, from + 1, deliver);
      assert before[from] == images[from];
      if images[from].Usable? {
        var name := Naming.DisplayName(request.prompt, from);
        assert !Unpostable(request.prompt, images, from, deliver);
        assert AttachFrom(request, images, from, deliver)
            == Run([Attachment(name, images[from].jpeg)] + tail.attached, tail.failure);
        assert UsableIndices(before, from) == [from] + rest;
        AttachmentsForCons(request.prompt, images, from, rest);
      } else {
        assert AttachFrom(request, images, from, deliver) == tail;
        assert UsableIndices(before, from) == rest;
      }
    }
  }

  /**
   The loop stops with an error exactly when some usable image from `from`
   on cannot be posted; otherwise it runs to the end.
   */
  lemma {:induction false} AttachFromFailsIff(request: GenerationRequest, images: seq<Image>, from: nat,
                                              deliver: (string, Bytes) -> Delivery)
    requires from <= |images|
    ensures AttachFrom(request, images, from, deliver).failure.Some? <==>
            exists j :: from <= j && Unpostable(request.prompt, images, j, deliver)
    decreases |images| - from
  {
    hide Naming.DisplayName;
    if from == |images| {
      assert forall j :: from <= j ==> !Unpostable(request.prompt, images, j, deliver);
    } else if Unpostable(request.prompt, images, from, deliver) {
      assert AttachFrom(request, images, from, deliver).failure.Some?;
    } else {
      AttachFromFailsIff(request, images, from + 1, deliver);
      assert AttachFrom(request, images, from, deliver).failure == AttachFrom(request, images, from + 1, deliver).failure;
      assert (exists j :: from <= j && Unpostable(request.prompt, images, j, deliver))
         <==> (exists j :: from + 1 <= j && Unpostable(request.prompt, images, j, deliver));
    }
  }

  /**
   With every post succeeding and a non-empty batch, the reply is the
   attachments of the usable images in generation order followed by one
   summary quoting the requested count and the cleaned prompt, even when
   images were skipped.
   */
  lemma HandleDelivered(query: seq<string>, generate: GenerationRequest -> Generation,
                        deliver: (string, Bytes) -> Delivery)
    requires Prepare(query, generate).Ready?
    requires forall j :: !Unpostable(Prepare(query, generate).request.prompt, Prepare(query, generate).images, j, deliver)
    ensures var st := Prepare(query, generate);
            Handle(query, generate, deliver).events
              == AttachmentsFor(st.request.prompt, st.images, UsableIndices(st.images, 0))
                 + [Text(Summary(st.request.count, st.request.prompt))]
  {
    hide Directive.ParseCorrected, Directive.Parse, Directive.CountError, Naming.DisplayName, Summary;
    var st := Prepare(query, generate);
    AttachFromDelivered(st.request, st.images, 0, deliver);
  }

  /** Attachments for distinct positions carry distinct file names. */
  lemma AttachmentsForNamesDistinct(prompt: string, images: seq<Image>, idx: seq<nat>)
    requires forall k, l :: 0 <= k < l < |idx| ==> idx[k] < idx[l]
    ensures var events := AttachmentsFor(prompt, images, idx);
            forall k, l :: 0 <= k < l < |events| ==> events[k].filename != events[l].filename
  {
    hide Naming.DisplayName;
    forall k, l | 0 <= k < l < |idx|
      ensures AttachmentsFor(prompt, images, idx)[k].filename != AttachmentsFor(prompt, images, idx)[l].filename
    {
      Naming.DisplayNamesDistinct(prompt, idx[k], idx[l]);
    }
  }

  /** The attachments of one reply carry pairwise different file names, whether or not a post failed. */
  lemma AttachmentNamesDistinct(query: seq<string>, generate: GenerationRequest -> Generation,
                                deliver: (string, Bytes) -> Delivery)
    ensures var events := Handle(query, generate, deliver).events;
            forall k, l :: 0 <= k < l < |events| && events[k].Attachment? && events[l].Attachment? ==>
              events[k].filename != events[l].filename
  {
    hide Directive.ParseCorrected, Directive.Parse, Directive.CountError, Naming.DisplayName, Summary, AttachmentsFor, UsableIndices, AttachFrom;
    var st := Prepare(query, generate);
    if st.Ready? {
      var first := FirstUnpostable(st.request.prompt, st.images, 0, deliver);
      var idx, last;
      if first.None? {
        idx := UsableIndices(st.images, 0);
        last := Text(Summary(st.request.count, st.request.prompt));
        HandleDelivered(query, generate, deliver);
      } else {
        var j0 := first.value;
        idx := UsableIndices(st.images[..j0], 0);
        last := ErrorText(deliver(Naming.DisplayName(st.request.prompt, j0), st.images[j0].jpeg).message);
        HandleDeliveryFailure(query, generate, deliver, j0);
      }
      var attached := AttachmentsFor(st.request.prompt, st.images, idx);
      assert Handle(query, generate, deliver).events == attached + [last];
      AttachmentsForNamesDistinct(st.request.prompt, st.images, idx);
      var events := attached + [last];
      forall k, l | 0 <= k < l < |events| && events[k].Attachment? && events[l].Attachment?
        ensures events[k].filename != events[l].filename
      {
        assert l < |attached|;
        assert events[k] == attached[k] && events[l] == attached[l];
      }
    }
  }

  /**
   A failed post ends the reply with `Error: <message>` in place of the
   summary: the reply is the attachments of the usable images before the
   first position that cannot be posted, then the error of that post.
   */
  lemma HandleDeliveryFailure(query: seq<string>, generate: GenerationRequest -> Generation,
                              deliver: (string, Bytes) -> Delivery, j: nat)
    requires Prepare(query, generate).Ready?
    requires Unpostable(Prepare(query, generate).request.prompt, Prepare(query, generate).images, j, deliver)
    ensures var st := Prepare(query, generate);
            var first := FirstUnpostable(st.request.prompt, st.images, 0, deliver);
            && first.Some? && first.value <= j
            && Handle(query, generate, deliver).events
                 == AttachmentsFor(st.request.prompt, st.images, UsableIndices(st.images[..first.value], 0))
                    + [ErrorText(deliver(Naming.DisplayName(st.request.prompt, first.value), st.images[first.value].jpeg).message)]
    ensures var events := Handle(query, generate, deliver).events;
            IsError(events[|events| - 1]) && forall k :: 0 <= k < |events| ==> events[k] != Text(Summary(Prepare(query, generate).request.count, Prepare(query, generate).request.prompt))
  {
    hide Directive.ParseCorrected, Directive.Parse, Directive.CountError, Naming.DisplayName, Summary, AttachFrom, AttachmentsFor, FirstUnpostable;
    var st := Prepare(query, generate);
    var first := FirstUnpostable(st.request.prompt, st.images, 0, deliver);
    var j0 := first.value;
    AttachFromFirstFailure(st.request, st.images, 0, deliver, j0);
    var attached := AttachmentsFor(st.request.prompt, st.images, UsableIndices(st.images[..j0], 0));
    var summary := Text(Summary(st.request.count, st.request.prompt));
    var events := attached + [ErrorText(deliver(Naming.DisplayName(st.request.prompt, j0), st.images[j0].jpeg).message)];
    assert Handle(query, generate, deliver).events == events;
    assert IsError(events[|events| - 1]);
    forall k | 0 <= k < |events|
      ensures events[k] != summary
    {
      if k < |attached| {
        assert events[k] == attached[k];
      }
    }
  }
}
