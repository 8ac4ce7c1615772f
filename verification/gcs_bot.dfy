/**
 The bot of `GCS/imagen_bot_poe.py`: every usable image is uploaded under a
 random key and answered with a markdown link to its signed URL; when
 uploading or signing fails, the image is posted as an attachment instead and
 a summary text follows that attachment at once.
 */
module GcsBot {
  import opened Wrappers
  import opened Strings
  import Directive
  import Naming
  import opened Pipeline

  /** Outcome of uploading one image and signing a URL for it. */
  datatype Publication = Published(url: string) | PublishFailed

  /** The fixed opening of a Markdown image link. */
  const LinkOpening: string := "![Generated Image_"

  /**
   `f"![Generated Image_{filename}]({signed_url})"`: the image's name after a
   fixed opening, then the signed URL in parentheses.
   */
  function MarkdownImage(filename: string, url: string): (md: string)
    ensures !IsError(Text(md))
    ensures |md| == |LinkOpening| + |filename| + |url| + 3 && md[0] == '!'
    ensures md[..|LinkOpening|] == LinkOpening
    ensures md[|LinkOpening|..|LinkOpening| + |filename|] == filename
    ensures md[|LinkOpening| + |filename|..|LinkOpening| + |filename| + 2] == "]("
    ensures md[|md| - |url| - 1..|md| - 1] == url && md[|md| - 1] == ')'
  {
    var md := LinkOpening + filename + "](" + url + ")";
    NotErrorByFirstChar(Text(md));
    md
  }

  /** For a given image name the link determines the signed URL it points at. */
  lemma MarkdownImageUrl(filename: string, u1: string, u2: string)
    requires MarkdownImage(filename, u1) == MarkdownImage(filename, u2)
    ensures u1 == u2
  {
    hide MarkdownImage;
    var md := MarkdownImage(filename, u1);
    assert |u1| == |u2|;
    assert u1 == md[|md| - |u1| - 1..|md| - 1] == u2;
  }

  /**
   What the usable image at position `j` contributes when its attachment, if
   one is needed, is delivered: a link when publishing succeeds, otherwise the
   attachment followed by a summary text.
   */
  function ImageEvents(request: GenerationRequest, images: seq<Image>, j: nat,
                       keyDraws: nat -> Naming.KeyDraws, publish: (string, Bytes) -> Publication): (events: seq<Event>)
    requires j < |images| && images[j].Usable?
    ensures forall k :: 0 <= k < |events| ==> !IsError(events[k])
    ensures var name := Naming.DisplayName(request.prompt, j);
            match publish(Naming.StorageKey(keyDraws(j)), images[j].jpeg)
            case Published(url) => events == [Text(MarkdownImage(name, url))]
            case PublishFailed => events == [Attachment(name, images[j].jpeg), Text(Summary(request.count, request.prompt))]
  {
    var name := Naming.DisplayName(request.prompt, j);
    match publish(Naming.StorageKey(keyDraws(j)), images[j].jpeg)
    case Published(url) => [Text(MarkdownImage(name, url))]
    case PublishFailed => [Attachment(name, images[j].jpeg), Text(Summary(request.count, request.prompt))]
  }

  /**
   The per-image loop from position `from` on. An image without pixel data is
   skipped; a failed attachment post escapes to the outer handler, which ends
   the reply with one error text.
   */
  function PublishFrom(request: GenerationRequest, images: seq<Image>, from: nat,
                       keyDraws: nat -> Naming.KeyDraws, publish: (string, Bytes) -> Publication,
                       deliver: (string, Bytes) -> Delivery): (events: seq<Event>)
    ensures forall k :: 0 <= k < |events| - 1 ==> !IsError(events[k])
    decreases |images| - from
  {
    if from >= |images| then
      []
    else
      match images[from]
      case Empty => PublishFrom(request, images, from + 1, keyDraws, publish, deliver)
      case Usable(jpeg) =>
        var name := Naming.DisplayName(request.prompt, from);
        var published := publish(Naming.StorageKey(keyDraws(from)), jpeg);
        if published.PublishFailed? && deliver(name, jpeg).DeliveryFailed? then
          [ErrorText(deliver(name, jpeg).message)]
        else
          ImageEvents(request, images, from, keyDraws, publish)
          + PublishFrom(request, images, from + 1, keyDraws, publish, deliver)
  }

  /** `get_response`: the shared front, then the per-image loop. */
  function Handle(query: seq<string>, generate: GenerationRequest -> Generation,
                  keyDraws: nat -> Naming.KeyDraws, publish: (string, Bytes) -> Publication,
                  deliver: (string, Bytes) -> Delivery): Reply
  {
    match Prepare(query, generate)
    case Finished(reply) => reply
    case Ready(request, images) =>
      Reply(Some(request), PublishFrom(request, images, 0, keyDraws, publish, deliver))
  }

  /**
   An empty conversation and an empty message each get a single text and no
   generation, and an error report can only be the last event of a reply.
   */
  lemma HandleShape(query: seq<string>, generate: GenerationRequest -> Generation,
                    keyDraws: nat -> Naming.KeyDraws, publish: (string, Bytes) -> Publication,
                    deliver: (string, Bytes) -> Delivery)
    ensures var r := Handle(query, generate, keyDraws, publish, deliver);
            && (|query| == 0 ==> r == Reply(None, [ErrorText(IndexOutOfRange)]))
            && (|query| > 0 && query[|query| - 1] == "" ==> r == Reply(None, [Text(PromptRequired)]))
            && (|query| > 0 && query[|query| - 1] != "" && Directive.CountError(query[|query| - 1]).Some? ==>
                  r == Reply(None, [ErrorText(Directive.CountError(query[|query| - 1]).value)]))
            && forall k :: 0 <= k < |r.events| - 1 ==> !IsError(r.events[k])
  {
    hide Directive.ParseCorrected, Directive.Parse, Directive.CountError, Naming.DisplayName, Naming.StorageKey, Summary, PublishFrom;
  }

  /**
   For a non-empty last message, a count too long for `int()` is answered
   with the conversion error alone; otherwise the reply records the request
   parsed from it (the message itself with count 1 when it holds no
   directive), and a failed or empty generation is answered with a single
   text.
   */
  lemma HandleRequest(query: seq<string>, generate: GenerationRequest -> Generation,
                      keyDraws: nat -> Naming.KeyDraws, publish: (string, Bytes) -> Publication,
                      deliver: (string, Bytes) -> Delivery)
    requires |query| > 0 && query[|query| - 1] != ""
    ensures var message := query[|query| - 1];
            var r := Handle(query, generate, keyDraws, publish, deliver);
            Directive.CountError(message).Some? ==>
              r == Reply(None, [ErrorText(Directive.CountError(message).value)])
    ensures var message := query[|query| - 1];
            var request := RequestFor(Directive.ParseCorrected(message));
            var r := Handle(query, generate, keyDraws, publish, deliver);
            Directive.CountError(message).None? ==>
              && r.generation == Some(request)
              && (Directive.Search(message).None? ==> request == GenerationRequest(message, 1, "en", "1:1"))
              && (generate(request) == Generated([]) ==> r.events == [Text(NoImagesGenerated)])
              && (generate(request).GenerationFailed? ==> r.events == [ErrorText(generate(request).message)])
  {
    hide Directive.Parse, Directive.Search, Directive.CountError, Naming.DisplayName, Naming.StorageKey, Summary, PublishFrom;
  }

  /** The events of the usable images at positions `idx`, one block after another. */
  function Blocks(request: GenerationRequest, images: seq<Image>, idx: seq<nat>,
                  keyDraws: nat -> Naming.KeyDraws, publish: (string, Bytes) -> Publication): seq<Event>
  {
    if |idx| == 0 then []
    else
      var j := idx[0];
      (if j < |images| && images[j].Usable? then ImageEvents(request, images, j, keyDraws, publish) else [])
      + Blocks(request, images, idx[1..], keyDraws, publish)
  }

  /**
   When every usable image from `from` on can be published or posted, the
   loop emits nothing for skipped images and, for each usable image in
   generation order, exactly its block.
   */
  lemma {:induction false} PublishFromBlocks(request: GenerationRequest, images: seq<Image>, from: nat,
                                             keyDraws: nat -> Naming.KeyDraws, publish: (string, Bytes) -> Publication,
                                             deliver: (string, Bytes) -> Delivery)
    requires from <= |images|
    requires forall j :: from <= j ==> !Undeliverable(request, images, j, keyDraws, publish, deliver)
    ensures PublishFrom(request, images, from, keyDraws, publish, deliver)
         == Blocks(request, images, UsableIndices(images, from), keyDraws, publish)
    decreases |images| - from
  {
    hide ImageEvents, Naming.DisplayName, Naming.StorageKey;
    if from < |images| {
      PublishFromBlocks(request, images, from + 1, keyDraws, publish, deliver);
      var rest := UsableIndices(images, from + 1);
      var tail := PublishFrom(request, images, from + 1, keyDraws, publish, deliver);
      if images[from].Usable? {
        assert !Undeliverable(request, images, from, keyDraws, publish, deliver);
        assert PublishFrom(request, images, from, keyDraws, publish, deliver)
            == ImageEvents(request, images, from, keyDraws, publish) + tail;
        assert UsableIndices(images, from) == [from] + rest;
        BlocksCons(request, images, from, rest, keyDraws, publish);
      } else {
        assert PublishFrom(request, images, from, keyDraws, publish, deliver) == tail;
        assert UsableIndices(images, from) == rest;
      }
    }
  }

  /** Peeling the first usable position off a run of blocks. */
  lemma BlocksCons(request: GenerationRequest, images: seq<Image>, j: nat, rest: seq<nat>,
                   keyDraws: nat -> Naming.KeyDraws, publish: (string, Bytes) -> Publication)
    requires j < |images| && images[j].Usable?
    ensures Blocks(request, images, [j] + rest, keyDraws, publish)
         == ImageEvents(request, images, j, keyDraws, publish) + Blocks(request, images, rest, keyDraws, publish)
  {
    hide ImageEvents;
    assert ([j] + rest)[1..] == rest;
  }

  /** When every image is published, each block is one link to its signed URL. */
  lemma {:induction false} BlocksAllPublished(request: GenerationRequest, images: seq<Image>, idx: seq<nat>,
                                              keyDraws: nat -> Naming.KeyDraws, publish: (string, Bytes) -> Publication)
    requires forall k :: 0 <= k < |idx| ==> idx[k] < |images| && images[idx[k]].Usable?
    requires forall key, b :: publish(key, b).Published?
    ensures var events := Blocks(request, images, idx, keyDraws, publish);
            |events| == |idx| &&
            forall k :: 0 <= k < |idx| ==>
              events[k] == Text(MarkdownImage(Naming.DisplayName(request.prompt, idx[k]),
                                              publish(Naming.StorageKey(keyDraws(idx[k])), images[idx[k]].jpeg).url))
  {
    hide Naming.DisplayName, Naming.StorageKey, MarkdownImage;
    if |idx| > 0 {
      BlocksAllPublished(request, images, idx[1..], keyDraws, publish);
    }
  }

  /** Each of `heads` followed by `second`. */
  function Pairs(heads: seq<Event>, second: Event): (events: seq<Event>)
    ensures |events| == 2 * |heads|
  {
    if |heads| == 0 then [] else [heads[0], second] + Pairs(heads[1..], second)
  }

  lemma {:induction false} PairsAt(heads: seq<Event>, second: Event, k: nat)
    requires k < |heads|
    ensures Pairs(heads, second)[2 * k] == heads[k]
    ensures Pairs(heads, second)[2 * k + 1] == second
  {
    if k > 0 {
      PairsAt(heads[1..], second, k - 1);
      assert heads[1..][k - 1] == heads[k];
    }
  }

  /** When no image is published, the first image's block is its attachment and a summary. */
  lemma BlocksNonePublishedFirst(request: GenerationRequest, images: seq<Image>, idx: seq<nat>,
                                 keyDraws: nat -> Naming.KeyDraws, publish: (string, Bytes) -> Publication)
    requires 0 < |idx| && idx[0] < |images| && images[idx[0]].Usable?
    requires forall key, b :: publish(key, b) == PublishFailed
    ensures Blocks(request, images, idx, keyDraws, publish)
         == [AttachmentAt(request.prompt, images, idx[0]), Text(Summary(request.count, request.prompt))]
            + Blocks(request, images, idx[1..], keyDraws, publish)
  {
    hide Naming.DisplayName, Naming.StorageKey, Summary, MarkdownImage;
    assert publish(Naming.StorageKey(keyDraws(idx[0])), images[idx[0]].jpeg) == PublishFailed;
  }

  /** When no image is published, the blocks alternate fallback attachment and summary. */
  lemma {:induction false} BlocksNoneArePairs(request: GenerationRequest, images: seq<Image>, idx: seq<nat>,
                                              keyDraws: nat -> Naming.KeyDraws, publish: (string, Bytes) -> Publication)
    requires forall k :: 0 <= k < |idx| ==> idx[k] < |images| && images[idx[k]].Usable?
    requires forall key, b :: publish(key, b) == PublishFailed
    ensures Blocks(request, images, idx, keyDraws, publish)
         == Pairs(AttachmentsFor(request.prompt, images, idx), Text(Summary(request.count, request.prompt)))
  {
    hide ImageEvents, Naming.DisplayName, Naming.StorageKey, Summary, AttachmentAt;
    if |idx| > 0 {
      BlocksNonePublishedFirst(request, images, idx, keyDraws, publish);
      BlocksNoneArePairs(request, images, idx[1..], keyDraws, publish);
    }
  }

  /** When no image is published, each block is an attachment followed by a summary. */
  lemma BlocksNonePublished(request: GenerationRequest, images: seq<Image>, idx: seq<nat>,
                            keyDraws: nat -> Naming.KeyDraws, publish: (string, Bytes) -> Publication)
    requires forall k :: 0 <= k < |idx| ==> idx[k] < |images| && images[idx[k]].Usable?
    requires forall key, b :: publish(key, b) == PublishFailed
    ensures var events := Blocks(request, images, idx, keyDraws, publish);
            |events| == 2 * |idx| &&
            forall k :: 0 <= k < |idx| ==>
              events[2 * k] == Attachment(Naming.DisplayName(request.prompt, idx[k]), images[idx[k]].jpeg) &&
              events[2 * k + 1] == Text(Summary(request.count, request.prompt))
  {
    hide Blocks, Naming.DisplayName, Summary, Pairs;
    BlocksNoneArePairs(request, images, idx, keyDraws, publish);
    forall k | 0 <= k < |idx| {
      PairsAt(AttachmentsFor(request.prompt, images, idx), Text(Summary(request.count, request.prompt)), k);
    }
  }

  /**
   When every image is published, the reply holds one markdown link per
   usable image, in generation order, and nothing else.
   */
  lemma HandleAllPublished(query: seq<string>, generate: GenerationRequest -> Generation,
                           keyDraws: nat -> Naming.KeyDraws, publish: (string, Bytes) -> Publication,
                           deliver: (string, Bytes) -> Delivery)
    requires Prepare(query, generate).Ready?
    requires forall key, b :: publish(key, b).Published?
    ensures var st := Prepare(query, generate);
            var idx := UsableIndices(st.images, 0);
            var events := Handle(query, generate, keyDraws, publish, deliver).events;
            |events| == |idx| &&
            forall k :: 0 <= k < |idx| ==>
              events[k] == Text(MarkdownImage(Naming.DisplayName(st.request.prompt, idx[k]),
                                              publish(Naming.StorageKey(keyDraws(idx[k])), st.images[idx[k]].jpeg).url))
  {
    hide Directive.ParseCorrected, Directive.Parse, Directive.CountError, Naming.DisplayName, Naming.StorageKey, MarkdownImage, PublishFrom, Blocks;
    var st := Prepare(query, generate);
    var always := (n: string, b: Bytes) => Delivered;
    PublishFromBlocks(st.request, st.images, 0, keyDraws, publish, always);
    PublishFromEqualWhenPublished(st.request, st.images, 0, keyDraws, publish, deliver, always);
    BlocksAllPublished(st.request, st.images, UsableIndices(st.images, 0), keyDraws, publish);
  }

  /** When every image is published the attachment poster is never consulted. */
  lemma {:induction false} PublishFromEqualWhenPublished(request: GenerationRequest, images: seq<Image>, from: nat,
                                                         keyDraws: nat -> Naming.KeyDraws, publish: (string, Bytes) -> Publication,
                                                         deliver: (string, Bytes) -> Delivery, deliver': (string, Bytes) -> Delivery)
    requires forall key, b :: publish(key, b).Published?
    ensures PublishFrom(request, images, from, keyDraws, publish, deliver)
         == PublishFrom(request, images, from, keyDraws, publish, deliver')
    decreases |images| - from
  {
    hide ImageEvents, Naming.DisplayName, Naming.StorageKey;
    if from < |images| {
      PublishFromEqualWhenPublished(request, images, from + 1, keyDraws, publish, deliver, deliver');
      if images[from].Usable? {
        assert publish(Naming.StorageKey(keyDraws(from)), images[from].jpeg).Published?;
      }
    }
  }

  /**
   When nothing is published and every attachment is posted, each usable
   image yields its attachment and then its own summary: as many summaries as
   usable images, each quoting the requested count rather than the number
   delivered.
   */
  lemma HandleNonePublished(query: seq<string>, generate: GenerationRequest -> Generation,
                            keyDraws: nat -> Naming.KeyDraws, publish: (string, Bytes) -> Publication,
                            deliver: (string, Bytes) -> Delivery)
    requires Prepare(query, generate).Ready?
    requires forall key, b :: publish(key, b) == PublishFailed
    requires forall n, b :: deliver(n, b) == Delivered
    ensures var st := Prepare(query, generate);
            var idx := UsableIndices(st.images, 0);
            var events := Handle(query, generate, keyDraws, publish, deliver).events;
            |events| == 2 * |idx| &&
            forall k :: 0 <= k < |idx| ==>
              events[2 * k] == Attachment(Naming.DisplayName(st.request.prompt, idx[k]), st.images[idx[k]].jpeg) &&
              events[2 * k + 1] == Text(Summary(st.request.count, st.request.prompt))
  {
    hide Directive.ParseCorrected, Directive.Parse, Directive.CountError, Naming.DisplayName, Summary, PublishFrom, Blocks;
    var st := Prepare(query, generate);
    PublishFromBlocks(st.request, st.images, 0, keyDraws, publish, deliver);
    BlocksNonePublished(st.request, st.images, UsableIndices(st.images, 0), keyDraws, publish);
  }

  /** A batch in which no image has pixel data gets an empty reply: no link, no attachment, no summary. */
  lemma HandleAllSkipped(query: seq<string>, generate: GenerationRequest -> Generation,
                         keyDraws: nat -> Naming.KeyDraws, publish: (string, Bytes) -> Publication,
                         deliver: (string, Bytes) -> Delivery)
    requires Prepare(query, generate).Ready?
    requires forall j :: 0 <= j < |Prepare(query, generate).images| ==> Prepare(query, generate).images[j].Empty?
    ensures Handle(query, generate, keyDraws, publish, deliver).events == []
  {
    hide Directive.ParseCorrected, Directive.Parse, Directive.CountError, PublishFrom;
    var st := Prepare(query, generate);
    PublishFromAllEmpty(st.request, st.images, 0, keyDraws, publish, deliver);
  }

  lemma {:induction false} PublishFromAllEmpty(request: GenerationRequest, images: seq<Image>, from: nat,
                                               keyDraws: nat -> Naming.KeyDraws, publish: (string, Bytes) -> Publication,
                                               deliver: (string, Bytes) -> Delivery)
    requires forall j :: from <= j < |images| ==> images[j].Empty?
    ensures PublishFrom(request, images, from, keyDraws, publish, deliver) == []
    decreases |images| - from
  {
    hide ImageEvents, Naming.DisplayName;
    if from < |images| {
      PublishFromAllEmpty(request, images, from + 1, keyDraws, publish, deliver);
    }
  }

  /** Some event of `events` reports an error. */
  predicate HasError(events: seq<Event>) {
    exists k :: 0 <= k < |events| && IsError(events[k])
  }

  /** The usable image at `j` can be neither published nor posted. */
  predicate Undeliverable(request: GenerationRequest, images: seq<Image>, j: nat,
                          keyDraws: nat -> Naming.KeyDraws, publish: (string, Bytes) -> Publication,
                          deliver: (string, Bytes) -> Delivery) {
    && j < |images| && images[j].Usable?
    && publish(Naming.StorageKey(keyDraws(j)), images[j].jpeg) == PublishFailed
    && deliver(Naming.DisplayName(request.prompt, j), images[j].jpeg).DeliveryFailed?
  }

  /** Putting error-free events in front of a stream neither adds nor hides an error. */
  lemma HasErrorAfterClean(head: seq<Event>, rest: seq<Event>)
    requires forall k :: 0 <= k < |head| ==> !IsError(head[k])
    ensures HasError(head + rest) <==> HasError(rest)
  {
    var events := head + rest;
    if HasError(rest) {
      var k :| 0 <= k < |rest| && IsError(rest[k]);
      assert events[|head| + k] == rest[k];
    }
    if HasError(events) {
      var k :| 0 <= k < |events| && IsError(events[k]);
      assert rest[k - |head|] == events[k];
    }
  }

  /**
   The loop's output holds an error text exactly when some usable image could
   neither be published nor posted as an attachment; that error is then last.
   */
  lemma {:induction false} PublishFromFailsIff(request: GenerationRequest, images: seq<Image>, from: nat,
                                               keyDraws: nat -> Naming.KeyDraws, publish: (string, Bytes) -> Publication,
                                               deliver: (string, Bytes) -> Delivery)
    ensures HasError(PublishFrom(request, images, from, keyDraws, publish, deliver)) <==>
            exists j :: from <= j && Undeliverable(request, images, j, keyDraws, publish, deliver)
    decreases |images| - from
  {
    hide ImageEvents, MarkdownImage, Summary;
    var events := PublishFrom(request, images, from, keyDraws, publish, deliver);
    if from >= |images| {
      assert !HasError(events);
      assert forall j :: from <= j ==> !Undeliverable(request, images, j, keyDraws, publish, deliver);
    } else if Undeliverable(request, images, from, keyDraws, publish, deliver) {
      assert IsError(events[0]);
    } else {
      PublishFromFailsIff(request, images, from + 1, keyDraws, publish, deliver);
      var rest := PublishFrom(request, images, from + 1, keyDraws, publish, deliver);
      if images[from].Usable? {
        var head := ImageEvents(request, images, from, keyDraws, publish);
        assert events == head + rest;
        HasErrorAfterClean(head, rest);
      } else {
        assert events == rest;
      }
      assert (exists j :: from <= j && Undeliverable(request, images, j, keyDraws, publish, deliver))
         <==> (exists j :: from + 1 <= j && Undeliverable(request, images, j, keyDraws, publish, deliver));
    }
  }

  /** The first position from `from` on whose image can be neither published nor posted, if there is one. */
  function FirstUndeliverable(request: GenerationRequest, images: seq<Image>, from: nat,
                              keyDraws: nat -> Naming.KeyDraws, publish: (string, Bytes) -> Publication,
                              deliver: (string, Bytes) -> Delivery): (first: Option<nat>)
    ensures first.Some? ==> && from <= first.value
                            && Undeliverable(request, images, first.value, keyDraws, publish, deliver)
                            && forall j :: from <= j < first.value ==> !Undeliverable(request, images, j, keyDraws, publish, deliver)
    ensures first.None? ==> forall j :: from <= j ==> !Undeliverable(request, images, j, keyDraws, publish, deliver)
    decreases |images| - from
  {
    if from >= |images| then None
    else if Undeliverable(request, images, from, keyDraws, publish, deliver) then Some(from)
    else FirstUndeliverable(request, images, from + 1, keyDraws, publish, deliver)
  }

  /**
   When the first image that can be neither published nor posted sits at
   `j0`, the loop emits the blocks of the usable images before it, in
   generation order, and then the error of that post.
   */
  lemma {:induction false} PublishFromFirstFailure(request: GenerationRequest, images: seq<Image>, from: nat,
                                                   keyDraws: nat -> Naming.KeyDraws, publish: (string, Bytes) -> Publication,
                                                   deliver: (string, Bytes) -> Delivery, j0: nat)
    requires from <= j0 && Undeliverable(request, images, j0, keyDraws, publish, deliver)
    requires forall j :: from <= j < j0 ==> !Undeliverable(request, images, j, keyDraws, publish, deliver)
    ensures PublishFrom(request, images, from, keyDraws, publish, deliver)
         == Blocks(request, images, UsableIndices(images[..j0], from), keyDraws, publish)
            + [ErrorText(deliver(Naming.DisplayName(request.prompt, j0), images[j0].jpeg).message)]
    decreases j0 - from
  {
    hide ImageEvents, Naming.DisplayName, Naming.StorageKey;
    var before := images[..j0];
    var err := [ErrorText(deliver(Naming.DisplayName(request.prompt, j0), images[j0].jpeg).message)];
    if from == j0 {
      assert UsableIndices(before, from) == [];
    } else {
      PublishFromFirstFailure(request, images, from + 1, keyDraws, publish, deliver, j0);
      var rest := UsableIndices(before, from + 1);
      var tail := PublishFrom(request, images, from + 1, keyDraws, publish, deliver);
      assert before[from] == images[from];
      if images[from].Usable? {
        assert !Undeliverable(request, images, from, keyDraws, publish, deliver);
        var head := ImageEvents(request, images, from, keyDraws, publish);
        assert PublishFrom(request, images, from, keyDraws, publish, deliver) == head + tail;
        assert UsableIndices(before, from) == [from] + rest;
        BlocksCons(request, images, from, rest, keyDraws, publish);
        assert head + (Blocks(request, images, rest, keyDraws, publish) + err)
            == (head + Blocks(request, images, rest, keyDraws, publish)) + err;
      } else {
        assert PublishFrom(request, images, from, keyDraws, publish, deliver) == tail;
        assert UsableIndices(before, from) == rest;
      }
    }
  }

  /**
   When some usable image can be neither published nor posted, the reply is
   the blocks of the usable images before the first such position, then the
   error of its attachment post, and nothing after it.
   */
  lemma HandleDeliveryFailure(query: seq<string>, generate: GenerationRequest -> Generation,
                              keyDraws: nat -> Naming.KeyDraws, publish: (string, Bytes) -> Publication,
                              deliver: (string, Bytes) -> Delivery, j: nat)
    requires Prepare(query, generate).Ready?
    requires Undeliverable(Prepare(query, generate).request, Prepare(query, generate).images, j, keyDraws, publish, deliver)
    ensures var st := Prepare(query, generate);
            var first := FirstUndeliverable(st.request, st.images, 0, keyDraws, publish, deliver);
            && first.Some? && first.value <= j
            && Handle(query, generate, keyDraws, publish, deliver).events
                 == Blocks(st.request, st.images, UsableIndices(st.images[..first.value], 0), keyDraws, publish)
                    + [ErrorText(deliver(Naming.DisplayName(st.request.prompt, first.value), st.images[first.value].jpeg).message)]
  {
    hide Directive.ParseCorrected, Directive.Parse, Directive.CountError, Naming.DisplayName, Naming.StorageKey, Summary, PublishFrom, Blocks, FirstUndeliverable;
    var st := Prepare(query, generate);
    var first := FirstUndeliverable(st.request, st.images, 0, keyDraws, publish, deliver);
    PublishFromFirstFailure(st.request, st.images, 0, keyDraws, publish, deliver, first.value);
  }

  /**
   When every usable image can be published or posted, the reply is the
   blocks of the usable images in generation order and holds no error.
   */
  lemma HandleNoFailure(query: seq<string>, generate: GenerationRequest -> Generation,
                        keyDraws: nat -> Naming.KeyDraws, publish: (string, Bytes) -> Publication,
                        deliver: (string, Bytes) -> Delivery)
    requires Prepare(query, generate).Ready?
    requires forall j :: !Undeliverable(Prepare(query, generate).request, Prepare(query, generate).images, j, keyDraws, publish, deliver)
    ensures var st := Prepare(query, generate);
            var events := Handle(query, generate, keyDraws, publish, deliver).events;
            && events == Blocks(st.request, st.images, UsableIndices(st.images, 0), keyDraws, publish)
            && !HasError(events)
  {
    hide Directive.ParseCorrected, Directive.Parse, Directive.CountError, Naming.DisplayName, Naming.StorageKey, Summary, PublishFrom, Blocks;
    var st := Prepare(query, generate);
    PublishFromBlocks(st.request, st.images, 0, keyDraws, publish, deliver);
    PublishFromFailsIff(st.request, st.images, 0, keyDraws, publish, deliver);
  }
}
