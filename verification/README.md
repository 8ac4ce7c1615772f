# Imagen chat-bot request handling, modelled in Dafny

This project models the request-handling core of two chat-bot handlers that
turn the last chat message into generated images:

- `GCS/imagen_bot_poe.py` uploads each image to a storage bucket under a random
  key and streams a markdown link to a signed URL. When uploading or signing
  fails, it posts the image as an attachment and streams a summary text at once.
- `out_gcp/imagne3_peo_test.py` posts every image as an attachment and streams
  one summary text after the loop.

Both handlers do the same front work. They read the last message and answer an
empty one with `Prompt is required`. They parse the
`--number_of_images\s*=\s*(\d+)` directive: the count comes from the leftmost
match, clamped to 1..4, every match is deleted with `re.sub`, and the rest is
stripped. A message without a directive passes through unstripped. A count
with more than 4300 digits makes `int()` raise, and the only reply is the
`Error:` text of that exception. They call
the generator once and answer an empty batch with one fixed text. Any
exception becomes one final `Error: <message>` text.

Modules, one per concern:

| file | module | models |
|---|---|---|
| `strings.dfy` | `Strings` | Python whitespace (the 29 characters for which `str.isspace` holds, used by `\s` and `strip()`), digits, `strip()`, `s[:n]`, `replace(" ", "_")`, `str(n)` and `int(digits)` |
| `directive.dfy` | `Directive` | the directive regex as a hand-written matcher, `re.search`, `re.sub`, clamping and parsing, plus the corrected parser of the finding below |
| `naming.dfy` | `Naming` | the display name `prompt[:10]`-based file name and the 24-character random storage key |
| `pipeline.dfy` | `Pipeline` | events, replies, fixed messages and the front of the flow shared by both handlers |
| `gcs_bot.dfy` | `GcsBot` | `GCS/imagen_bot_poe.py` |
| `attach_bot.dfy` | `AttachBot` | `out_gcp/imagne3_peo_test.py` |
| `wrappers.dfy` | `Wrappers` | `Option` |

The collaborators are parameters of the handlers:

- `generate: GenerationRequest -> Generation` returns the generated images or the error raised.
- `publish: (key, jpeg) -> Publication` is upload plus URL signing: `Published(url)` or `PublishFailed`.
- `deliver: (filename, jpeg) -> Delivery` is `post_message_attachment`.
- `keyDraws: nat -> KeyDraws` supplies the 24 `random.choice` results for the image at each position.

A reply records the generation call made, if any, and the ordered events:
`Text` for a streamed partial response and `Attachment` for a posted file.

## Model

| member | source | states |
|---|---|---|
| `Strings.Strip` | GCS/imagen_bot_poe.py:80 | `strip()` returns the infix that is surrounded by whitespace only and neither starts nor ends with whitespace |
| `Strings.DecimalString` | GCS/imagen_bot_poe.py:146 | `str(n)` is a non-empty digit run without a leading zero, and `int()` reads it back as `n` |
| `Directive.MatchAt` | GCS/imagen_bot_poe.py:67 | a match found at a position is a well-formed directive (flag, whitespace, `=`, whitespace, at least one digit) spelled out there, and its digit run is maximal |
| `Directive.MatchAtFinds` | GCS/imagen_bot_poe.py:67 | wherever a well-formed directive is spelled out, the matcher finds one with the same whitespace and a digit run that extends it |
| `Directive.MatchAtExactly` | GCS/imagen_bot_poe.py:67 | the matcher returns an occurrence if and only if it is well formed, spelled out at that position, and its digits cannot be extended |
| `Directive.SearchFrom` | GCS/imagen_bot_poe.py:67 | `re.search` returns the leftmost match, with no match before it; it returns nothing only when no position matches |
| `Directive.SearchFromLeftmost` | GCS/imagen_bot_poe.py:67 | conversely, a match with no match before it is exactly the one `re.search` returns |
| `Directive.NoMatchWithoutFlag` | GCS/imagen_bot_poe.py:67 | no match starts where the literal flag is not spelled out |
| `Directive.RemoveAllWithoutMatch` | GCS/imagen_bot_poe.py:80 | `re.sub` leaves a message without a directive unchanged |
| `Directive.RemoveAllShrinks` | GCS/imagen_bot_poe.py:80 | when there is a directive, `re.sub` removes at least the whole leftmost match |
| `Directive.Clamp` | GCS/imagen_bot_poe.py:72-77 | the count is always in 1..4; it is `n` for `n` in 1..4, 1 for `n = 0` and 4 for `n > 4` |
| `Directive.Parse` | GCS/imagen_bot_poe.py:63-80 | count in 1..4; without a directive the message passes through unchanged, not stripped, with count 1; with one the prompt gets strictly shorter |
| `Directive.CountError` | GCS/imagen_bot_poe.py:70 | `int()` fails exactly when the leftmost directive's digit run is longer than 4300 digits, with CPython's message naming the limit and the length |
| `Directive.CountFromFirstDirective` | out_gcp/imagne3_peo_test.py:56-69 | the count is decided by the leftmost match alone, and the prompt is the stripped result of deleting every match |
| `Directive.ParseIdempotentWhenClean` | out_gcp/imagne3_peo_test.py:69 | when the cleaned prompt holds no directive, parsing it again gives the same prompt and count 1 |
| `Directive.ParseNotIdempotent` | GCS/imagen_bot_poe.py:80 | as written, a message asking for one image can leave a directive in its cleaned prompt, and parsing that prompt again asks for four images and leaves an empty prompt |
| `Directive.StripKeepsNoDirective` | GCS/imagen_bot_poe.py:80 | stripping whitespace never creates a directive |
| `Directive.RemoveAllRepeatedly` | GCS/imagen_bot_poe.py:79-80 | deleting matches until none is left yields a text with no directive, no longer than the input |
| `Directive.ParseCorrected` | GCS/imagen_bot_poe.py:66-80 | the corrected parser's count is in 1..4, it passes a directive-free message through unchanged with count 1, and its prompt never holds a directive |
| `Directive.ParseCorrectedCount` | GCS/imagen_bot_poe.py:67-77 | the corrected parser reads the same count as the code as written |
| `Directive.ParseCorrectedIdempotent` | out_gcp/imagne3_peo_test.py:68-69 | re-parsing the corrected prompt, by either parser, changes nothing and gives count 1 |
| `Directive.ParseCorrectedAgrees` | out_gcp/imagne3_peo_test.py:69 | whenever `re.sub` leaves no directive behind, the corrected parser and the code as written agree |
| `Naming.RandomString` | GCS/imagen_bot_poe.py:100-102 | the random string has 24 characters, each the alphabet letter or digit its draw selects |
| `Naming.RandomStringBijective` | GCS/imagen_bot_poe.py:100-102 | every 24-character alphanumeric string comes from exactly one run of draws |
| `Strings.Take` | GCS/imagen_bot_poe.py:145 | `s[:n]` is the prefix of length `n`, or all of `s` when it is shorter |
| `Strings.ReplaceSpaces` | GCS/imagen_bot_poe.py:145 | `replace(" ", "_")` keeps the length and changes exactly the spaces, into `_` |
| `Naming.StorageKey` | GCS/imagen_bot_poe.py:149 | the storage key is 24 ASCII letters or digits followed by `.jpg` |
| `Naming.DisplayName` | GCS/imagen_bot_poe.py:145-146 | the display name starts with the first ten prompt characters with spaces turned into `_`, then `_image_`, then a number that reads back as index + 1, then `.jpg` |
| `Naming.DisplayNamesDistinct` | out_gcp/imagne3_peo_test.py:102-103 | images at different positions of one batch get different display names |
| `Pipeline.Summary` | GCS/imagen_bot_poe.py:177 | the summary is the count in decimal, the fixed middle, then the prompt in quotes and a full stop; it is never mistaken for an error report |
| `Pipeline.SummaryInjective` | GCS/imagen_bot_poe.py:177 | different count and prompt pairs never give the same summary, so a summary names its request |
| `Pipeline.Prepare` | GCS/imagen_bot_poe.py:56-97 | an early exit yields exactly one text; generation is skipped exactly when there is no message, it is empty, or its count is too long for `int()`, which yields only that error text; otherwise the generator is called once with the prompt and count of the corrected parser and returned a non-empty batch |
| `Pipeline.PrepareAgreesAsWritten` | GCS/imagen_bot_poe.py:63-97 | unless deleting the directives splices a new one together, the request handed to the generator is the one the code as written builds |
| `Pipeline.AttachmentsFor` | out_gcp/imagne3_peo_test.py:101-110 | one attachment per listed position, in order, each carrying the display name of its position |
| `Pipeline.UsableIndices` | GCS/imagen_bot_poe.py:132-136 | exactly the positions of the images with pixel data, in increasing order |
| `GcsBot.MarkdownImage` | GCS/imagen_bot_poe.py:162 | the link is a fixed opening, the image's name, `](`, the signed URL and `)`; it starts with `!` and so is never an error report |
| `GcsBot.MarkdownImageUrl` | GCS/imagen_bot_poe.py:162 | for a given image name the link determines the signed URL it points at |
| `GcsBot.ImageEvents` | GCS/imagen_bot_poe.py:151-177 | a published image yields exactly the link to its signed URL under its display name; otherwise it yields its attachment under its display name followed by the summary |
| `GcsBot.PublishFrom` | GCS/imagen_bot_poe.py:132-181 | an error text can only be the last event of the loop |
| `GcsBot.HandleShape` | GCS/imagen_bot_poe.py:50-70 | an empty conversation gives one `Error:` text, an empty message only `Prompt is required` and an over-long count only the `int()` error, none with a generation call; in any reply an error text can only come last |
| `GcsBot.HandleRequest` | GCS/imagen_bot_poe.py:63-97 | an over-long count gives only the `int()` error; otherwise a non-empty message is generated from the prompt and count of the corrected parser, in English at 1:1, and from the message itself with count 1 when it holds no directive; an empty batch gives only the no-images text and a generation error only `Error: <message>` |
| `GcsBot.PublishFromBlocks` | GCS/imagen_bot_poe.py:132-177 | when every usable image can be published or posted, skipped images emit nothing and each usable image, in generation order, emits exactly its own events |
| `GcsBot.BlocksAllPublished` | GCS/imagen_bot_poe.py:151-166 | when every image is published, each usable image gives exactly one link to its own signed URL under its display name |
| `GcsBot.HandleAllPublished` | GCS/imagen_bot_poe.py:132-166 | when every image is published, the reply is one link per usable image in generation order and nothing else |
| `GcsBot.BlocksNonePublished` | GCS/imagen_bot_poe.py:168-177 | when no image is published, each usable image gives its attachment followed by a summary |
| `GcsBot.HandleNonePublished` | GCS/imagen_bot_poe.py:168-177 | when nothing is published, the reply alternates attachment and summary, so there is one summary per usable image and each quotes the requested count |
| `GcsBot.HandleAllSkipped` | GCS/imagen_bot_poe.py:132-136 | a non-empty batch with no pixel data gets an empty reply |
| `GcsBot.PublishFromEqualWhenPublished` | GCS/imagen_bot_poe.py:151-166 | when every image is published, the attachment poster is never consulted |
| `GcsBot.PublishFromFailsIff` | GCS/imagen_bot_poe.py:168-181 | the loop emits an error text exactly when some usable image can be neither published nor posted |
| `GcsBot.FirstUndeliverable` | GCS/imagen_bot_poe.py:132-181 | the first position whose image can be neither published nor posted, with every earlier one deliverable; none exactly when every image is |
| `GcsBot.PublishFromFirstFailure` | GCS/imagen_bot_poe.py:132-181 | the loop emits the blocks of the usable images before the first undeliverable one, in order, then the error of its attachment post, and nothing after |
| `GcsBot.HandleDeliveryFailure` | GCS/imagen_bot_poe.py:132-181 | when some image can be neither published nor posted, the reply is the blocks before the first such image followed by `Error: <message>` of its post |
| `GcsBot.HandleNoFailure` | GCS/imagen_bot_poe.py:132-177 | when every image can be published or posted, the reply is the blocks of the usable images in order and holds no error |
| `AttachBot.AttachFrom` | out_gcp/imagne3_peo_test.py:89-110 | the loop emits only attachments |
| `AttachBot.HandleShape` | out_gcp/imagne3_peo_test.py:39-117 | an empty conversation, an empty message and an over-long count each get one text and no generation; every reply is a run of attachments closed by exactly one text |
| `AttachBot.HandleRequest` | out_gcp/imagne3_peo_test.py:52-87 | an over-long count gives only the `int()` error; otherwise a non-empty message is generated from the prompt and count of the corrected parser; an empty batch gives only the no-images text and a generation error only `Error: <message>` |
| `Pipeline.FirstUnpostable` | out_gcp/imagne3_peo_test.py:89-110 | the first position whose image cannot be posted, with every earlier one postable; none exactly when every image can be posted |
| `AttachBot.AttachFromFirstFailure` | out_gcp/imagne3_peo_test.py:89-117 | the loop posts the usable images before the first unpostable one, in order, and stops with the error of that post |
| `AttachBot.AttachFromDelivered` | out_gcp/imagne3_peo_test.py:89-110 | when every usable image can be posted, the loop posts exactly the usable images, in generation order, each under the display name of its position |
| `AttachBot.AttachFromFailsIff` | out_gcp/imagne3_peo_test.py:105-117 | the loop stops with an error exactly when some usable image cannot be posted |
| `AttachBot.HandleDelivered` | out_gcp/imagne3_peo_test.py:89-113 | when every usable image can be posted, the reply is the usable images' attachments in order, then one summary quoting the requested count and cleaned prompt, even when images were skipped |
| `AttachBot.AttachmentsForNamesDistinct` | out_gcp/imagne3_peo_test.py:102-103 | attachments for increasing positions carry pairwise different file names |
| `AttachBot.AttachmentNamesDistinct` | out_gcp/imagne3_peo_test.py:101-110 | the attachments of one reply carry pairwise different file names, whether or not a post failed |
| `AttachBot.HandleDeliveryFailure` | out_gcp/imagne3_peo_test.py:101-117 | a failed post ends the reply: it is the attachments of the usable images before the first unpostable one, then `Error: <message>` of that post, and no summary is sent |

## Findings

| source | as written | input that shows it | evidently intended | confidence | as-written member | corrected member |
|---|---|---|---|---|---|---|
| GCS/imagen_bot_poe.py:80 (also out_gcp/imagne3_peo_test.py:69) | `re.sub` deletes each match once, left to right, so the text on either side of a deleted match can join into a new directive | `--number_of_images --number_of_images=1 =5` is cleaned to `--number_of_images  =5` with count 1; that prompt, which reaches the generator, still holds a directive, and parsing it again gives count 4 and an empty prompt | the cleaned prompt holds no directive, so parsing it again changes nothing | medium; not executed | `Directive.ParseNotIdempotent` | `Directive.ParseCorrected` |

`Directive.Parse` is the parser as written. `Directive.ParseCorrected` deletes
matches until none is left and keeps the as-written count. It has the intended
property, and `Directive.ParseCorrectedAgrees` shows that it differs from the
code only on such spliced inputs. Both handler models parse with
`Directive.ParseCorrected`, and `Pipeline.PrepareAgreesAsWritten` shows that
their requests match the code as written on every other input.

## Behaviours worth knowing

- A prompt without a directive is neither trimmed nor otherwise changed (`GCS/imagen_bot_poe.py:80` strips only after a match).
- The link handler sends one summary after each fallback attachment, not one after the loop (`GCS/imagen_bot_poe.py:177`).
- For a batch with no usable image, `GCS/imagen_bot_poe.py` sends nothing at all, while `out_gcp/imagne3_peo_test.py` still sends its summary.

## Left out

- FastAPI and uvicorn setup, `fp.make_app`, and the environment-variable checks: process bootstrap, not request handling.
- Vertex AI initialisation and `generate_images`: a foreign model call, replaced by the `generate` parameter. Nothing forces the batch to hold at most `count` images, and neither does the code.
- PIL JPEG encoding: a foreign library. A usable image carries its encoded bytes, so an encoding failure, which the outer handler would report, is not modelled.
- Upload, `generate_signed_url`, credential refresh and `IDTokenCredentials`: remote I/O and signing, folded into one `publish` outcome per image. The 60-minute expiry and URL version belong to that collaborator.
- `post_message_attachment`: an async transport call, modelled as the `deliver` outcome and an `Attachment` event.
- Async streaming and logging. The bare `except:` around the link path would also catch an exception thrown into the generator while the link text is being yielded; that is not modelled.
- Randomness: `keyDraws` gives the draws for the image at each batch position instead of one shared stream. Only the key's shape and its coverage of all names are stated; key uniqueness across images is not promised, and the code does not promise it either.
- `\d` and `int()`: Python also accepts non-ASCII Unicode decimal digits; the model accepts ASCII `0`-`9` only.
- `Pipeline.Prepare`: the request is built from `Directive.ParseCorrected`, so on a message where `re.sub` splices a new directive together the modelled prompt differs from the one the code sends (see the finding); `Pipeline.PrepareAgreesAsWritten` states that on every other message the request is exactly the code's.
- `GcsBot.HandleRequest`: built on `Pipeline.Prepare`, so the same divergence on spliced messages applies.
- `AttachBot.HandleRequest`: built on `Pipeline.Prepare`, so the same divergence on spliced messages applies.
- `Directive.Parse`: reads a digit run of any length; the `int()` limit of 4300 digits is checked before parsing, by `Pipeline.Prepare` through `Directive.CountError`, so a message over the limit never reaches the parser. `Directive.ParseCorrected` is the same in this respect.
- `Directive.CountError`: the error text follows CPython 3.12's wording; an interpreter without the limit (before 3.11 and its security backports) never takes that path.
