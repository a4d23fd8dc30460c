# Image selection sender: content-type sniffing and per-node selection

A Dafny model of the logic in `code.ts` of a design-tool plugin. When the UI
posts the submit command, the plugin inspects each selected node's first
fill. It fetches the bytes of image fills, classifies them by magic number,
base64-encodes them and POSTs the collected data to a target URL.

The model has five modules:

- `Nullable`: an `Option` type standing for TypeScript's `null` and `undefined`.
- `Hex`: a byte written as two lowercase, zero-padded hex digits; the
  concatenation of those digits; and `startsWith`. Its main lemma says that a
  prefix test on the hex text is the same as a prefix test on the bytes.
- `ContentType`: the sniffer `getImageContentType`. It is proved to return
  each content type exactly for buffers that begin with that format's byte
  signature. The PNG signature is the first four bytes of the eight-byte
  signature of section 5.2 of the W3C PNG specification. The JPEG one is the
  SOI marker of Table B.1 of ITU-T T.81. The GIF one is the "GIF" signature
  of section 17 of the GIF89a specification.
- `ProcessImage`: the guards of `processImage` over an abstract node, with the
  host's image store and base64 encoder as oracles in `Host`.
- `Handler`: the accumulation loop of the message handler and the trace of
  effects it issues (notifications, plugin closes, the POST).

Bytes are `seq<bv8>`. Each host call is either an oracle or an entry in the
effect trace:

- `figma.getImageByHash` followed by `getBytesAsync` is the map `Host.images`.
  A hash is found exactly when it is a key.
- `figma.base64Encode` is the function `Host.encode`.
- `figma.fileKey` is `Host.fileKey`.
- Whether the try block of `postData` (code.ts:69-86) completes without
  throwing is `Host.requestSucceeds`.
- `figma.notify`, `figma.closePlugin` and the request of `postData` are
  `Effect`s.

The code does not return after `figma.closePlugin`. Whether the host keeps
running the script after that call is host behaviour. So `HandleMessage`
records every effect the code issues, in program order. `UntilClose` gives
the view of a host that ends the session at the first close. Lemmas are
stated for both views.

Two consequences of the code as written:

- Every node for which `processImage` yields no datum makes the handler call
  `closePlugin('ImageDatum not found')` (code.ts:43-47). On every path the
  model keeps, that close follows the notification `processImage` raised.
  `StepTrace` records that close. Under
  the halting view, any such node therefore prevents the request
  (`HaltingSubmitSomeSkipped`).
- An empty selection closes with the prompt (code.ts:35-37) and then carries
  on. As written, it posts an empty list and closes again with "Data sent
  successfully" (`EmptySelection`).

`postData` (code.ts:67-91) closes with "Sorry, something went wrong!" from
its catch whenever its try block (code.ts:69-86) throws. Whether the try
block completes without throwing is the host oracle `Host.requestSucceeds`.
It throws when the fetch fails, when the status is not 2xx, when the
response lacks a content-type header, or when a JSON-typed response body
does not parse (code.ts:83). `RequestOutcome` adds the failure close to the
trace.

The loop's definitions (`ImageDataOf`, `LoopTrace`) and the lemmas about
their shape take the per-node decision as a parameter. `Decide(host)` is
`processImage` against a host, so each of those lemmas holds of the handler
in particular.

## Model

| member | source | states |
|---|---|---|
| Hex.HexDigit | code.ts:148 | the digit written for a value below sixteen is a lowercase hex digit that reads back as that value |
| Hex.ByteHex | code.ts:148 | a byte becomes exactly two lowercase hex digits whose value, high digit first, is the byte (zero padding included) |
| Hex.ByteHexInjective | code.ts:148 | two bytes have the same two-digit rendering if and only if they are equal |
| Hex.HexString | code.ts:147-149 | the joined rendering is twice as long as the bytes, holds only lowercase hex digits, and positions 2i and 2i+1 are the digits of byte i |
| Hex.StartsWithPointwise | code.ts:152-156 | `startsWith` holds exactly when the prefix is no longer than the text and agrees with it at every position |
| Hex.StartsWithSplit | code.ts:152 | a prefix test on two concatenations with equal-length heads holds exactly when the heads are equal and the tails pass the test |
| Hex.HexPrefixIffBytePrefix | code.ts:146-152 | the hex text of a buffer starts with the hex text of a signature if and only if the buffer starts with the signature |
| ContentType.HeaderLength | code.ts:146 | the header keeps min(4, length) bytes |
| ContentType.HexHeader | code.ts:146-149 | the hex header has length 2·min(4, length), and its character pairs are the renderings of the first bytes, in order |
| ContentType.GetImageContentType | code.ts:145-160 | the verdict is null or one of "image/png", "image/jpeg", "image/gif" |
| ContentType.MagicIsSignatureHex | code.ts:152-156 | the three hex magic strings are the renderings of the byte signatures 89 50 4E 47, FF D8 and 47 49 46 |
| ContentType.PngMagicHex | code.ts:152 | "89504e47" is the rendering of the bytes 89 50 4E 47 |
| ContentType.JpegMagicHex | code.ts:154 | "ffd8" is the rendering of the bytes FF D8 |
| ContentType.GifMagicHex | code.ts:156 | "474946" is the rendering of the bytes 47 49 46 |
| ContentType.SignaturesDisjoint | code.ts:152-158 | no buffer begins with two of the signatures, so the order of the tests never changes the verdict |
| ContentType.HeaderBytesPrefix | code.ts:146 | a signature of at most four bytes prefixes the kept header bytes exactly when it prefixes the whole buffer |
| ContentType.HeaderPrefixIffBufferPrefix | code.ts:146-152 | a signature of at most four bytes prefixes the hex header if and only if it prefixes the whole buffer |
| ContentType.ContentTypeBySignature | code.ts:145-160 | PNG, JPEG and GIF are each returned exactly for the buffers beginning with their byte signature, and null exactly for buffers beginning with none |
| ContentType.PngRecognised | code.ts:152-153 | every buffer beginning 0x89 0x50 0x4E 0x47 is "image/png" |
| ContentType.JpegRecognised | code.ts:154-155 | every buffer beginning 0xFF 0xD8 is "image/jpeg" |
| ContentType.GifRecognised | code.ts:156-157 | every buffer beginning 0x47 0x49 0x46 is "image/gif" |
| ContentType.ShortBuffersUnknown | code.ts:146-159 | the empty buffer, a lone 0xFF and a PNG signature cut to three bytes are all null |
| ContentType.OnlyHeaderMatters | code.ts:146 | buffers that agree on their first min(4, length) bytes get the same verdict |
| ProcessImage.NoticesDistinct | code.ts:99-141 | the five notification texts are pairwise different, so each names the guard that failed |
| ProcessImage.Process | code.ts:93-143 | a datum is produced if and only if: fills is an array; its first element exists; that element is an IMAGE paint with a non-empty hash; the hash is found; and the bytes are classified. The datum copies id and name, carries the sniffer's verdict and the encoding of the bytes, and its content type is one of the three known ones |
| ProcessImage.SkipReasons | code.ts:96-142 | each of the five notifications (no fills, no first fill, not an image fill, image not found, unknown image type) is raised exactly when its guard is the first to fail |
| ProcessImage.FalsyGuardSkips | code.ts:104-139 | a first fill whose type is not "IMAGE", or whose hash is null or the empty string (both falsy), is reported as not being an image fill, whatever the host holds |
| ProcessImage.ProducedIffKnownSignature | code.ts:104-133 | a node yields a datum exactly when its first fill's image is found and its bytes begin with the PNG, JPEG or GIF signature, and the datum's content type names that signature |
| ProcessImage.FirstFillOnly | code.ts:97 | fills that agree on their first element give the same outcome, whatever follows |
| Handler.ImageDataOf | code.ts:39-48 | the accumulated list is no longer than the selection |
| Handler.StepTrace | code.ts:41-47 | an iteration has no effect exactly when its node yields a datum; otherwise, on the paths the model keeps, it issues a notification and then the "ImageDatum not found" close |
| Handler.LoopTrace | code.ts:41-47 | on the paths the model keeps, the loop issues an even number of effects, at most two per node, and only notifications and "ImageDatum not found" closes |
| Handler.LoopTracePairs | code.ts:41-47 | on the paths the model keeps, the loop's effects come in pairs: every notification is followed directly by the "ImageDatum not found" close |
| Handler.CollectImageData | code.ts:39-48 | the loop's list and effects are the recursive definitions of the accumulated data and of the loop's trace |
| Handler.SplitAt | code.ts:33-64 | in a trace built around one effect, that effect sits right after the prefix, and the prefix and the rest are recovered by slicing |
| Handler.HandleMessage | code.ts:30-65 | every message ends with the "Data sent successfully" close, and a request is made if and only if the message is the submit command |
| Handler.UntilClose | code.ts:36-64 | the halting view is a prefix of the trace, contains no close before its last element, stops at a close whenever it is shorter than the trace, and is the whole trace when nothing closes |
| Handler.ImageDataAppend | code.ts:41-44 | the data of a concatenated selection are the concatenation of the data, so selection order is kept |
| Handler.ImageDataMembership | code.ts:41-44 | a datum is in the list if and only if some selected node produced it |
| Handler.ImageDataAllProduced | code.ts:41-44 | when every node produces, the list has one datum per node, and the i-th datum is the one the i-th node produced |
| Handler.ImageDataCopiesNodes | code.ts:41-44 | when `processImage` yields a datum for every selected node, the i-th datum sent carries the i-th node's id and name and one of the three content types |
| Handler.LoopTraceNoPost | code.ts:41-48 | the loop issues no request |
| Handler.HasCloseAppend | code.ts:41-64 | a concatenation of traces closes the plugin exactly when one of its parts does |
| Handler.StepTraceCloses | code.ts:43-47 | an iteration closes the plugin exactly when its node yields no datum |
| Handler.SkippedNodeCloses | code.ts:41-48 | any node that yields no datum makes the loop close the plugin |
| Handler.CloseHasSkippedNode | code.ts:41-48 | a close in the loop's effects points to a node that yielded no datum |
| Handler.LoopTraceCloses | code.ts:41-48 | the loop closes the plugin if and only if some node yields no datum |
| Handler.LoopTraceEmpty | code.ts:41-48 | the loop has no effect if and only if every node yields a datum |
| Handler.UntilCloseStopsInPrefix | code.ts:46-64 | once a close has been issued, later effects are not in the halting view |
| Handler.OtherMessageOnlyCloses | code.ts:33-64 | a message other than the submit command makes no request and only closes with the success message |
| Handler.SubmitPostsOnce | code.ts:33-89 | the submit command makes exactly one request, after the loop's effects, carrying the URL, token, event type, file key and accumulated data; it is followed by the success close alone when `postData`'s try block completes, and by "Sorry, something went wrong!" and then the success close when it throws |
| Handler.EmptySelection | code.ts:34-89 | with nothing selected, the code as written closes with the prompt, then posts an empty list, closes with the failure message if the request fails, and closes with the success message; the halting view shows the prompt only |
| Handler.HaltingSubmitAllProduced | code.ts:39-89 | under the halting view, when every selected node yields a datum, the request carries one datum per node; the session ends at the success close if `postData`'s try block completes and at the failure close otherwise |
| Handler.HaltingSubmitSomeSkipped | code.ts:41-48 | under the halting view, a selection with a node that yields no datum never reaches the request |
| Handler.NoFillThenPngLoop | code.ts:39-48 | for a node without fills followed by a PNG node, the loop keeps the PNG node's datum alone and issues the first node's notification and a close |
| Handler.NoFillThenPng | code.ts:39-64 | for a node without fills followed by a PNG node, the trace is the first node's notification, a close, the request carrying the PNG datum alone, the failure close if the request fails, and the success close |

## Left out

- The exception path of `processImage` (code.ts:105, 134-136) is not modelled. If `getImageByHash` or `getBytesAsync` throws, the error is logged and the node yields nothing, with no notification. In the model a hash that is a key of `Host.images` always yields its bytes, and `Host.encode` is total, so nothing throws and there is no catch path. In the code, a node whose image or bytes cannot be read closes with "ImageDatum not found" and no notification before it. So the notification-then-close shape of `StepTrace`, the even length of `LoopTrace` and the pairing of `LoopTracePairs` hold of the model only.
- Handler.StepTrace: notification-then-close holds only on the modelled paths; a node whose bytes cannot be read (code.ts:134-136) issues the close alone, because that catch path is left out.
- Handler.LoopTrace: the even number of effects holds only on the modelled paths, because the catch path of code.ts:134-136 is left out.
- Handler.LoopTracePairs: the pairing holds only on the modelled paths, because the catch path of code.ts:134-136 is left out.
- `postData` (code.ts:67-91) is modelled as the `Post` effect with its payload, followed by the "Sorry, something went wrong!" close when `Host.requestSucceeds` is false. The fetch itself, the headers, JSON serialisation and response parsing are network I/O against the host and are left out; which of them made the try block throw is not distinguished.
- Base64 encoding (code.ts:162-166) is the host oracle `Host.encode`, not an implementation.
- `figma.showUI`, `figma.ui.resize` and the handler registration (code.ts:9-11, 30) are UI lifecycle and are left out.
- `console.log` and `console.error` are logging only and are left out.
- The async/await sequencing is dropped. Each awaited call is a plain function application, in the same order.
- The identifier-only variant of the plugin is not part of this model.
