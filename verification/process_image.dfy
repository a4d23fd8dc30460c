/**
 The per-node decision of `processImage`: which selected nodes yield an
 image datum, and which are skipped with a notification. The host's image
 store and its base64 encoder are oracles carried by `Host`.
 */
module ProcessImage {
  import opened Nullable
  import opened Hex
  import opened ContentType

  /** One paint of a node's `fills`; `imageHash` is `null` for non-image paints. */
  datatype Paint = Paint(kind: string, imageHash: Option<string>)

  /** What a node's `fills` property holds: nothing (absent or falsy), a
      truthy value that is not an array (the host's "mixed" marker), or an array. */
  datatype Fills = Absent | NotArray | Paints(items: seq<Paint>)

  /** A selected node: its identifier, its display name and its fills. */
  datatype Node = Node(id: string, name: string, fills: Fills)

  /** The host capabilities the plugin consults: the document's file key,
      the image store (`getImageByHash` finds a hash exactly when it is a key;
      `getBytesAsync` then yields the mapped bytes), `figma.base64Encode`, and
      whether the try block of `postData` completes without throwing. It
      throws when the fetch fails, when the status is not 2xx, when the
      response has no content-type header, or when a JSON-typed response
      body does not parse. */
  datatype Host = Host(
    fileKey: Option<string>,
    images: map<string, seq<bv8>>,
    encode: seq<bv8> -> string,
    requestSucceeds: bool)

  /** What is sent for one node. */
  datatype ImageDatum = ImageDatum(id: string, name: string, contentType: string, base64Image: string)

  /** Why a node yields nothing; each reason has its own notification. */
  datatype SkipReason = NoFills | NoFirstFill | NotImageFill | ImageNotFound | UnknownImageType

  /** The result of processing one node: a datum, or the notification it raised. */
  datatype Outcome = Produced(datum: ImageDatum) | Skipped(reason: SkipReason)

  const ImageKind: string := "IMAGE"

  /** The text passed to `figma.notify` for each skip reason. */
  function Notice(reason: SkipReason): string
  {
    match reason
    case NoFills => "Selected rectangle does not contain fills."
    case NoFirstFill => "Selected node does not contain image fills."
    case NotImageFill => "Selected rectangle does not contain an image fill."
    case ImageNotFound => "Image not found."
    case UnknownImageType => "Unknown image type."
  }

  /** No two reasons share a text, so a notification names the guard that failed. */
  lemma NoticesDistinct(a: SkipReason, b: SkipReason)
    ensures Notice(a) == Notice(b) <==> a == b
  {
  }

  /** JavaScript truthiness of an optional string: present and non-empty. */
  predicate Truthy(s: Option<string>)
  {
    s.Some? && s.value != ""
  }

  /** `fill.type === "IMAGE" && fill.imageHash`. */
  predicate IsImagePaint(p: Paint)
  {
    p.kind == ImageKind && Truthy(p.imageHash)
  }

  /** The decision for one node. Only the first element of `fills` is read. */
  function Process(node: Node, host: Host): (r: Outcome)
    ensures r.Produced? <==>
      && node.fills.Paints?
      && |node.fills.items| > 0
      && IsImagePaint(node.fills.items[0])
      && node.fills.items[0].imageHash.value in host.images
      && GetImageContentType(host.images[node.fills.items[0].imageHash.value]).Some?
    ensures r.Produced? ==>
      var bytes := host.images[node.fills.items[0].imageHash.value];
      && r.datum.id == node.id
      && r.datum.name == node.name
      && Some(r.datum.contentType) == GetImageContentType(bytes)
      && r.datum.base64Image == host.encode(bytes)
    ensures r.Produced? ==>
      r.datum.contentType == ImagePng || r.datum.contentType == ImageJpeg || r.datum.contentType == ImageGif
  {
    match node.fills
    case Absent => Skipped(NoFills)
    case NotArray => Skipped(NoFills)
    case Paints(items) =>
      if |items| == 0 then Skipped(NoFirstFill)
      else
        var fill := items[0];
        if !IsImagePaint(fill) then Skipped(NotImageFill)
        else if fill.imageHash.value !in host.images then Skipped(ImageNotFound)
        else
          var imageBytes := host.images[fill.imageHash.value];
          var contentType := GetImageContentType(imageBytes);
          if contentType.None? then Skipped(UnknownImageType)
          else Produced(ImageDatum(node.id, node.name, contentType.value, host.encode(imageBytes)))
  }

  /** The skip reasons, each tied to the first guard that fails. */
  lemma SkipReasons(node: Node, host: Host)
    ensures Process(node, host) == Skipped(NoFills) <==> !node.fills.Paints?
    ensures Process(node, host) == Skipped(NoFirstFill) <==> node.fills == Paints([])
    ensures Process(node, host) == Skipped(NotImageFill) <==>
      node.fills.Paints? && |node.fills.items| > 0 && !IsImagePaint(node.fills.items[0])
    ensures Process(node, host) == Skipped(ImageNotFound) <==>
      node.fills.Paints? && |node.fills.items| > 0 && IsImagePaint(node.fills.items[0])
      && node.fills.items[0].imageHash.value !in host.images
    ensures Process(node, host) == Skipped(UnknownImageType) <==>
      node.fills.Paints? && |node.fills.items| > 0 && IsImagePaint(node.fills.items[0])
      && node.fills.items[0].imageHash.value in host.images
      && GetImageContentType(host.images[node.fills.items[0].imageHash.value]).None?
  {
  }

  /** A first fill whose type is not "IMAGE", or whose hash is `null` or the
      empty string (both falsy in JavaScript), is reported as not being an
      image fill, whatever the host holds. */
  lemma FalsyGuardSkips(node: Node, host: Host)
    requires node.fills.Paints? && |node.fills.items| > 0
    requires var fill := node.fills.items[0];
      fill.kind != "IMAGE" || fill.imageHash == None || fill.imageHash == Some("")
    ensures Process(node, host) == Skipped(NotImageFill)
  {
  }

  /** A node yields a datum exactly when its first fill is an image paint
      whose bytes the host finds and whose bytes begin with the PNG, JPEG
      or GIF signature; the datum's content type names that signature. */
  lemma ProducedIffKnownSignature(node: Node, host: Host)
    ensures Process(node, host).Produced? <==>
      && node.fills.Paints?
      && |node.fills.items| > 0
      && IsImagePaint(node.fills.items[0])
      && node.fills.items[0].imageHash.value in host.images
      && var bytes := host.images[node.fills.items[0].imageHash.value];
         StartsWith(bytes, PngSignature) || StartsWith(bytes, JpegSignature) || StartsWith(bytes, GifSignature)
    ensures Process(node, host).Produced? ==>
      var bytes := host.images[node.fills.items[0].imageHash.value];
      && (Process(node, host).datum.contentType == ImagePng <==> StartsWith(bytes, PngSignature))
      && (Process(node, host).datum.contentType == ImageJpeg <==> StartsWith(bytes, JpegSignature))
      && (Process(node, host).datum.contentType == ImageGif <==> StartsWith(bytes, GifSignature))
  {
    if node.fills.Paints? && |node.fills.items| > 0 && IsImagePaint(node.fills.items[0])
       && node.fills.items[0].imageHash.value in host.images {
      ContentTypeBySignature(host.images[node.fills.items[0].imageHash.value]);
    }
  }

  /** Only the first fill is inspected: fills that agree on their first
      element give the same outcome, whatever follows it. */
  lemma FirstFillOnly(node: Node, rest: seq<Paint>, host: Host)
    requires node.fills.Paints? && |node.fills.items| > 0
    ensures Process(node, host) == Process(node.(fills := Paints([node.fills.items[0]] + rest)), host)
  {
  }
}
