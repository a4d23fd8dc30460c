/**
 The image content-type sniffer `getImageContentType`: the first (up to)
 four bytes of a buffer are rendered as hex and compared, in order, with
 three magic-number prefixes; the first match wins and no match gives `null`.
 */
module ContentType {
  import opened Nullable
  import opened Hex

  const ImagePng: string := "image/png"
  const ImageJpeg: string := "image/jpeg"
  const ImageGif: string := "image/gif"

  /** The hex prefixes the sniffer tests, in the order it tests them. */
  const PngMagic: string := "89504e47"
  const JpegMagic: string := "ffd8"
  const GifMagic: string := "474946"

  /** The same magic numbers as bytes. The PNG one is the first half of the
      eight-byte signature of section 5.2 of the W3C PNG specification; the
      JPEG one is the SOI marker of Table B.1 of ITU-T T.81; the GIF one is
      the "GIF" signature of section 17 of the GIF89a specification. */
  const PngSignature: seq<bv8> := [0x89, 0x50, 0x4E, 0x47]
  const JpegSignature: seq<bv8> := [0xFF, 0xD8]
  const GifSignature: seq<bv8> := [0x47, 0x49, 0x46]

  /** How many bytes `subarray(0, 4)` keeps. */
  function HeaderLength(bytes: seq<bv8>): (n: nat)
    ensures n <= 4 && n <= |bytes|
    ensures n == 4 || n == |bytes|
  {
    if |bytes| < 4 then |bytes| else 4
  }

  /** The hex header: the first four bytes (fewer if the buffer is shorter),
      two lowercase digits per byte. */
  function HexHeader(bytes: seq<bv8>): (h: string)
    ensures |h| == 2 * HeaderLength(bytes)
    ensures forall i :: 0 <= i < HeaderLength(bytes) ==>
      h[2 * i] == ByteHex(bytes[i])[0] && h[2 * i + 1] == ByteHex(bytes[i])[1]
  {
    HexString(bytes[..HeaderLength(bytes)])
  }

  /** The sniffer itself; `None` models the `null` it returns for an unknown type. */
  function GetImageContentType(bytes: seq<bv8>): (r: Option<string>)
    ensures r.Some? ==> r.value == ImagePng || r.value == ImageJpeg || r.value == ImageGif
  {
    var hexHeader := HexHeader(bytes);
    if StartsWith(hexHeader, PngMagic) then Some(ImagePng)
    else if StartsWith(hexHeader, JpegMagic) then Some(ImageJpeg)
    else if StartsWith(hexHeader, GifMagic) then Some(ImageGif)
    else None
  }

  /** Each hex magic string is the rendering of the corresponding byte signature. */
  lemma MagicIsSignatureHex()
    ensures PngMagic == HexString(PngSignature)
    ensures JpegMagic == HexString(JpegSignature)
    ensures GifMagic == HexString(GifSignature)
  {
    PngMagicHex();
    JpegMagicHex();
    GifMagicHex();
  }

  lemma PngMagicHex()
    ensures PngMagic == HexString(PngSignature)
  {
    assert ByteHex(0x89) == "89" && ByteHex(0x50) == "50" && ByteHex(0x4E) == "4e" && ByteHex(0x47) == "47";
    assert HexString(PngSignature) == ByteHex(0x89) + ByteHex(0x50) + ByteHex(0x4E) + ByteHex(0x47) + HexString([]);
  }

  lemma JpegMagicHex()
    ensures JpegMagic == HexString(JpegSignature)
  {
    assert ByteHex(0xFF) == "ff" && ByteHex(0xD8) == "d8";
    assert HexString(JpegSignature) == ByteHex(0xFF) + ByteHex(0xD8) + HexString([]);
  }

  lemma GifMagicHex()
    ensures GifMagic == HexString(GifSignature)
  {
    assert ByteHex(0x47) == "47" && ByteHex(0x49) == "49" && ByteHex(0x46) == "46";
    assert HexString(GifSignature) == ByteHex(0x47) + ByteHex(0x49) + ByteHex(0x46) + HexString([]);
  }

  /** No buffer starts with two of the signatures, so the order of the tests
      never decides the verdict. */
  lemma SignaturesDisjoint(bytes: seq<bv8>)
    ensures !(StartsWith(bytes, PngSignature) && StartsWith(bytes, JpegSignature))
    ensures !(StartsWith(bytes, PngSignature) && StartsWith(bytes, GifSignature))
    ensures !(StartsWith(bytes, JpegSignature) && StartsWith(bytes, GifSignature))
  {
    if StartsWith(bytes, PngSignature) { assert bytes[0] == PngSignature[0]; }
    if StartsWith(bytes, JpegSignature) { assert bytes[0] == JpegSignature[0]; }
  }

  /** A signature of at most four bytes prefixes the kept header bytes
      exactly when it prefixes the whole buffer. */
  lemma HeaderBytesPrefix(bytes: seq<bv8>, sig: seq<bv8>)
    requires |sig| <= 4
    ensures StartsWith(bytes[..HeaderLength(bytes)], sig) <==> StartsWith(bytes, sig)
  {
    if |sig| <= |bytes| {
      assert bytes[..HeaderLength(bytes)][..|sig|] == bytes[..|sig|];
    }
  }

  /** The same on the hex text: a signature of at most four bytes prefixes
      the hex header exactly when it prefixes the whole buffer. */
  lemma HeaderPrefixIffBufferPrefix(bytes: seq<bv8>, sig: seq<bv8>)
    requires |sig| <= 4
    ensures StartsWith(HexHeader(bytes), HexString(sig)) <==> StartsWith(bytes, sig)
  {
    HexPrefixIffBytePrefix(bytes[..HeaderLength(bytes)], sig);
    HeaderBytesPrefix(bytes, sig);
  }

  /** The sniffer's verdict, stated on the bytes rather than on the hex text:
      each content type is returned exactly for the buffers that begin with
      its signature, and `null` exactly for those that begin with none. */
  lemma ContentTypeBySignature(bytes: seq<bv8>)
    ensures GetImageContentType(bytes) == Some(ImagePng) <==> StartsWith(bytes, PngSignature)
    ensures GetImageContentType(bytes) == Some(ImageJpeg) <==> StartsWith(bytes, JpegSignature)
    ensures GetImageContentType(bytes) == Some(ImageGif) <==> StartsWith(bytes, GifSignature)
    ensures GetImageContentType(bytes) == None <==>
      !StartsWith(bytes, PngSignature) && !StartsWith(bytes, JpegSignature) && !StartsWith(bytes, GifSignature)
  {
    MagicIsSignatureHex();
    HeaderPrefixIffBufferPrefix(bytes, PngSignature);
    HeaderPrefixIffBufferPrefix(bytes, JpegSignature);
    HeaderPrefixIffBufferPrefix(bytes, GifSignature);
    SignaturesDisjoint(bytes);
  }

  /** Any buffer that begins 0x89 0x50 0x4E 0x47 is PNG, whatever follows. */
  lemma PngRecognised(rest: seq<bv8>)
    ensures GetImageContentType([0x89, 0x50, 0x4E, 0x47] + rest) == Some(ImagePng)
  {
    var bytes := [0x89, 0x50, 0x4E, 0x47] + rest;
    assert bytes[..4] == PngSignature;
    ContentTypeBySignature(bytes);
  }

  /** Any buffer that begins 0xFF 0xD8 is JPEG, whatever follows. */
  lemma JpegRecognised(rest: seq<bv8>)
    ensures GetImageContentType([0xFF, 0xD8] + rest) == Some(ImageJpeg)
  {
    var bytes := [0xFF, 0xD8] + rest;
    assert bytes[..2] == JpegSignature;
    ContentTypeBySignature(bytes);
  }

  /** Any buffer that begins 0x47 0x49 0x46 ("GIF") is GIF, whatever follows. */
  lemma GifRecognised(rest: seq<bv8>)
    ensures GetImageContentType([0x47, 0x49, 0x46] + rest) == Some(ImageGif)
  {
    var bytes := [0x47, 0x49, 0x46] + rest;
    assert bytes[..3] == GifSignature;
    ContentTypeBySignature(bytes);
  }

  /** A buffer shorter than every signature it could start is unknown:
      the empty buffer, a lone 0xFF, and the first three bytes of a PNG. */
  lemma ShortBuffersUnknown()
    ensures GetImageContentType([]) == None
    ensures GetImageContentType([0xFF]) == None
    ensures GetImageContentType([0x89, 0x50, 0x4E]) == None
  {
  }

  /** Only the first four bytes matter: buffers that agree on their first
      `HeaderLength` bytes get the same verdict, whatever follows. */
  lemma OnlyHeaderMatters(a: seq<bv8>, b: seq<bv8>)
    requires a[..HeaderLength(a)] == b[..HeaderLength(b)]
    ensures GetImageContentType(a) == GetImageContentType(b)
  {
  }
}
