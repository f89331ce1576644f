/** Recognising the format of an image from its leading bytes, and the file
    extension that goes with a MIME type. */
module ImageFormat {
  import opened Common
  import PurePaths

  const PngSignature: seq<Byte> := [0x89, 0x50, 0x4E, 0x47, 0x0D, 0x0A, 0x1A, 0x0A]
  const JpegSignature: seq<Byte> := [0xFF, 0xD8]
  /** "RIFF", the container tag at offset 0 of a WebP file. */
  const RiffTag: seq<Byte> := [0x52, 0x49, 0x46, 0x46]
  /** "WEBP", the form type at offset 8 of a WebP file. */
  const WebpTag: seq<Byte> := [0x57, 0x45, 0x42, 0x50]
  const Gif87a: seq<Byte> := [0x47, 0x49, 0x46, 0x38, 0x37, 0x61]
  const Gif89a: seq<Byte> := [0x47, 0x49, 0x46, 0x38, 0x39, 0x61]

  /** The `(mime_type, extension)` pair the detector returns. */
  datatype Detected = Detected(mime: string, ext: string)

  const Png := Detected("image/png", ".png")
  const Jpeg := Detected("image/jpeg", ".jpg")
  const Webp := Detected("image/webp", ".webp")
  const Gif := Detected("image/gif", ".gif")

  /** The MIME-type-to-extension table of `get_extension`. */
  const Extensions: map<string, string> :=
    map["image/png" := ".png", "image/jpeg" := ".jpg", "image/webp" := ".webp", "image/gif" := ".gif"]

  /** Python's `b[lo:hi]` for non-negative bounds: the bounds are clamped to
      the length, and an empty slice results when they cross. */
  function Slice(b: seq<Byte>, lo: nat, hi: nat): seq<Byte> {
    if hi <= lo || |b| <= lo then [] else b[lo..if hi < |b| then hi else |b|]
  }

  /** The bytes of `tag` occur in `b` starting at offset `off`. */
  predicate HasAt(b: seq<Byte>, off: nat, tag: seq<Byte>) {
    off + |tag| <= |b| && b[off..off + |tag|] == tag
  }

  /** A Python slice of a tag's length equals the tag exactly when the tag
      occurs there: a clamped, shorter slice never matches. */
  lemma SliceMatchesTag(b: seq<Byte>, off: nat, tag: seq<Byte>)
    requires |tag| > 0
    ensures Slice(b, off, off + |tag|) == tag <==> HasAt(b, off, tag)
  {
    if off + |tag| > |b| {
      assert |Slice(b, off, off + |tag|)| < |tag|;
    }
  }

  /** `get_extension`: the table lookup, with `.png` for any other type. */
  function GetExtension(mime: string): (ext: string)
    ensures mime !in Extensions ==> ext == ".png"
    ensures PurePaths.IsExtension(ext)
  {
    if mime in Extensions then Extensions[mime] else ".png"
  }

  /** `detect_image_format`, with the signature tests written on Python
      slices and in the script's order. */
  function DetectImageFormat(b: seq<Byte>): (r: Detected)
    ensures r.mime in Extensions
    ensures r.ext == GetExtension(r.mime)
  {
    if Slice(b, 0, 8) == PngSignature then Png
    else if Slice(b, 0, 2) == JpegSignature then Jpeg
    else if Slice(b, 0, 4) == RiffTag && Slice(b, 8, 12) == WebpTag then Webp
    else if Slice(b, 0, 6) == Gif87a || Slice(b, 0, 6) == Gif89a then Gif
    else Png
  }

  /** Each format's signature as laid out in a file. */
  predicate IsPngHeader(b: seq<Byte>) { HasAt(b, 0, PngSignature) }
  predicate IsJpegHeader(b: seq<Byte>) { HasAt(b, 0, JpegSignature) }
  predicate IsWebpHeader(b: seq<Byte>) { HasAt(b, 0, RiffTag) && HasAt(b, 8, WebpTag) }
  predicate IsGifHeader(b: seq<Byte>) { HasAt(b, 0, Gif87a) || HasAt(b, 0, Gif89a) }

  /** The detector tests the signatures in a fixed order and the first one
      present decides; with none present, including on empty or short
      input, the answer is PNG. */
  lemma DetectionOrder(b: seq<Byte>)
    ensures IsPngHeader(b) ==> DetectImageFormat(b) == Png
    ensures !IsPngHeader(b) && IsJpegHeader(b) ==> DetectImageFormat(b) == Jpeg
    ensures !IsPngHeader(b) && !IsJpegHeader(b) && IsWebpHeader(b) ==> DetectImageFormat(b) == Webp
    ensures !IsPngHeader(b) && !IsJpegHeader(b) && !IsWebpHeader(b) && IsGifHeader(b)
            ==> DetectImageFormat(b) == Gif
    ensures !IsPngHeader(b) && !IsJpegHeader(b) && !IsWebpHeader(b) && !IsGifHeader(b)
            ==> DetectImageFormat(b) == Png
  {
    SliceMatchesTag(b, 0, PngSignature);
    SliceMatchesTag(b, 0, JpegSignature);
    SliceMatchesTag(b, 0, RiffTag);
    SliceMatchesTag(b, 8, WebpTag);
    SliceMatchesTag(b, 0, Gif87a);
    SliceMatchesTag(b, 0, Gif89a);
  }

  /** Input too short to hold any signature is classified as PNG. */
  lemma ShortInputIsPng(b: seq<Byte>)
    requires |b| < 2
    ensures DetectImageFormat(b) == Png
  {
    DetectionOrder(b);
  }

  /** Bytes that begin with a format's signature are classified as that
      format, whatever follows; for WebP any four size bytes may sit between
      the two tags. */
  lemma SignaturesAreRecognised(rest: seq<Byte>, riffSize: seq<Byte>)
    requires |riffSize| == 4
    ensures DetectImageFormat(PngSignature + rest) == Png
    ensures DetectImageFormat(JpegSignature + rest) == Jpeg
    ensures DetectImageFormat(RiffTag + riffSize + WebpTag + rest) == Webp
    ensures DetectImageFormat(Gif87a + rest) == Gif
    ensures DetectImageFormat(Gif89a + rest) == Gif
  {
    var png, jpeg, webp := PngSignature + rest, JpegSignature + rest, RiffTag + riffSize + WebpTag + rest;
    var gif7, gif9 := Gif87a + rest, Gif89a + rest;
    assert png[..8] == PngSignature;
    DetectionOrder(png);
    assert jpeg[..2] == JpegSignature;
    assert jpeg[0] != PngSignature[0];
    DetectionOrder(jpeg);
    assert webp[..4] == RiffTag && webp[8..12] == WebpTag;
    assert webp[0] != PngSignature[0] && webp[0] != JpegSignature[0];
    DetectionOrder(webp);
    assert gif7[..6] == Gif87a && gif9[..6] == Gif89a;
    assert gif7[0] != PngSignature[0] && gif7[0] != JpegSignature[0] && gif7[0] != RiffTag[0];
    assert gif9[0] != PngSignature[0] && gif9[0] != JpegSignature[0] && gif9[0] != RiffTag[0];
    DetectionOrder(gif7);
    DetectionOrder(gif9);
  }

  /** No byte string carries two different signatures, so the order of the
      tests never changes the answer: each signature starts with a
      different byte. */
  lemma SignaturesExclusive(b: seq<Byte>)
    ensures HasAt(b, 0, PngSignature) ==> !HasAt(b, 0, JpegSignature) && !HasAt(b, 0, RiffTag)
                                          && !HasAt(b, 0, Gif87a) && !HasAt(b, 0, Gif89a)
    ensures HasAt(b, 0, JpegSignature) ==> !HasAt(b, 0, RiffTag) && !HasAt(b, 0, Gif87a) && !HasAt(b, 0, Gif89a)
    ensures HasAt(b, 0, RiffTag) ==> !HasAt(b, 0, Gif87a) && !HasAt(b, 0, Gif89a)
  {
    if |b| > 0 {
      assert HasAt(b, 0, PngSignature) ==> b[0] == PngSignature[0];
      assert HasAt(b, 0, JpegSignature) ==> b[0] == JpegSignature[0];
      assert HasAt(b, 0, RiffTag) ==> b[0] == RiffTag[0];
      assert HasAt(b, 0, Gif87a) ==> b[0] == Gif87a[0];
      assert HasAt(b, 0, Gif89a) ==> b[0] == Gif89a[0];
    }
  }
}
