/** Reading the generated image out of a decoded response: the first
    candidate's first part that carries inline data, labelled with the
    format detected from its bytes rather than the one the API reported. */
module GeminiResponse {
  import opened Common
  import opened Wire
  import ImageFormat

  /** What `generate_image` returns: the image bytes and their MIME type. */
  datatype Image = Image(bytes: seq<Byte>, mime: string)

  /** `result.get("candidates", [])`. */
  function CandidatesOf(response: Response): seq<Candidate> {
    response.candidates.GetOr([])
  }

  /** `candidate.get("content", {}).get("parts", [])`. */
  function PartsOf(candidate: Candidate): seq<Part> {
    match candidate.content
    case None => []
    case Some(content) => content.parts.GetOr([])
  }

  /** The parts of the first candidate (none when there is no candidate). */
  function FirstCandidateParts(response: Response): seq<Part> {
    var candidates := CandidatesOf(response);
    if candidates == [] then [] else PartsOf(candidates[0])
  }

  /** The index of the first part with inline data, if any. */
  function FirstInline(parts: seq<Part>): (r: Option<nat>)
    ensures r.Some? ==> r.value < |parts| && parts[r.value].inlineData.Some?
    ensures r.Some? ==> forall j :: 0 <= j < r.value ==> parts[j].inlineData.None?
    ensures r.None? <==> forall j :: 0 <= j < |parts| ==> parts[j].inlineData.None?
  {
    if parts == [] then None
    else if parts[0].inlineData.Some? then Some(0)
    else match FirstInline(parts[1..])
      case None => None
      case Some(k) => Some(k + 1)
  }

  /** The image an answer yields, or why it yields none: no candidates, or
      no inline data among the first candidate's parts. The MIME type is
      always the detected one; the reported type plays no part. */
  function SelectImage(response: Response): (r: Result<Image>)
    ensures r == Failure(NoCandidates) <==> CandidatesOf(response) == []
    ensures r == Failure(NoImageData) <==>
              CandidatesOf(response) != [] && FirstInline(FirstCandidateParts(response)).None?
    ensures r.Success? <==> CandidatesOf(response) != [] && FirstInline(FirstCandidateParts(response)).Some?
    ensures r.Success? ==> var parts := FirstCandidateParts(response);
              r.value.bytes == parts[FirstInline(parts).value].inlineData.value.data
    ensures r.Success? ==> r.value.mime == ImageFormat.DetectImageFormat(r.value.bytes).mime
  {
    var candidates := CandidatesOf(response);
    if candidates == [] then Failure(NoCandidates)
    else
      var parts := PartsOf(candidates[0]);
      match FirstInline(parts)
      case None => Failure(NoImageData)
      case Some(i) =>
        var bytes := parts[i].inlineData.value.data;
        Success(Image(bytes, ImageFormat.DetectImageFormat(bytes).mime))
  }

  /** The extraction step of `generate_image`: scan the first candidate's
      parts and return at the first one with inline data. */
  method ExtractImage(response: Response) returns (r: Result<Image>)
    ensures r == SelectImage(response)
  {
    var candidates := CandidatesOf(response);
    if candidates == [] {
      return Failure(NoCandidates);
    }
    var parts := PartsOf(candidates[0]);
    var i := 0;
    while i < |parts|
      invariant 0 <= i <= |parts|
      invariant forall j :: 0 <= j < i ==> parts[j].inlineData.None?
    {
      var part := parts[i];
      if part.inlineData.Some? {
        var bytes := part.inlineData.value.data;
        var detected := ImageFormat.DetectImageFormat(bytes);
        assert FirstInline(parts) == Some(i);
        return Success(Image(bytes, detected.mime));
      }
      i := i + 1;
    }
    r := Failure(NoImageData);
  }

  /** Two lists of parts that differ at most in the MIME types they report
      (and in text). */
  predicate SameImagesAnyLabels(a: seq<Part>, b: seq<Part>) {
    |a| == |b|
    && forall i :: 0 <= i < |a| ==>
         a[i].inlineData.Some? == b[i].inlineData.Some?
         && (a[i].inlineData.Some? ==> a[i].inlineData.value.data == b[i].inlineData.value.data)
  }

  /** The reported MIME type never changes the outcome: responses whose
      first candidates carry the same images under any labels yield the
      same result. */
  lemma ReportedTypeIgnored(x: Response, y: Response)
    requires (CandidatesOf(x) == []) == (CandidatesOf(y) == [])
    requires SameImagesAnyLabels(FirstCandidateParts(x), FirstCandidateParts(y))
    ensures SelectImage(x) == SelectImage(y)
  {
    var a, b := FirstCandidateParts(x), FirstCandidateParts(y);
    var fa, fb := FirstInline(a), FirstInline(b);
    if fa.Some? {
      assert fb.Some? by {
        assert b[fa.value].inlineData.Some?;
      }
      assert fa.value == fb.value;
    } else {
      assert fb.None?;
    }
  }
}
