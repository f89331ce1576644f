/** Building the request: the fixed choices of the command line, the
    endpoint URL, and the parts list (prompt first, then up to 14 reference
    images in the order given). */
module GeminiRequest {
  import opened Common
  import opened Wire
  import ImageFormat

  datatype Model = Pro | Flash

  const AspectRatios := ["1:1", "2:3", "3:2", "3:4", "4:3", "4:5", "5:4", "9:16", "16:9", "21:9"]
  const ImageSizes := ["1K", "2K", "4K"]
  const ApiBase := "https://generativelanguage.googleapis.com/v1beta/models"
  const ResponseModalities := ["TEXT", "IMAGE"]
  const MaxReferences := 14

  /** The `MODELS` table. */
  function ModelId(m: Model): (id: string)
    ensures id != "" && '/' !in id && ':' !in id && '?' !in id
  {
    match m
    case Pro => "gemini-3-pro-image-preview"
    case Flash => "gemini-2.5-flash-image"
  }

  /** The two models are addressed by different ids. */
  lemma ModelIdsDiffer(a: Model, b: Model)
    ensures ModelId(a) == ModelId(b) ==> a == b
  {
  }

  function RequestUrl(modelId: string, key: string): (url: string)
    ensures |url| == |ApiBase| + 1 + |modelId| + |":generateContent?key="| + |key|
    ensures url[..|ApiBase| + 1] == ApiBase + "/"
    ensures url[|ApiBase| + 1..|ApiBase| + 1 + |modelId|] == modelId
    ensures url[|ApiBase| + 1 + |modelId|..|url| - |key|] == ":generateContent?key="
    ensures url[|url| - |key|..] == key
  {
    ApiBase + "/" + modelId + ":generateContent?key=" + key
  }

  function TextPart(prompt: string): Part {
    Part(Some(prompt), None)
  }

  /** The inline-data part for a reference image, labelled with the format
      detected from its bytes. */
  function ReferencePart(bytes: seq<Byte>): (part: Part)
    ensures part.text.None? && part.inlineData.Some?
    ensures part.inlineData.value.data == bytes
    ensures part.inlineData.value.mimeType == Some(ImageFormat.DetectImageFormat(bytes).mime)
  {
    Part(None, Some(Blob(Some(ImageFormat.DetectImageFormat(bytes).mime), bytes)))
  }

  /** The references that are used: all of them up to 14, else the first
      14; the rest are dropped with a warning, not refused. */
  function UsedReferences(references: seq<string>): (used: seq<string>)
    ensures |used| == Min(|references|, MaxReferences)
    ensures used == references[..|used|]
  {
    if |references| > MaxReferences then references[..MaxReferences] else references
  }

  /** Loading each reference in turn (`load_image_as_base64`), the file
      system being the map `files`: the first path that does not exist
      ends the script; otherwise one part per path, in order. */
  function ReferenceParts(paths: seq<string>, files: map<string, seq<Byte>>): (r: Result<seq<Part>>)
    ensures r.Success? <==> forall j :: 0 <= j < |paths| ==> paths[j] in files
    ensures r.Success? ==> |r.value| == |paths|
    ensures r.Success? ==> forall j :: 0 <= j < |paths| ==> r.value[j] == ReferencePart(files[paths[j]])
    ensures r.Failure? ==> r.error.ReferenceNotFound? && r.error.path !in files
    decreases |paths|
  {
    if paths == [] then Success([])
    else if paths[0] !in files then Failure(ReferenceNotFound(paths[0]))
    else match ReferenceParts(paths[1..], files)
      case Failure(e) => Failure(e)
      case Success(rest) => Success([ReferencePart(files[paths[0]])] + rest)
  }

  /** The parts list the script sends, or the error that stops it first. */
  function RequestParts(prompt: string, references: seq<string>, files: map<string, seq<Byte>>): (r: Result<seq<Part>>)
    ensures r.Success? <==> forall j :: 0 <= j < Min(|references|, MaxReferences) ==> references[j] in files
    ensures r.Success? ==> |r.value| == 1 + Min(|references|, MaxReferences) && r.value[0] == TextPart(prompt)
    ensures r.Success? ==> forall j :: 0 <= j < Min(|references|, MaxReferences) ==>
              references[j] in files && r.value[j + 1] == ReferencePart(files[references[j]])
    ensures r.Failure? ==> r.error.ReferenceNotFound? && r.error.path !in files
  {
    var used := UsedReferences(references);
    match ReferenceParts(used, files)
    case Failure(e) => Failure(e)
    case Success(images) =>
      var parts := [TextPart(prompt)] + images;
      assert forall j :: 0 <= j < |used| ==> used[j] == references[j] && parts[j + 1] == images[j];
      Success(parts)
  }

  /** Loading stops at the first path that does not exist, and that is the
      path reported. */
  lemma {:induction false} FirstMissingReferenceFails(paths: seq<string>, files: map<string, seq<Byte>>, i: nat)
    requires i < |paths|
    requires forall j :: 0 <= j < i ==> paths[j] in files
    requires paths[i] !in files
    ensures ReferenceParts(paths, files) == Failure(ReferenceNotFound(paths[i]))
    decreases i
  {
    if i > 0 {
      forall j | 0 <= j < i - 1 ensures paths[1..][j] in files {
        assert paths[1..][j] == paths[j + 1];
      }
      FirstMissingReferenceFails(paths[1..], files, i - 1);
    }
  }

  /** When every path exists, the result is one part per path. */
  lemma AllReferencesPresent(paths: seq<string>, files: map<string, seq<Byte>>, images: seq<Part>)
    requires forall j :: 0 <= j < |paths| ==> paths[j] in files
    requires |images| == |paths|
    requires forall j :: 0 <= j < |paths| ==> images[j] == ReferencePart(files[paths[j]])
    ensures ReferenceParts(paths, files) == Success(images)
  {
    var r := ReferenceParts(paths, files);
    assert r.Success?;
    assert r.value == images;
  }

  /** The `for` loop of `generate_image` over the used references: one
      inline-data part per path, in order, stopping at the first path that
      does not exist. */
  method LoadReferences(paths: seq<string>, files: map<string, seq<Byte>>) returns (r: Result<seq<Part>>)
    ensures r == ReferenceParts(paths, files)
  {
    var images := [];
    var i := 0;
    while i < |paths|
      invariant 0 <= i <= |paths|
      invariant forall j :: 0 <= j < i ==> paths[j] in files
      invariant |images| == i
      invariant forall j :: 0 <= j < i ==> images[j] == ReferencePart(files[paths[j]])
    {
      var path := paths[i];
      if path !in files {
        FirstMissingReferenceFails(paths, files, i);
        return Failure(ReferenceNotFound(path));
      }
      images := images + [ReferencePart(files[path])];
      i := i + 1;
    }
    AllReferencesPresent(paths, files, images);
    r := Success(images);
  }

  /** Among the references that are used, the first one missing from the
      file system is the error the script stops with; references past the
      fourteenth are never looked at. */
  lemma FirstMissingReferenceReported(prompt: string, references: seq<string>, files: map<string, seq<Byte>>, i: nat)
    requires i < Min(|references|, MaxReferences)
    requires forall j :: 0 <= j < i ==> references[j] in files
    requires references[i] !in files
    ensures RequestParts(prompt, references, files) == Failure(ReferenceNotFound(references[i]))
  {
    var used := UsedReferences(references);
    assert used[i] == references[i];
    FirstMissingReferenceFails(used, files, i);
  }

  /** The parts list of `generate_image`: the prompt, then the references
      after any beyond the fourteenth are dropped. */
  method BuildParts(prompt: string, references: seq<string>, files: map<string, seq<Byte>>)
    returns (r: Result<seq<Part>>)
    ensures r == RequestParts(prompt, references, files)
  {
    var parts := [TextPart(prompt)];
    if |references| > 0 {
      var used := references;
      if |references| > MaxReferences {
        used := references[..MaxReferences];
      }
      assert used == UsedReferences(references);
      var images := LoadReferences(used, files);
      if images.Failure? {
        return Failure(images.error);
      }
      parts := parts + images.value;
    } else {
      assert ReferenceParts(references, files) == Success([]);
      assert parts == [TextPart(prompt)] + [];
    }
    r := Success(parts);
  }
}
