/** The script end to end, once its options are parsed: resolve the key,
    build and send the request, read the image out of the reply, and choose
    the path it is written to. The environment, the file system, the HTTP
    reply and the clock are parameters. */
module Pipeline {
  import opened Common
  import opened Wire
  import opened PurePaths
  import ImageFormat
  import ApiKey
  import GeminiRequest
  import GeminiResponse
  import OutputPath

  /** The options after `argparse` has parsed them. */
  datatype Args = Args(
    prompt: string,
    output: Option<string>,
    aspectRatio: string,
    imageSize: string,
    model: GeminiRequest.Model,
    key: Option<string>,
    references: seq<string>)

  /** What `argparse` lets through: `--aspect` and `--size` are restricted
      to their choice lists (`--model` is restricted by its type). */
  predicate ValidArgs(args: Args) {
    args.aspectRatio in GeminiRequest.AspectRatios && args.imageSize in GeminiRequest.ImageSizes
  }

  /** The file the script writes: where, what it prints on stdout, and the
      bytes. */
  datatype Saved = Saved(path: PurePath, printed: string, bytes: seq<Byte>)

  /** What `generate_image` returns or the error that stops it. The key is
      checked before anything else, the reference files before the request
      is sent; once it is sent, an HTTP error status and an unreachable
      server each end the run with their own error, and a delivered body
      gives whatever image selection finds in it, labelled with its detected
      format. */
  function GenerationOutcome(prompt: string, references: seq<string>, apiKey: Option<string>, env: Option<string>,
                             files: map<string, seq<Byte>>, reply: Reply): (r: Result<GeminiResponse.Image>)
    ensures r == Failure(MissingApiKey) <==> ApiKey.ResolveApiKey(apiKey, env).Failure?
    ensures ApiKey.ResolveApiKey(apiKey, env).Success? && GeminiRequest.RequestParts(prompt, references, files).Failure?
            ==> r == Failure(GeminiRequest.RequestParts(prompt, references, files).error)
    ensures ApiKey.ResolveApiKey(apiKey, env).Success? && GeminiRequest.RequestParts(prompt, references, files).Success?
            ==> match reply
                case HttpError(code, body) => r == Failure(ApiError(code, body))
                case Unreachable(reason) => r == Failure(NetworkError(reason))
                case Delivered(response) => r == GeminiResponse.SelectImage(response)
    ensures r.Success? ==> reply.Delivered? && r == GeminiResponse.SelectImage(reply.response)
    ensures r.Success? ==> r.value.mime == ImageFormat.DetectImageFormat(r.value.bytes).mime
  {
    match ApiKey.ResolveApiKey(apiKey, env)
    case Failure(e) => Failure(e)
    case Success(_) =>
      match GeminiRequest.RequestParts(prompt, references, files)
      case Failure(e) => Failure(e)
      case Success(_) =>
        match reply
        case HttpError(code, body) => Failure(ApiError(code, body))
        case Unreachable(reason) => Failure(NetworkError(reason))
        case Delivered(response) => GeminiResponse.SelectImage(response)
  }

  /** `generate_image`. A request is sent exactly when a usable key was
      found and every used reference exists; it carries the model and key
      in its URL, the prompt and reference parts, and the image settings. */
  method GenerateImage(prompt: string, aspectRatio: string, imageSize: string, references: seq<string>,
                       modelId: string, apiKey: Option<string>, env: Option<string>,
                       files: map<string, seq<Byte>>, reply: Reply)
    returns (sent: Option<Request>, r: Result<GeminiResponse.Image>)
    ensures r == GenerationOutcome(prompt, references, apiKey, env, files, reply)
    ensures sent.Some? <==> ApiKey.ResolveApiKey(apiKey, env).Success?
                            && GeminiRequest.RequestParts(prompt, references, files).Success?
    ensures sent.Some? ==>
              sent.value == Request(GeminiRequest.RequestUrl(modelId, ApiKey.ResolveApiKey(apiKey, env).value),
                                    GeminiRequest.RequestParts(prompt, references, files).value,
                                    GeminiRequest.ResponseModalities,
                                    ImageConfig(aspectRatio, imageSize))
  {
    var key := if Truthy(apiKey) then apiKey.value else ApiKey.GetApiKey(env);
    if key == ApiKey.Placeholder || key == "" {
      return None, Failure(MissingApiKey);
    }
    var url := GeminiRequest.RequestUrl(modelId, key);
    var parts := GeminiRequest.BuildParts(prompt, references, files);
    if parts.Failure? {
      return None, Failure(parts.error);
    }
    sent := Some(Request(url, parts.value, GeminiRequest.ResponseModalities, ImageConfig(aspectRatio, imageSize)));
    match reply
    case HttpError(code, body) =>
      r := Failure(ApiError(code, body));
    case Unreachable(reason) =>
      r := Failure(NetworkError(reason));
    case Delivered(response) =>
      r := GeminiResponse.ExtractImage(response);
  }

  /** `main` after option parsing. The request goes to the chosen model
      with the parsed settings; any failure of `generate_image` is the
      script's failure; otherwise the image is written to the resolved
      path, whose suffix always names the detected format and which keeps
      the directory and stem of a given `--output`, and that path is
      printed in a form that parses back to it. */
  method Run(args: Args, env: Option<string>, files: map<string, seq<Byte>>, reply: Reply, timestamp: nat)
    returns (sent: Option<Request>, r: Result<Saved>)
    requires ValidArgs(args)
    ensures sent.Some? <==> ApiKey.ResolveApiKey(args.key, env).Success?
                            && GeminiRequest.RequestParts(args.prompt, args.references, files).Success?
    ensures sent.Some? ==>
              sent.value == Request(GeminiRequest.RequestUrl(GeminiRequest.ModelId(args.model),
                                                             ApiKey.ResolveApiKey(args.key, env).value),
                                    GeminiRequest.RequestParts(args.prompt, args.references, files).value,
                                    GeminiRequest.ResponseModalities,
                                    ImageConfig(args.aspectRatio, args.imageSize))
    ensures GenerationOutcome(args.prompt, args.references, args.key, env, files, reply).Failure?
            ==> r == Failure(GenerationOutcome(args.prompt, args.references, args.key, env, files, reply).error)
    ensures GenerationOutcome(args.prompt, args.references, args.key, env, files, reply).Success?
            ==> (r.Failure? <==> Truthy(args.output) && Name(ParsePath(args.output.value)) == "")
    ensures r.Success? ==> GenerationOutcome(args.prompt, args.references, args.key, env, files, reply).Success?
    ensures r.Success? ==>
              r.value.bytes == GenerationOutcome(args.prompt, args.references, args.key, env, files, reply).value.bytes
    ensures r.Success? ==> SuffixOf(Name(r.value.path)) == ImageFormat.DetectImageFormat(r.value.bytes).ext
    ensures r.Success? ==> r.value.printed == Render(r.value.path) && ParsePath(r.value.printed) == r.value.path
    ensures r.Success? && Truthy(args.output) ==>
              var given := ParsePath(args.output.value);
              && r.value.path.root == given.root
              && ParentParts(r.value.path) == ParentParts(given)
              && StemOf(Name(r.value.path)) == StemOf(Name(given))
    ensures r.Success? && !Truthy(args.output) ==>
              r.value.path == PurePath("", [OutputPath.DefaultDirectory,
                                            OutputPath.DefaultFileName(args.prompt, timestamp)
                                            + ImageFormat.DetectImageFormat(r.value.bytes).ext])
  {
    var modelId := GeminiRequest.ModelId(args.model);
    var generated;
    sent, generated := GenerateImage(args.prompt, args.aspectRatio, args.imageSize, args.references,
                                     modelId, args.key, env, files, reply);
    if generated.Failure? {
      return sent, Failure(generated.error);
    }
    var image := generated.value;
    var path := OutputPath.ResolveOutputPath(args.output, args.prompt, image.mime, timestamp);
    if path.Failure? {
      return sent, Failure(path.error);
    }
    ParseRender(path.value);
    r := Success(Saved(path.value, Render(path.value), image.bytes));
  }
}
