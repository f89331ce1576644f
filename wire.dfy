/** The JSON shapes exchanged with the image-generation endpoint, after
    decoding. A key that the script reads with a default (`.get(k, d)`) is
    an Option here; base64 payloads are held already decoded. */
module Wire {
  import opened Common

  /** An `inlineData` object: the reported MIME type and the image bytes. */
  datatype Blob = Blob(mimeType: Option<string>, data: seq<Byte>)

  /** One entry of a `parts` list; it may carry text, inline data, both or
      neither. */
  datatype Part = Part(text: Option<string>, inlineData: Option<Blob>)

  datatype Content = Content(parts: Option<seq<Part>>)

  datatype Candidate = Candidate(content: Option<Content>)

  /** The decoded body of a successful reply. */
  datatype Response = Response(candidates: Option<seq<Candidate>>)

  /** What the HTTP exchange produced: an error status with its body, a
      connection failure with its reason, or a decoded body. */
  datatype Reply =
    | HttpError(code: int, body: string)
    | Unreachable(reason: string)
    | Delivered(response: Response)

  datatype ImageConfig = ImageConfig(aspectRatio: string, imageSize: string)

  /** The POST the script sends: its URL (model and key included), the one
      content's parts, and the generation settings. */
  datatype Request = Request(url: string, parts: seq<Part>, responseModalities: seq<string>, imageConfig: ImageConfig)
}
