# Nano Image Generator, modelled in Dafny

`scripts/generate_image.py` is a command-line client for Google's Gemini
image models. It reads a prompt, up to fourteen reference images, an aspect
ratio, a size and a model name. It then sends one `generateContent` request
and writes the first image in the answer to disk. The file suffix always
matches the format found in the image's own bytes. This project models that
script's logic and proves what it promises:

- **Image formats** (`image_format.dfy`, module `ImageFormat`). Magic-byte
  detection on Python slices, in the script's test order, and the
  MIME-to-extension table.
- **API key** (`api_key.dfy`, module `ApiKey`). The key is taken from
  `--key`, then `GEMINI_API_KEY`, then a placeholder that is always refused.
- **Request** (`wire.dfy`, `request.dfy`; modules `Wire`, `GeminiRequest`).
  The JSON shapes as datatypes, the endpoint URL and the parts list: the
  prompt first, then one inline-data part per reference in the given order.
  References beyond the fourteenth are dropped. The first missing file stops
  the script.
- **Response** (`response.dfy`, module `GeminiResponse`). The first inline
  image of the first candidate, labelled with the detected type, or the
  error for no candidates or no image.
- **Paths** (`pure_path.dfy`, module `PurePaths`). The POSIX `pathlib`
  operations the script uses: parsing, `name`, `suffix`, `stem`,
  `with_suffix`, `/` and `str()`.
- **Slug and output path** (`slug.dfy`, `output_path.dfy`; modules `Slug`,
  `OutputPath`). The `generated/<slug>-<timestamp>` default and the forced
  extension.
- **The script end to end** (`pipeline.dfy`, module `Pipeline`).
  `generate_image` and `main` after option parsing.

`common.dfy` holds bytes, `Option`, `Result` and the error kinds. Each
`sys.exit(1)` of the script is a `Failure` carrying one of those kinds.

The outside world becomes parameters:

- the `GEMINI_API_KEY` value (`env: Option<string>`);
- the file system, as a map from path to file bytes (`files`);
- the HTTP outcome (`Reply`: an HTTP error with code and body, an
  unreachable host with its reason, or a delivered, decoded body);
- the clock (`timestamp: nat`).

Two behaviours of the script are worth stating plainly:

- More than 14 references are cut to the first 14, with a warning; they
  are not rejected.
- When `GEMINI_API_KEY` is unset, `get_api_key` falls back to the literal
  placeholder, which the caller then refuses.

## Model

| member | source | states |
|---|---|---|
| `ImageFormat.DetectImageFormat` | scripts/generate_image.py:59-77 | the answer is always one of the four known MIME types, paired with the extension `get_extension` gives for it |
| `ImageFormat.SliceMatchesTag` | scripts/generate_image.py:67-73 | `Slice`, the clamped Python slice `data[lo:hi]`, equals a signature exactly when the signature occurs at that offset (a short input never matches) |
| `ImageFormat.DetectionOrder` | scripts/generate_image.py:67-77 | the tests run in order: PNG, JPEG, WebP (`RIFF` at 0 and `WEBP` at 8), GIF87a/GIF89a; the first signature present decides; with none present the answer is PNG |
| `ImageFormat.ShortInputIsPng` | scripts/generate_image.py:75-77 | input of fewer than two bytes, empty included, is classified as PNG |
| `ImageFormat.SignaturesAreRecognised` | scripts/generate_image.py:67-74 | bytes that start with a format's signature are classified as that format whatever follows; for WebP, any four size bytes may sit between the tags |
| `ImageFormat.SignaturesExclusive` | scripts/generate_image.py:67-74 | no byte string carries two of the signatures at offset 0, so the order of the tests never changes the answer |
| `ImageFormat.GetExtension` | scripts/generate_image.py:204-212 | an unknown MIME type gives `.png`; every result is an extension that `with_suffix` accepts and `suffix` reports back |
| `ApiKey.GetApiKey` | scripts/generate_image.py:41-56 | a non-empty environment value is returned as is; otherwise the placeholder; never empty |
| `ApiKey.CandidateKey` | scripts/generate_image.py:116-117 | the key checked is a non-empty `--key`, else a non-empty environment value, else the placeholder |
| `ApiKey.ResolveApiKey` | scripts/generate_image.py:116-124 | success is never empty or the placeholder; a non-empty `--key` wins, otherwise the environment value is used; failure, always `MissingApiKey`, happens exactly when the chosen source is the placeholder or there is no non-empty source |
| `ApiKey.ExplicitKeyWins` | scripts/generate_image.py:116-117 | a usable explicit key is used whatever the environment holds |
| `ApiKey.NoKeyFails` | scripts/generate_image.py:116-124 | no explicit key and an unset or empty environment variable end the script |
| `GeminiRequest.ModelId` | scripts/generate_image.py:29-32 | each model maps to a non-empty id that holds no `/`, `:` or `?`, so it fills one path segment of the URL |
| `GeminiRequest.ModelIdsDiffer` | scripts/generate_image.py:29-32 | the two models have different ids |
| `GeminiRequest.RequestUrl` | scripts/generate_image.py:126 | the URL is the API base and a slash, then the model id at that offset, then exactly `:generateContent?key=`, and ends with the key; its length is the sum of the four |
| `GeminiRequest.ReferencePart` | scripts/generate_image.py:137-144 | a reference becomes an inline-data part holding its bytes, labelled with the detected MIME type rather than one taken from the file name |
| `GeminiRequest.UsedReferences` | scripts/generate_image.py:132-135 | the used references are the first min(n, 14) of the given ones, in order |
| `GeminiRequest.ReferenceParts` | scripts/generate_image.py:137-145 | loading succeeds exactly when every path exists, with one part per path in order; a failure names a path that does not exist |
| `GeminiRequest.FirstMissingReferenceFails` | scripts/generate_image.py:84-87 | the first path that does not exist is the one reported |
| `GeminiRequest.AllReferencesPresent` | scripts/generate_image.py:137-144 | when every path exists, the result is exactly one part per path |
| `GeminiRequest.LoadReferences` | scripts/generate_image.py:137-145 | the loop over the used references computes `ReferenceParts` |
| `GeminiRequest.RequestParts` | scripts/generate_image.py:129-145 | success exactly when the first min(n, 14) references all exist; the list is the prompt's text part (`TextPart`, line 129) followed by one part per used reference, in order |
| `GeminiRequest.FirstMissingReferenceReported` | scripts/generate_image.py:132-138 | the first missing reference among the first 14 is the error; references past the fourteenth are never looked at |
| `GeminiRequest.BuildParts` | scripts/generate_image.py:129-145 | the truncation and the append loop compute `RequestParts` |
| `GeminiResponse.FirstInline` | scripts/generate_image.py:184-185 | finds the first part with inline data (every earlier part has none), or reports that no part has any |
| `GeminiResponse.SelectImage` | scripts/generate_image.py:176-201 | `NoCandidates` exactly when there is no candidate (`CandidatesOf`, the `get("candidates", [])` of line 176); `NoImageData` exactly when the first candidate has no inline part among its parts (`PartsOf`, the `get("content", {}).get("parts", [])` of line 182); otherwise the bytes of the first inline part, with the detected MIME type |
| `GeminiResponse.ExtractImage` | scripts/generate_image.py:176-201 | the scan that returns at the first inline part computes `SelectImage` |
| `GeminiResponse.ReportedTypeIgnored` | scripts/generate_image.py:188-193 | two answers that differ only in the reported MIME types (or in text) give the same result |
| `Slug.RemoveIllegal` | scripts/generate_image.py:294 | only word characters, whitespace and hyphens remain; a string made only of those is left unchanged |
| `Slug.RemoveIllegalChar` | scripts/generate_image.py:294 | one character is kept exactly when it is a word character, whitespace or a hyphen |
| `Slug.RemoveIllegalConcat` | scripts/generate_image.py:294 | the removal works character by character: on a concatenation it gives the concatenation of the two results (with `RemoveIllegalChar` this fixes the result completely) |
| `Slug.RemoveIllegalKeepsWords` | scripts/generate_image.py:294 | the non-separator characters left are exactly the word characters of the prompt, in order |
| `Slug.Strip` | scripts/generate_image.py:294 | no whitespace at either end; no character class added; a string without surrounding whitespace is left unchanged |
| `Slug.StripIsTrimmedMiddle` | scripts/generate_image.py:294 | whenever the input is whitespace, then a middle that starts and ends with a non-space, then whitespace, the result is that middle |
| `Slug.StripOfWhitespace` | scripts/generate_image.py:294 | a string of whitespace only strips to the empty string |
| `Slug.StripKeepsWords` | scripts/generate_image.py:294 | stripping removes no non-separator character |
| `Slug.LowerChar` | scripts/generate_image.py:294 | a capital letter becomes the small letter 32 code points above it; any other character is unchanged |
| `Slug.Lower` | scripts/generate_image.py:294 | each character is lowered in place (same length, `r[i]` is `s[i]` lowered); so no upper-case letter remains, each character keeps its class, and a string without capitals is unchanged |
| `Slug.LowerKeepsWords` | scripts/generate_image.py:294 | lowering commutes with taking the non-separator characters |
| `Slug.Collapse` | scripts/generate_image.py:295 | no whitespace and no two adjacent hyphens remain; empty exactly when the input is; starts with `-` exactly when the input starts with a separator; slug characters stay slug characters (the two lemmas below fix the result completely) |
| `Slug.CollapseWithoutSeparators` | scripts/generate_image.py:295 | a string with no whitespace and no hyphen is left as it is |
| `Slug.CollapseAcrossSeparators` | scripts/generate_image.py:295 | a whole run of whitespace and hyphens between two stretches (either may be empty) becomes exactly one hyphen, and each stretch is collapsed on its own |
| `Slug.CollapseKeepsWords` | scripts/generate_image.py:295 | the characters of the result other than hyphens are the non-separator characters of the input, in order: only the separator runs change |
| `Slug.Cleaned` | scripts/generate_image.py:294 | after removal, stripping and lowering, the result is no longer than the prompt, holds only slug characters and whitespace, has no whitespace at either end, and its non-separator characters are the prompt's word characters lowered, in order |
| `Slug.Truncated` | scripts/generate_image.py:295 | an empty input gives `"untitled"`; any other input gives its first min(n, 50) characters; either way 1 to 50 slug characters with no double hyphen |
| `Slug.Slug` | scripts/generate_image.py:294-295 | any prompt gives 1 to 50 characters from `[a-z0-9_-]`, with no whitespace and no two hyphens in a row |
| `Slug.SlugKeepsWords` | scripts/generate_image.py:294-295 | for a prompt with a word character, the slug's characters other than hyphens are a prefix of the prompt's word characters lowered, and all of them when the prompt has at most 50 characters |
| `Slug.SlugWithoutWords` | scripts/generate_image.py:294-295 | a prompt with no word character and no hyphen gives `"untitled"` |
| `Slug.CollapseKeepsSlug` | scripts/generate_image.py:295 | collapsing leaves a string of slug characters without double hyphens unchanged |
| `Slug.SlugFixesSlugs` | scripts/generate_image.py:294-295 | a string that already has the shape of a slug is its own slug |
| `Slug.SlugIdempotent` | scripts/generate_image.py:294-295 | the slug of a slug is that slug |
| `PurePaths.ParsePath` | scripts/generate_image.py:289 | parsing yields a root (`RootOf`) of `""`, `"/"` or `"//"`: `"//"` exactly when the string starts with exactly two slashes, `"/"` exactly when it starts with one or more than two; components are non-empty, not `.` and slash-free; the path is absolute exactly when the string starts with `/` |
| `PurePaths.ParseSplits` | scripts/generate_image.py:289 | the components of `a/b` are those of `a` followed by those of `b`, since empty and `.` segments are dropped wherever they occur |
| `PurePaths.ParseEmptyAndDot` | scripts/generate_image.py:289 | `""` and `"."` both parse to the relative path with no components |
| `PurePaths.ParseDotSlashName` | scripts/generate_image.py:289 | `./x` for a proper component `x`, as in `--output ./mascot.png`, parses to the relative path whose only component is `x` |
| `PurePaths.Name` | scripts/generate_image.py:303 | for a valid path the name is empty exactly when there are no components, and otherwise is a proper component; the parent components followed by the name are all the components |
| `PurePaths.SuffixOf` | scripts/generate_image.py:303 | a non-empty suffix is a proper tail of the name: a dot, at least one more character, no further dot |
| `PurePaths.StemOf` | scripts/generate_image.py:303 | the name is the stem followed by the suffix; a non-empty name has a non-empty stem |
| `PurePaths.WithSuffix` | scripts/generate_image.py:303 | fails exactly for a refused suffix or an empty name (with the matching error); otherwise keeps the root and the directory components and makes the name stem plus suffix, so a proper extension becomes the new suffix and the stem is kept |
| `PurePaths.WithSuffixIdempotent` | scripts/generate_image.py:303 | forcing the same extension twice is the same as once |
| `PurePaths.JoinPath` | scripts/generate_image.py:298 | an absolute right-hand side replaces the path; a relative one keeps the root and appends its components; a valid path stays valid |
| `PurePaths.Render` | scripts/generate_image.py:316 | a valid path prints as a non-empty string that starts with `/` exactly when the path has a root |
| `PurePaths.ParseRender` | scripts/generate_image.py:314-316 | parsing the printed form of a valid path gives that path back |
| `OutputPath.DecimalString` | scripts/generate_image.py:296-297 | the timestamp is written as a non-empty string of decimal digits with no leading zero |
| `OutputPath.DecimalRoundTrip` | scripts/generate_image.py:296-297 | the digits denote the timestamp |
| `OutputPath.DefaultFileName` | scripts/generate_image.py:297 | `<slug>-<timestamp>` is one path component with no dot, so it has no suffix |
| `OutputPath.DefaultFileNameReadsBack` | scripts/generate_image.py:294-297 | the default name is the slug, a hyphen, then only digits, and those digits read back as the timestamp |
| `OutputPath.JoinUnderDefaultDirectory` | scripts/generate_image.py:298 | `Path("generated") / name` is the relative path `generated/name` |
| `OutputPath.ExtensionAppended` | scripts/generate_image.py:298-303 | the extension is appended to a default name that has no suffix |
| `OutputPath.ResolveOutputPath` | scripts/generate_image.py:287-303 | a result always has the detected extension as its suffix and is a valid path. A given path keeps its root, directory components and stem. With no `--output` the path is `generated/<slug>-<timestamp><ext>`. The only failure is a given path with an empty name, which `with_suffix` refuses |
| `Pipeline.GenerationOutcome` | scripts/generate_image.py:116-201 | the key is checked first (`MissingApiKey` exactly when no usable key), then the references (their error); after that an HTTP error status gives `ApiError` with its code and body, an unreachable server `NetworkError` with its reason, and a delivered answer exactly the image selection's result; a success carries the detected type |
| `Pipeline.GenerateImage` | scripts/generate_image.py:95-201 | computes `GenerationOutcome`; a request is sent exactly when the key and every used reference are present; the request carries the model and key in its URL, the parts list, `["TEXT", "IMAGE"]` and the image settings |
| `Pipeline.Run` | scripts/generate_image.py:267-316 | a request is sent exactly when the key and the used references pass; it goes to the URL of the chosen model with that key and carries the parts, `["TEXT", "IMAGE"]` and the parsed aspect ratio and size. A generation failure is the run's failure; otherwise the run fails only on a given path with an empty name. The saved bytes are the generated ones, the file's suffix names their detected format, and the printed path parses back to the written path. A given `--output` keeps its root, directory components and stem; with no `--output`, the path is `generated/<slug>-<timestamp><ext>` |

## Left out

- HTTP and JSON: building and parsing bodies, headers and the 180-second timeout are not modelled. The reply arrives already decoded, as a `Reply`.
- Base64: parts hold raw bytes. Encoding and then decoding is assumed to give the bytes back.
- File system: `Path.exists` and `read_bytes` become lookups in the `files` map. A path that exists but cannot be read (a directory, say) is not modelled. `mkdir` and `write_bytes` are not modelled; `Run` returns what would be written.
- Console output: every `print` to stderr or stdout is left out, including the warning about extra references, the note on a mismatched reported MIME type, the text-only reply message and the suffix-change note. The one stdout line is kept as `Saved.printed`.
- Option parsing: `argparse` itself is not modelled. `Args` holds the parsed options with defaults already filled in, so the defaults (`1:1`, `2K`, `pro`) do not appear. `Run` requires `ValidArgs`: the aspect ratio and size are in the choice lists `AspectRatios` and `ImageSizes`, which `argparse` enforces. `Model` has the two entries of `MODELS`.
- `time.time()` becomes the `timestamp` parameter. It is a `nat`, so clocks set before 1970 are not covered.
- Slug.Slug: the classes `\w` and `\s` and `str.lower` are restricted to ASCII, because Unicode tables are out of scope. Non-ASCII letters, digits and spaces, which Python keeps or lowers, are dropped or kept unchanged here. The same holds for Slug.RemoveIllegal, Slug.Strip, Slug.LowerChar, Slug.Lower and Slug.WordChars.
- GeminiResponse.SelectImage: JSON `null` is not modelled; each field is either present with the expected type or absent. A `null` `candidates` ends the script with the no-candidates message, as an absent one (`None` here) does. A `null` `mimeType` or `text` changes only a stderr line. A `null` candidate, `content`, `parts`, part, `inlineData` or `data`, and an inline part without a `data` key, make the script crash (lines 182-187); the model has no crash outcome for them.
- PurePaths.WithSuffix: follows POSIX `pathlib` as of Python 3.10 to 3.12. Other versions may differ for names that end in a dot. Windows paths are not covered.
- Pipeline.GenerateImage: the reference-image count printed by `main` and the progress messages are left out, as above.
