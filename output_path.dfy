/** Where the image is written: the `--output` path, or
    `generated/<slug>-<timestamp>`, in either case with its suffix forced
    to the extension of the detected format. */
module OutputPath {
  import opened Common
  import opened PurePaths
  import Slug
  import ImageFormat

  const DefaultDirectory := "generated"

  predicate IsDigit(c: char) {
    '0' <= c <= '9'
  }

  function DigitChar(d: nat): char
    requires d < 10
  {
    "0123456789"[d]
  }

  /** `str(n)` for a non-negative integer: decimal digits, no leading zero. */
  function DecimalString(n: nat): (s: string)
    ensures s != []
    ensures forall i :: 0 <= i < |s| ==> IsDigit(s[i])
    ensures |s| > 1 ==> s[0] != '0'
  {
    if n < 10 then [DigitChar(n)] else DecimalString(n / 10) + [DigitChar(n % 10)]
  }

  /** The number a string of decimal digits denotes. */
  function DecimalValue(s: string): nat
    requires forall i :: 0 <= i < |s| ==> IsDigit(s[i])
  {
    if s == [] then 0
    else
      assert IsDigit(s[|s| - 1]);
      10 * DecimalValue(s[..|s| - 1]) + (s[|s| - 1] as int - '0' as int)
  }

  /** The timestamp can be read back from the file name. */
  lemma {:induction false} DecimalRoundTrip(n: nat)
    ensures DecimalValue(DecimalString(n)) == n
  {
    var s := DecimalString(n);
    if n >= 10 {
      DecimalRoundTrip(n / 10);
      assert s[..|s| - 1] == DecimalString(n / 10);
    }
  }

  /** `f"{slug}-{timestamp}"`: a single path component without a dot, so
      it has no suffix of its own. */
  function DefaultFileName(prompt: string, timestamp: nat): (name: string)
    ensures IsName(name)
    ensures SuffixOf(name) == ""
  {
    var slug, digits := Slug.Slug(prompt), DecimalString(timestamp);
    NoDotInSlugAndDigits(slug, digits);
    slug + "-" + digits
  }

  lemma NoDotInSlugAndDigits(slug: string, digits: string)
    requires forall i :: 0 <= i < |slug| ==> Slug.IsSlugChar(slug[i])
    requires forall i :: 0 <= i < |digits| ==> IsDigit(digits[i])
    ensures IsName(slug + "-" + digits)
    ensures SuffixOf(slug + "-" + digits) == ""
  {
    var name := slug + "-" + digits;
    forall i | 0 <= i < |name| ensures name[i] != '.' && name[i] != '/' {
      if i < |slug| {
        assert name[i] == slug[i];
      } else if i > |slug| {
        assert name[i] == digits[i - |slug| - 1];
      }
    }
    NoDotMeansNoSuffix(name);
  }

  /** The default file name is the slug, a hyphen, then digits from which
      the timestamp reads back. */
  lemma DefaultFileNameReadsBack(prompt: string, timestamp: nat)
    ensures var slug, name := Slug.Slug(prompt), DefaultFileName(prompt, timestamp);
            && |name| > |slug| + 1
            && name[..|slug|] == slug && name[|slug|] == '-'
            && (forall i :: |slug| < i < |name| ==> IsDigit(name[i]))
            && DecimalValue(name[|slug| + 1..]) == timestamp
  {
    var slug, digits := Slug.Slug(prompt), DecimalString(timestamp);
    DecimalRoundTrip(timestamp);
    assert (slug + "-" + digits)[|slug| + 1..] == digits;
  }

  /** A name without a dot has no suffix. */
  lemma NoDotMeansNoSuffix(name: string)
    requires forall i :: 0 <= i < |name| ==> name[i] != '.'
    ensures SuffixOf(name) == ""
  {
    assert RFind(name, '.') == -1;
  }

  /** A single component parses to itself. */
  lemma ParseName(x: string)
    requires IsName(x)
    ensures ParsePath(x) == PurePath("", [x])
  {
    SplitName(x);
    KeepNamesOfNames([x]);
  }

  /** A file name joined under the default directory adds one component. */
  lemma JoinUnderDefaultDirectory(name: string)
    requires IsName(name)
    ensures JoinPath(ParsePath(DefaultDirectory), name) == PurePath("", [DefaultDirectory, name])
  {
    ParseName(DefaultDirectory);
    ParseName(name);
  }

  lemma DefaultPathValid(name: string)
    requires IsName(name)
    ensures ValidPath(PurePath("", [DefaultDirectory, name]))
  {
    assert IsName(DefaultDirectory);
  }

  /** Giving an extension to a default path without a suffix appends it to
      the file name. */
  lemma ExtensionAppended(name: string, ext: string)
    requires IsName(name) && SuffixOf(name) == ""
    requires IsExtension(ext)
    ensures WithSuffix(PurePath("", [DefaultDirectory, name]), ext) == Success(PurePath("", [DefaultDirectory, name + ext]))
  {
    var p := PurePath("", [DefaultDirectory, name]);
    assert Name(p) == name && StemOf(name) == name;
    assert AcceptedSuffix(ext);
    assert p.parts[..1] + [name + ext] == [DefaultDirectory, name + ext];
  }

  /** The reassignments of `output_path` in `main`. A successful result
      always carries the extension of `mime` as its suffix. A given path
      keeps its root, its directory part and its stem; the default path is
      `generated/<slug>-<timestamp>` plus that extension. A given path
      without a final name makes `with_suffix` fail. */
  method ResolveOutputPath(output: Option<string>, prompt: string, mime: string, timestamp: nat)
    returns (r: Result<PurePath>)
    ensures r.Success? ==> ValidPath(r.value)
    ensures r.Success? ==> SuffixOf(Name(r.value)) == ImageFormat.GetExtension(mime)
    ensures r.Failure? <==> Truthy(output) && Name(ParsePath(output.value)) == ""
    ensures r.Failure? ==> r.error == EmptyName
    ensures Truthy(output) && r.Success? ==>
              var given := ParsePath(output.value);
              && r.value.root == given.root
              && ParentParts(r.value) == ParentParts(given)
              && StemOf(Name(r.value)) == StemOf(Name(given))
    ensures !Truthy(output) ==>
              r == Success(PurePath("", [DefaultDirectory, DefaultFileName(prompt, timestamp) + ImageFormat.GetExtension(mime)]))
  {
    var outputPath: PurePath;
    if Truthy(output) {
      outputPath := ParsePath(output.value);
    } else {
      var filename := DefaultFileName(prompt, timestamp);
      outputPath := JoinPath(ParsePath(DefaultDirectory), filename);
      JoinUnderDefaultDirectory(filename);
      DefaultPathValid(filename);
      ExtensionAppended(filename, ImageFormat.GetExtension(mime));
    }
    var correctExt := ImageFormat.GetExtension(mime);
    r := WithSuffix(outputPath, correctExt);
  }
}
