/** The part of POSIX `pathlib` the script relies on: parsing a path string,
    the final component's suffix, replacing that suffix, joining, and the
    string form of a path. */
module PurePaths {
  import opened Common

  /** A parsed path: its root ("", "/" or, as POSIX allows, "//") and its
      components, none of them empty or ".". */
  datatype PurePath = PurePath(root: string, parts: seq<string>)

  predicate IsName(x: string) {
    x != "" && x != "." && '/' !in x
  }

  predicate ValidPath(p: PurePath) {
    (p.root == "" || p.root == "/" || p.root == "//")
    && forall i :: 0 <= i < |p.parts| ==> IsName(p.parts[i])
  }

  /** `s.split('/')`. */
  function Split(s: string): (r: seq<string>)
    ensures |r| >= 1
    ensures forall i :: 0 <= i < |r| ==> '/' !in r[i]
  {
    if s == [] then [""]
    else
      var rest := Split(s[1..]);
      if s[0] == '/' then [""] + rest else [[s[0]] + rest[0]] + rest[1..]
  }

  /** The segments that name something: empty and "." segments dropped. */
  function KeepNames(segments: seq<string>): seq<string> {
    if segments == [] then []
    else (if segments[0] != "" && segments[0] != "." then [segments[0]] else []) + KeepNames(segments[1..])
  }

  function LeadingSlashes(s: string): (n: nat)
    ensures n <= |s|
    ensures forall i :: 0 <= i < n ==> s[i] == '/'
    ensures n < |s| ==> s[n] != '/'
  {
    if s != [] && s[0] == '/' then 1 + LeadingSlashes(s[1..]) else 0
  }

  /** POSIX root rule: exactly two leading slashes are kept as "//", any
      other positive number reads as "/". */
  function RootOf(s: string): string {
    var n := LeadingSlashes(s);
    if n == 0 then "" else if n == 2 then "//" else "/"
  }

  /** `PurePosixPath(s)`. */
  function ParsePath(s: string): (p: PurePath)
    ensures ValidPath(p)
    ensures p.root != "" <==> s != [] && s[0] == '/'
    ensures p.root == "//" <==> LeadingSlashes(s) == 2
    ensures p.root == "/" <==> LeadingSlashes(s) == 1 || LeadingSlashes(s) > 2
  {
    KeepNamesAreNames(Split(s));
    PurePath(RootOf(s), KeepNames(Split(s)))
  }

  /** `path.name`: the last component, or "" for a bare root or ".". */
  function Name(p: PurePath): (name: string)
    ensures ValidPath(p) ==> (name == "" <==> p.parts == [])
    ensures ValidPath(p) && name != "" ==> IsName(name)
    ensures name != "" ==> ParentParts(p) + [name] == p.parts
  {
    if p.parts == [] then "" else p.parts[|p.parts| - 1]
  }

  /** The components before the name (`path.parent`'s components). */
  function ParentParts(p: PurePath): seq<string> {
    if p.parts == [] then [] else p.parts[..|p.parts| - 1]
  }

  /** `str.rfind(c)`: the last index holding `c`, or -1. */
  function RFind(s: string, c: char): (i: int)
    ensures -1 <= i < |s|
    ensures i >= 0 ==> s[i] == c
    ensures forall j :: i < j < |s| ==> s[j] != c
  {
    if s == [] then -1
    else if s[|s| - 1] == c then |s| - 1
    else RFind(s[..|s| - 1], c)
  }

  /** `path.suffix` of a name: from its last dot on, provided that dot is
      neither the first nor the last character. A non-empty suffix is a
      dot, at least one more character and no further dot, and something
      (the stem) precedes it. */
  function SuffixOf(name: string): (suffix: string)
    ensures suffix != "" ==> |suffix| < |name| && suffix == name[|name| - |suffix|..]
    ensures suffix != "" ==> |suffix| >= 2 && suffix[0] == '.'
    ensures forall j :: 0 < j < |suffix| ==> suffix[j] != '.'
  {
    var i := RFind(name, '.');
    if 0 < i < |name| - 1 then name[i..] else ""
  }

  /** `path.stem` of a name: the name without its suffix. */
  function StemOf(name: string): (stem: string)
    ensures name != "" ==> stem != ""
    ensures name == stem + SuffixOf(name)
  {
    name[..|name| - |SuffixOf(name)|]
  }

  /** The suffixes `with_suffix` accepts: none, or one starting with a dot
      that is more than the dot; never a separator. */
  predicate AcceptedSuffix(suffix: string) {
    '/' !in suffix && (suffix == "" || (suffix[0] == '.' && suffix != "."))
  }

  /** A suffix `with_suffix` accepts and `suffix` reports back: a dot and at
      least one more character, with no other dot and no separator. */
  predicate IsExtension(e: string) {
    |e| >= 2 && e[0] == '.' && forall i :: 1 <= i < |e| ==> e[i] != '.' && e[i] != '/'
  }

  /** `path.with_suffix(suffix)`: the last component's suffix is replaced,
      or the suffix added when there is none; the root and the other
      components are kept. A refused suffix or a path without a name raise
      `ValueError`. */
  function WithSuffix(p: PurePath, suffix: string): (r: Result<PurePath>)
    ensures r.Failure? <==> !AcceptedSuffix(suffix) || Name(p) == ""
    ensures r.Failure? ==> r.error == if AcceptedSuffix(suffix) then EmptyName else InvalidSuffix(suffix)
    ensures r.Success? ==> r.value.root == p.root && ParentParts(r.value) == ParentParts(p)
    ensures r.Success? ==> Name(r.value) == StemOf(Name(p)) + suffix
    ensures r.Success? && IsExtension(suffix) ==> SuffixOf(Name(r.value)) == suffix
    ensures r.Success? && IsExtension(suffix) ==> StemOf(Name(r.value)) == StemOf(Name(p))
    ensures r.Success? && IsExtension(suffix) && ValidPath(p) ==> ValidPath(r.value)
  {
    if !AcceptedSuffix(suffix) then Failure(InvalidSuffix(suffix))
    else if Name(p) == "" then Failure(EmptyName)
    else
      var name := StemOf(Name(p)) + suffix;
      SuffixOfStemAndExtension(StemOf(Name(p)), suffix);
      Success(PurePath(p.root, p.parts[..|p.parts| - 1] + [name]))
  }

  /** A non-empty stem followed by an extension has that extension as its
      suffix: the extension's dot is the last one in the name. */
  lemma SuffixOfStemAndExtension(stem: string, e: string)
    requires stem != ""
    ensures IsExtension(e) ==> SuffixOf(stem + e) == e
  {
    if IsExtension(e) {
      var name := stem + e;
      var i := RFind(name, '.');
      assert name[|stem|] == '.';
      assert i == |stem|;
      assert name[i..] == e;
    }
  }

  /** Setting the same extension twice is the same as setting it once. */
  lemma WithSuffixIdempotent(p: PurePath, e: string)
    requires IsExtension(e) && Name(p) != ""
    ensures WithSuffix(p, e).Success?
    ensures WithSuffix(WithSuffix(p, e).value, e) == WithSuffix(p, e)
  {
    var q := WithSuffix(p, e).value;
    var stem := StemOf(Name(p));
    assert StemOf(Name(q)) == stem by {
      assert Name(q) == stem + e;
      SuffixOfStemAndExtension(stem, e);
    }
    assert ParentParts(q) + [Name(q)] == q.parts;
  }

  /** `other` joined onto `p` (the `/` operator): an absolute `other`
      replaces `p`, a relative one appends its components. */
  function JoinPath(p: PurePath, other: string): (r: PurePath)
    ensures other != [] && other[0] == '/' ==> r == ParsePath(other)
    ensures !(other != [] && other[0] == '/') ==> r.root == p.root && r.parts == p.parts + ParsePath(other).parts
    ensures ValidPath(p) ==> ValidPath(r)
  {
    var q := ParsePath(other);
    if q.root != "" then q else PurePath(p.root, p.parts + q.parts)
  }

  /** `'/'.join(parts)`. */
  function Join(parts: seq<string>): string {
    if parts == [] then ""
    else if |parts| == 1 then parts[0]
    else parts[0] + "/" + Join(parts[1..])
  }

  /** `str(path)`: the root, then the components separated by slashes;
      "." for the empty relative path. */
  function Render(p: PurePath): (s: string)
    ensures ValidPath(p) ==> s != "" && (s[0] == '/' <==> p.root != "")
  {
    if p.root == "" && p.parts == [] then "." else p.root + Join(p.parts)
  }

  lemma {:induction false} SplitConcat(a: string, b: string)
    ensures Split(a + "/" + b) == Split(a) + Split(b)
    decreases |a|
  {
    if a == [] {
      assert a + "/" + b == "/" + b;
      assert ("/" + b)[1..] == b;
    } else {
      assert (a + "/" + b)[1..] == a[1..] + "/" + b;
      SplitConcat(a[1..], b);
    }
  }

  lemma {:induction false} SplitName(x: string)
    requires '/' !in x
    ensures Split(x) == [x]
    decreases |x|
  {
    if x != [] {
      SplitName(x[1..]);
      assert [x[0]] + x[1..] == x;
    }
  }

  lemma {:induction false} SplitJoin(parts: seq<string>)
    requires parts != []
    requires forall i :: 0 <= i < |parts| ==> '/' !in parts[i]
    ensures Split(Join(parts)) == parts
    decreases |parts|
  {
    SplitName(parts[0]);
    if |parts| > 1 {
      SplitConcat(parts[0], Join(parts[1..]));
      SplitJoin(parts[1..]);
      assert [parts[0]] + parts[1..] == parts;
    }
  }

  /** Segments without separators leave only names. */
  lemma {:induction false} KeepNamesAreNames(segments: seq<string>)
    requires forall i :: 0 <= i < |segments| ==> '/' !in segments[i]
    ensures forall i :: 0 <= i < |KeepNames(segments)| ==> IsName(KeepNames(segments)[i])
    decreases |segments|
  {
    if segments != [] {
      KeepNamesAreNames(segments[1..]);
    }
  }

  /** Segments that are all names are kept as they are. */
  lemma {:induction false} KeepNamesOfNames(segments: seq<string>)
    requires forall i :: 0 <= i < |segments| ==> IsName(segments[i])
    ensures KeepNames(segments) == segments
    decreases |segments|
  {
    if segments != [] {
      KeepNamesOfNames(segments[1..]);
      assert [segments[0]] + segments[1..] == segments;
    }
  }

  lemma {:induction false} KeepNamesConcat(a: seq<string>, b: seq<string>)
    ensures KeepNames(a + b) == KeepNames(a) + KeepNames(b)
    decreases |a|
  {
    if a != [] {
      var head := if a[0] != "" && a[0] != "." then [a[0]] else [];
      assert (a + b)[0] == a[0] && (a + b)[1..] == a[1..] + b;
      assert KeepNames(a + b) == head + KeepNames(a[1..] + b);
      KeepNamesConcat(a[1..], b);
      assert KeepNames(a) == head + KeepNames(a[1..]);
    } else {
      assert a + b == b;
    }
  }

  /** Two strings joined by a slash parse to the components of the first
      followed by those of the second: repeated slashes and `.` components
      vanish, whatever either side looks like. */
  lemma ParseSplits(a: string, b: string)
    ensures ParsePath(a + "/" + b).parts == ParsePath(a).parts + ParsePath(b).parts
  {
    SplitConcat(a, b);
    KeepNamesConcat(Split(a), Split(b));
  }

  /** The empty string and "." both name the empty relative path. */
  lemma ParseEmptyAndDot()
    ensures ParsePath("") == PurePath("", [])
    ensures ParsePath(".") == PurePath("", [])
  {
    assert Split("") == [""];
    SplitName(".");
  }

  /** A leading "./", as in `--output ./mascot.png`, leaves just the file
      name. */
  lemma ParseDotSlashName(x: string)
    requires IsName(x)
    ensures ParsePath("./" + x) == PurePath("", [x])
  {
    var s := "./" + x;
    assert s == "." + "/" + x;
    assert s[0] == '.';
    ParseSplits(".", x);
    ParseEmptyAndDot();
    SplitName(x);
    KeepNamesOfNames([x]);
  }

  lemma JoinStart(parts: seq<string>)
    requires parts != [] && parts[0] != ""
    ensures Join(parts) != [] && Join(parts)[0] == parts[0][0]
  {
  }

  lemma {:induction false} LeadingSlashesOfRoot(root: string, t: string)
    requires forall i :: 0 <= i < |root| ==> root[i] == '/'
    requires t == [] || t[0] != '/'
    ensures LeadingSlashes(root + t) == |root|
    decreases |root|
  {
    if root != [] {
      assert (root + t)[1..] == root[1..] + t;
      LeadingSlashesOfRoot(root[1..], t);
    }
  }

  /** The segments of a rendered path: one empty segment per slash of the
      root, then the components (or one empty segment when there are none). */
  lemma SplitRendered(root: string, parts: seq<string>, empties: seq<string>)
    requires root == "" || root == "/" || root == "//"
    requires empties == if root == "" then [] else if root == "/" then [""] else ["", ""]
    requires forall i :: 0 <= i < |parts| ==> IsName(parts[i])
    ensures Split(root + Join(parts)) == empties + (if parts == [] then [""] else parts)
  {
    var body := Join(parts);
    var segments := if parts == [] then [""] else parts;
    if parts != [] {
      SplitJoin(parts);
    }
    assert Split(body) == segments;
    if root == "" {
      assert root + body == body;
    } else if root == "/" {
      SplitConcat("", body);
      assert root + body == "" + "/" + body;
    } else {
      SplitConcat("/", body);
      assert root + body == "/" + "/" + body;
      assert Split("/") == ["", ""];
    }
  }

  /** Printing a path and parsing the printed string gives the same path
      back, so the path the script prints is the path it wrote. */
  lemma ParseRender(p: PurePath)
    requires ValidPath(p)
    ensures ParsePath(Render(p)) == p
  {
    var s := Render(p);
    if p.root == "" && p.parts == [] {
      assert s == ".";
      SplitName(s);
    } else {
      var body := Join(p.parts);
      if p.parts != [] {
        JoinStart(p.parts);
      }
      LeadingSlashesOfRoot(p.root, body);
      assert RootOf(s) == p.root;
      var empties: seq<string> := if p.root == "" then [] else if p.root == "/" then [""] else ["", ""];
      var segments: seq<string> := if p.parts == [] then [""] else p.parts;
      SplitRendered(p.root, p.parts, empties);
      KeepNamesConcat(empties, segments);
      assert KeepNames(empties) == [];
      if p.parts != [] {
        KeepNamesOfNames(p.parts);
      }
      assert KeepNames(Split(s)) == p.parts;
    }
  }
}
