/** The file-name slug derived from a prompt when no output path is given:
    drop characters outside `[\w\s-]`, strip surrounding whitespace, lower
    the case, turn every run of hyphens and whitespace into one hyphen, keep
    at most 50 characters, and fall back to "untitled".
    Character classes are those of ASCII (see README). */
module Slug {
  import opened Common

  const MaxSlugLength := 50
  const Untitled := "untitled"

  /** `\w` on ASCII. */
  predicate IsWordChar(c: char) {
    'a' <= c <= 'z' || 'A' <= c <= 'Z' || '0' <= c <= '9' || c == '_'
  }

  /** `\s` and `str.isspace` on ASCII: tab to carriage return, the four
      information separators, and space. */
  predicate IsSpace(c: char) {
    '\t' <= c <= '\r' || '\U{1c}' <= c <= ' '
  }

  /** A character of the class `[-\s]`. */
  predicate IsSeparator(c: char) {
    c == '-' || IsSpace(c)
  }

  /** What a finished slug is made of: lower-case word characters and `-`. */
  predicate IsSlugChar(c: char) {
    'a' <= c <= 'z' || '0' <= c <= '9' || c == '_' || c == '-'
  }

  predicate IsUpper(c: char) {
    'A' <= c <= 'Z'
  }

  predicate NoDoubleHyphen(s: string) {
    forall i :: 0 <= i < |s| - 1 ==> !(s[i] == '-' && s[i + 1] == '-')
  }

  /** `re.sub(r'[^\w\s-]', '', s)`: keeps, in order, the word characters,
      whitespace and hyphens of `s`. */
  function RemoveIllegal(s: string): (r: string)
    ensures |r| <= |s|
    ensures forall i :: 0 <= i < |r| ==> IsWordChar(r[i]) || IsSeparator(r[i])
    ensures (forall i :: 0 <= i < |s| ==> IsWordChar(s[i]) || IsSeparator(s[i])) ==> r == s
  {
    if s == [] then []
    else (if IsWordChar(s[0]) || IsSeparator(s[0]) then [s[0]] else []) + RemoveIllegal(s[1..])
  }

  /** On a single character RemoveIllegal keeps it exactly when it is a
      word character, whitespace or a hyphen. */
  lemma RemoveIllegalChar(c: char)
    ensures RemoveIllegal([c]) == if IsWordChar(c) || IsSeparator(c) then [c] else []
  {
    assert [c][1..] == [];
  }

  /** RemoveIllegal works character by character: on a concatenation it is
      the concatenation of the two results. */
  lemma {:induction false} RemoveIllegalConcat(a: string, b: string)
    ensures RemoveIllegal(a + b) == RemoveIllegal(a) + RemoveIllegal(b)
    decreases |a|
  {
    if a == [] {
      assert a + b == b;
    } else {
      assert (a + b)[0] == a[0];
      assert (a + b)[1..] == a[1..] + b;
      RemoveIllegalConcat(a[1..], b);
    }
  }

  /** A prompt with no word character and no hyphen loses everything but its
      whitespace. */
  lemma {:induction false} RemoveIllegalLeavesSpaces(s: string)
    requires forall i :: 0 <= i < |s| ==> !IsWordChar(s[i]) && s[i] != '-'
    ensures forall i :: 0 <= i < |RemoveIllegal(s)| ==> IsSpace(RemoveIllegal(s)[i])
    decreases |s|
  {
    if s != [] {
      RemoveIllegalLeavesSpaces(s[1..]);
    }
  }

  /** How many whitespace characters `s` starts with. */
  function LeadingSpaces(s: string): (n: nat)
    ensures n <= |s|
    ensures forall i :: 0 <= i < n ==> IsSpace(s[i])
    ensures n < |s| ==> !IsSpace(s[n])
  {
    if s != [] && IsSpace(s[0]) then 1 + LeadingSpaces(s[1..]) else 0
  }

  /** How many whitespace characters `s` ends with. */
  function TrailingSpaces(s: string): (n: nat)
    ensures n <= |s|
    ensures forall i :: |s| - n <= i < |s| ==> IsSpace(s[i])
    ensures n < |s| ==> !IsSpace(s[|s| - 1 - n])
  {
    if s != [] && IsSpace(s[|s| - 1]) then 1 + TrailingSpaces(s[..|s| - 1]) else 0
  }

  /** `str.strip()`: no whitespace at either end, nothing new let in, and a
      string already without surrounding whitespace left as it is. */
  function Strip(s: string): (r: string)
    ensures |r| <= |s|
    ensures r == [] || (!IsSpace(r[0]) && !IsSpace(r[|r| - 1]))
    ensures (forall i :: 0 <= i < |s| ==> IsWordChar(s[i]) || IsSeparator(s[i]))
            ==> forall i :: 0 <= i < |r| ==> IsWordChar(r[i]) || IsSeparator(r[i])
    ensures s == [] || (!IsSpace(s[0]) && !IsSpace(s[|s| - 1])) ==> r == s
  {
    var lo := LeadingSpaces(s);
    if lo == |s| then [] else s[lo..|s| - TrailingSpaces(s)]
  }

  /** Strip keeps exactly the part of `s` between its leading and its
      trailing whitespace, and gives the empty string when `s` is all
      whitespace. The bounds mean what they say through the contracts of
      LeadingSpaces and TrailingSpaces; StripIsTrimmedMiddle states the same
      result without them. */
  lemma StripKeepsMiddle(s: string)
    ensures LeadingSpaces(s) == |s| ==> Strip(s) == []
    ensures LeadingSpaces(s) < |s| ==> Strip(s) == s[LeadingSpaces(s)..|s| - TrailingSpaces(s)]
  {
  }

  /** Whichever way `s` is cut into whitespace, a middle that neither starts
      nor ends with whitespace, and whitespace, Strip returns that middle; and
      a string of whitespace only strips to nothing. */
  lemma StripIsTrimmedMiddle(s: string, lo: nat, hi: nat)
    requires lo < hi <= |s|
    requires forall i :: 0 <= i < lo ==> IsSpace(s[i])
    requires forall i :: hi <= i < |s| ==> IsSpace(s[i])
    requires !IsSpace(s[lo]) && !IsSpace(s[hi - 1])
    ensures Strip(s) == s[lo..hi]
  {
  }

  lemma StripOfWhitespace(s: string)
    requires forall i :: 0 <= i < |s| ==> IsSpace(s[i])
    ensures Strip(s) == []
  {
  }

  /** One character of `str.lower()` on ASCII: a capital becomes the
      matching small letter, anything else stays. */
  function LowerChar(c: char): (d: char)
    ensures IsUpper(c) ==> 'a' <= d <= 'z' && d as int - c as int == 'a' as int - 'A' as int
    ensures !IsUpper(c) ==> d == c
  {
    if IsUpper(c) then (c as int + 32) as char else c
  }

  /** `str.lower()` on ASCII: each character lowered in place, so no
      upper-case letter is left and the class of every character (word, whitespace, hyphen) kept. */
  function Lower(s: string): (r: string)
    ensures |r| == |s|
    ensures forall i :: 0 <= i < |r| ==> r[i] == LowerChar(s[i])
    ensures forall i :: 0 <= i < |r| ==> !IsUpper(r[i])
    ensures forall i :: 0 <= i < |r| ==> IsWordChar(r[i]) == IsWordChar(s[i]) && IsSpace(r[i]) == IsSpace(s[i])
    ensures forall i :: 0 <= i < |r| ==> (r[i] == '-') == (s[i] == '-')
    ensures (forall i :: 0 <= i < |s| ==> !IsUpper(s[i])) ==> r == s
  {
    seq(|s|, i requires 0 <= i < |s| => LowerChar(s[i]))
  }

  /** How many separators `s` starts with. */
  function LeadingSeparators(s: string): (n: nat)
    ensures n <= |s|
    ensures forall i :: 0 <= i < n ==> IsSeparator(s[i])
    ensures n < |s| ==> !IsSeparator(s[n])
  {
    if s != [] && IsSeparator(s[0]) then 1 + LeadingSeparators(s[1..]) else 0
  }

  /** `re.sub(r'[-\s]+', '-', s)`: every maximal run of separators becomes a
      single hyphen, so the result holds no whitespace and no two adjacent
      hyphens, and starts with a hyphen exactly when `s` starts with a
      separator. */
  function Collapse(s: string): (r: string)
    ensures |r| <= |s|
    ensures forall i :: 0 <= i < |r| ==> !IsSpace(r[i])
    ensures NoDoubleHyphen(r)
    ensures r == [] <==> s == []
    ensures r != [] ==> (r[0] == '-' <==> IsSeparator(s[0]))
    ensures (forall i :: 0 <= i < |s| ==> IsSlugChar(s[i]) || IsSpace(s[i]))
            ==> forall i :: 0 <= i < |r| ==> IsSlugChar(r[i])
    decreases |s|
  {
    if s == [] then []
    else if IsSeparator(s[0]) then "-" + Collapse(s[LeadingSeparators(s)..])
    else [s[0]] + Collapse(s[1..])
  }

  /** Collapse is fixed by two facts: a string without separators is left
      as it is (CollapseWithoutSeparators), and a maximal run of separators
      between two (possibly empty) stretches becomes exactly one hyphen
      (CollapseAcrossSeparators). */
  lemma {:induction false} CollapseWithoutSeparators(s: string)
    requires forall i :: 0 <= i < |s| ==> !IsSeparator(s[i])
    ensures Collapse(s) == s
    decreases |s|
  {
    if s != [] {
      CollapseWithoutSeparators(s[1..]);
      assert [s[0]] + s[1..] == s;
    }
  }

  lemma {:induction false} CollapseAcrossSeparators(a: string, sep: string, b: string)
    requires a == [] || !IsSeparator(a[|a| - 1])
    requires sep != [] && forall i :: 0 <= i < |sep| ==> IsSeparator(sep[i])
    requires b == [] || !IsSeparator(b[0])
    ensures Collapse(a + sep + b) == Collapse(a) + "-" + Collapse(b)
    decreases |a|
  {
    if a == [] {
      assert a + sep + b == sep + b;
      CollapseLeadingRun(sep, b);
      Regroup([], [], Collapse(b));
    } else {
      var h, k := CollapseStep(a, sep + b);
      Associate(a, sep, b);
      Associate(a[k..], sep, b);
      CollapseAcrossSeparators(a[k..], sep, b);
      Regroup(h, Collapse(a[k..]), Collapse(b));
    }
  }

  /** One step of Collapse on `a + t`, where `a` does not end in a separator:
      the head `h` it emits and the length `k` of `a` it consumes do not
      depend on `t`. */
  lemma CollapseStep(a: string, t: string) returns (h: string, k: nat)
    requires a != [] && !IsSeparator(a[|a| - 1])
    ensures 0 < k <= |a|
    ensures Collapse(a + t) == h + Collapse(a[k..] + t)
    ensures Collapse(a) == h + Collapse(a[k..])
  {
    assert (a + t)[0] == a[0];
    if IsSeparator(a[0]) {
      h, k := "-", LeadingSeparators(a);
      LeadingSeparatorsOfPrefix(a, t);
      assert (a + t)[k..] == a[k..] + t;
    } else {
      h, k := [a[0]], 1;
      assert (a + t)[1..] == a[1..] + t;
    }
  }

  /** A run of separators in front of a word, or at the end, becomes one hyphen. */
  lemma CollapseLeadingRun(sep: string, b: string)
    requires sep != [] && forall i :: 0 <= i < |sep| ==> IsSeparator(sep[i])
    requires b == [] || !IsSeparator(b[0])
    ensures Collapse(sep + b) == "-" + Collapse(b)
  {
    LeadingSeparatorsOfRun(sep, b);
    assert (sep + b)[0] == sep[0];
    assert (sep + b)[|sep|..] == b;
  }

  lemma Associate(x: string, y: string, z: string)
    ensures x + (y + z) == x + y + z
  {
  }

  lemma Regroup(h: string, x: string, c: string)
    ensures h + (x + "-" + c) == (h + x) + "-" + c
  {
  }

  lemma {:induction false} LeadingSeparatorsOfRun(sep: string, b: string)
    requires forall i :: 0 <= i < |sep| ==> IsSeparator(sep[i])
    requires b == [] || !IsSeparator(b[0])
    ensures LeadingSeparators(sep + b) == |sep|
    decreases |sep|
  {
    if sep == [] {
      assert sep + b == b;
    } else {
      assert (sep + b)[1..] == sep[1..] + b;
      LeadingSeparatorsOfRun(sep[1..], b);
    }
  }


  lemma {:induction false} LeadingSeparatorsOfPrefix(a: string, t: string)
    requires a != [] && !IsSeparator(a[|a| - 1])
    ensures LeadingSeparators(a) < |a|
    ensures LeadingSeparators(a + t) == LeadingSeparators(a)
    decreases |a|
  {
    if IsSeparator(a[0]) {
      assert (a + t)[1..] == a[1..] + t;
      LeadingSeparatorsOfPrefix(a[1..], t);
    }
  }


  /** The characters of `s` that are not separators, in order. */
  function Words(s: string): string {
    if s == [] then [] else (if IsSeparator(s[0]) then [] else [s[0]]) + Words(s[1..])
  }

  /** The word characters of `s`, in order. */
  function WordChars(s: string): string {
    if s == [] then [] else (if IsWordChar(s[0]) then [s[0]] else []) + WordChars(s[1..])
  }

  lemma {:induction false} WordsConcat(a: string, b: string)
    ensures Words(a + b) == Words(a) + Words(b)
    decreases |a|
  {
    if a == [] {
      assert a + b == b;
    } else {
      assert (a + b)[0] == a[0];
      assert (a + b)[1..] == a[1..] + b;
      WordsConcat(a[1..], b);
    }
  }

  lemma {:induction false} WordsOfSeparators(s: string)
    requires forall i :: 0 <= i < |s| ==> IsSeparator(s[i])
    ensures Words(s) == []
    decreases |s|
  {
    if s != [] {
      WordsOfSeparators(s[1..]);
    }
  }

  /** Collapsing keeps every character that is not a separator, in order:
      only the runs of separators between them change. */
  lemma {:induction false} CollapseKeepsWords(s: string)
    ensures Words(Collapse(s)) == Words(s)
    decreases |s|
  {
    if s != [] {
      var r := Collapse(s);
      if IsSeparator(s[0]) {
        var n := LeadingSeparators(s);
        CollapseKeepsWords(s[n..]);
        assert s == s[..n] + s[n..];
        WordsConcat(s[..n], s[n..]);
        WordsOfSeparators(s[..n]);
        assert r[0] == '-' && r[1..] == Collapse(s[n..]);
      } else {
        CollapseKeepsWords(s[1..]);
        assert r[0] == s[0] && r[1..] == Collapse(s[1..]);
      }
    }
  }

  /** The word characters of a prompt are the characters that survive
      RemoveIllegal and are not separators. */
  lemma {:induction false} RemoveIllegalKeepsWords(s: string)
    ensures Words(RemoveIllegal(s)) == WordChars(s)
    decreases |s|
  {
    if s != [] {
      RemoveIllegalKeepsWords(s[1..]);
      var r := RemoveIllegal(s);
      if IsWordChar(s[0]) || IsSeparator(s[0]) {
        assert r[0] == s[0] && r[1..] == RemoveIllegal(s[1..]);
      } else {
        assert r == RemoveIllegal(s[1..]);
      }
    }
  }

  /** Stripping removes only whitespace, so no word is lost. */
  lemma StripKeepsWords(s: string)
    ensures Words(Strip(s)) == Words(s)
  {
    StripKeepsMiddle(s);
    if LeadingSpaces(s) == |s| {
      WordsOfSeparators(s);
    } else {
      WordsBetweenSeparators(s, LeadingSpaces(s), |s| - TrailingSpaces(s));
    }
  }

  /** Cutting separators off both ends of a string loses no word. */
  lemma WordsBetweenSeparators(s: string, lo: nat, hi: nat)
    requires lo <= hi <= |s|
    requires forall i :: 0 <= i < lo ==> IsSeparator(s[i])
    requires forall i :: hi <= i < |s| ==> IsSeparator(s[i])
    ensures Words(s[lo..hi]) == Words(s)
  {
    WordsBeforeSeparators(s, hi);
    var front := s[..hi];
    WordsAfterSeparators(front, lo);
    assert front[lo..] == s[lo..hi];
  }

  lemma {:induction false} WordsAfterSeparators(s: string, k: nat)
    requires k <= |s|
    requires forall i :: 0 <= i < k ==> IsSeparator(s[i])
    ensures Words(s[k..]) == Words(s)
    decreases k
  {
    if k > 0 {
      WordsAfterSeparators(s[1..], k - 1);
      assert s[1..][k - 1..] == s[k..];
    }
  }

  lemma {:induction false} WordsBeforeSeparators(s: string, k: nat)
    requires k <= |s|
    requires forall i :: k <= i < |s| ==> IsSeparator(s[i])
    ensures Words(s[..k]) == Words(s)
    decreases |s|
  {
    if k == 0 {
      WordsOfSeparators(s);
    } else {
      WordsBeforeSeparators(s[1..], k - 1);
      assert s[..k][1..] == s[1..][..k - 1];
    }
  }

  lemma LowerConcat(a: string, b: string)
    ensures Lower(a + b) == Lower(a) + Lower(b)
  {
    var l, r := Lower(a + b), Lower(a) + Lower(b);
    forall i | 0 <= i < |l| ensures l[i] == r[i] {
      if i >= |a| {
        assert (a + b)[i] == b[i - |a|];
      }
    }
  }

  /** Lowering commutes with picking out the words. */
  lemma {:induction false} LowerKeepsWords(s: string)
    ensures Words(Lower(s)) == Lower(Words(s))
    decreases |s|
  {
    if s != [] {
      LowerKeepsWords(s[1..]);
      assert s == [s[0]] + s[1..];
      LowerConcat([s[0]], s[1..]);
      var head := if IsSeparator(s[0]) then [] else [s[0]];
      LowerConcat(head, Words(s[1..]));
      var l := Lower(s);
      assert l[0] == LowerChar(s[0]) && l[1..] == Lower(s[1..]);
    }
  }

  /** After illegal characters are removed, the ends stripped and the case
      lowered, only slug characters and whitespace remain, with no
      whitespace at either end, and the non-separators left are the
      prompt's word characters in lower case, in order. */
  function Cleaned(prompt: string): (cleaned: string)
    ensures |cleaned| <= |prompt|
    ensures forall i :: 0 <= i < |cleaned| ==> IsSlugChar(cleaned[i]) || IsSpace(cleaned[i])
    ensures cleaned == [] || (!IsSpace(cleaned[0]) && !IsSpace(cleaned[|cleaned| - 1]))
    ensures Words(cleaned) == Lower(WordChars(prompt))
  {
    var legal := RemoveIllegal(prompt);
    var stripped := Strip(legal);
    LoweredIsSlugOrSpace(stripped);
    RemoveIllegalKeepsWords(prompt);
    StripKeepsWords(legal);
    LowerKeepsWords(stripped);
    Lower(stripped)
  }

  lemma LowerCharClass(c: char)
    requires IsWordChar(c) || IsSeparator(c)
    ensures IsSlugChar(LowerChar(c)) || IsSpace(LowerChar(c))
  {
  }

  /** Lowering word characters, whitespace and hyphens leaves only slug
      characters and whitespace. */
  lemma LoweredIsSlugOrSpace(s: string)
    requires forall i :: 0 <= i < |s| ==> IsWordChar(s[i]) || IsSeparator(s[i])
    ensures forall i :: 0 <= i < |Lower(s)| ==> IsSlugChar(Lower(s)[i]) || IsSpace(Lower(s)[i])
  {
    forall i | 0 <= i < |s| ensures IsSlugChar(Lower(s)[i]) || IsSpace(Lower(s)[i]) {
      LowerCharClass(s[i]);
    }
  }

  /** The collapsed text cut to its first 50 characters, or "untitled" when
      nothing is left; either way a non-empty run of slug characters
      without two hyphens in a row. */
  function Truncated(collapsed: string): (slug: string)
    requires forall i :: 0 <= i < |collapsed| ==> IsSlugChar(collapsed[i])
    requires NoDoubleHyphen(collapsed)
    ensures 0 < |slug| <= MaxSlugLength
    ensures forall i :: 0 <= i < |slug| ==> IsSlugChar(slug[i]) && !IsSpace(slug[i])
    ensures NoDoubleHyphen(slug)
    ensures collapsed == [] ==> slug == Untitled
    ensures collapsed != [] ==> slug == collapsed[..Min(|collapsed|, MaxSlugLength)]
  {
    if collapsed == [] then Untitled else collapsed[..Min(|collapsed|, MaxSlugLength)]
  }

  /** The slug built from a prompt. */
  function Slug(prompt: string): (slug: string)
    ensures 0 < |slug| <= MaxSlugLength
    ensures forall i :: 0 <= i < |slug| ==> IsSlugChar(slug[i])
    ensures forall i :: 0 <= i < |slug| ==> !IsSpace(slug[i])
    ensures NoDoubleHyphen(slug)
  {
    Truncated(Collapse(Cleaned(prompt)))
  }

  /** What a slug keeps of its prompt: leaving the hyphens aside, it is a
      prefix of the prompt's word characters in lower case, and all of them
      when the prompt is at most 50 characters long. */
  lemma SlugKeepsWords(prompt: string)
    requires WordChars(prompt) != []
    ensures Words(Slug(prompt)) <= Lower(WordChars(prompt))
    ensures |prompt| <= MaxSlugLength ==> Words(Slug(prompt)) == Lower(WordChars(prompt))
  {
    var cleaned := Cleaned(prompt);
    var collapsed := Collapse(cleaned);
    CollapseKeepsWords(cleaned);
    assert Words(collapsed) != [];
    var k := Min(|collapsed|, MaxSlugLength);
    assert Slug(prompt) == collapsed[..k];
    WordsOfPrefix(collapsed, k);
  }

  /** The words of a prefix are a prefix of the words. */
  lemma WordsOfPrefix(s: string, k: nat)
    requires k <= |s|
    ensures Words(s[..k]) <= Words(s)
    ensures k == |s| ==> Words(s[..k]) == Words(s)
  {
    assert s == s[..k] + s[k..];
    WordsConcat(s[..k], s[k..]);
  }

  /** A prompt with no word character and no hyphen gives "untitled". */
  lemma SlugWithoutWords(prompt: string)
    requires forall i :: 0 <= i < |prompt| ==> !IsWordChar(prompt[i]) && prompt[i] != '-'
    ensures Slug(prompt) == Untitled
  {
    CleanedOfSpaces(prompt);
  }

  lemma CleanedOfSpaces(prompt: string)
    requires forall i :: 0 <= i < |prompt| ==> !IsWordChar(prompt[i]) && prompt[i] != '-'
    ensures Cleaned(prompt) == []
  {
    var legal := RemoveIllegal(prompt);
    RemoveIllegalLeavesSpaces(prompt);
    assert LeadingSpaces(legal) == |legal|;
    StripKeepsMiddle(legal);
  }

  /** A string that already has the shape of a slug's collapsed part comes
      out of Collapse unchanged. */
  lemma {:induction false} CollapseKeepsSlug(s: string)
    requires forall i :: 0 <= i < |s| ==> IsSlugChar(s[i])
    requires NoDoubleHyphen(s)
    ensures Collapse(s) == s
    decreases |s|
  {
    if s != [] {
      if IsSeparator(s[0]) {
        assert s[0] == '-';
        assert LeadingSeparators(s) == 1 by {
          assert s[1..] == [] || !IsSeparator(s[1]);
        }
        CollapseKeepsSlug(s[1..]);
      } else {
        CollapseKeepsSlug(s[1..]);
      }
    }
  }

  /** Cleaning leaves a string of slug characters as it is. */
  lemma CleaningKeepsSlugChars(s: string)
    requires forall i :: 0 <= i < |s| ==> IsSlugChar(s[i])
    ensures Cleaned(s) == s
  {
    RemoveKeepsSlugChars(s);
    StripKeepsSlugChars(s);
    LowerKeepsSlugChars(s);
  }

  lemma RemoveKeepsSlugChars(s: string)
    requires forall i :: 0 <= i < |s| ==> IsSlugChar(s[i])
    ensures RemoveIllegal(s) == s
  {
    assert forall i :: 0 <= i < |s| ==> IsWordChar(s[i]) || IsSeparator(s[i]);
  }

  lemma StripKeepsSlugChars(s: string)
    requires forall i :: 0 <= i < |s| ==> IsSlugChar(s[i])
    ensures Strip(s) == s
  {
    if s != [] {
      assert IsSlugChar(s[0]) && IsSlugChar(s[|s| - 1]);
    }
  }

  lemma LowerKeepsSlugChars(s: string)
    requires forall i :: 0 <= i < |s| ==> IsSlugChar(s[i])
    ensures Lower(s) == s
  {
    assert forall i :: 0 <= i < |s| ==> !IsUpper(s[i]);
  }

  lemma CollapseOfCleanedSlug(s: string)
    requires forall i :: 0 <= i < |s| ==> IsSlugChar(s[i])
    requires NoDoubleHyphen(s)
    ensures Collapse(Cleaned(s)) == s
  {
    CleaningKeepsSlugChars(s);
    CollapseKeepsSlug(s);
  }

  lemma TruncatedKeepsShortSlug(s: string)
    requires 0 < |s| <= MaxSlugLength
    requires forall i :: 0 <= i < |s| ==> IsSlugChar(s[i])
    requires NoDoubleHyphen(s)
    ensures Truncated(s) == s
  {
    assert s[..|s|] == s;
  }

  /** A string already shaped like a slug is its own slug. */
  lemma SlugFixesSlugs(s: string)
    requires 0 < |s| <= MaxSlugLength
    requires forall i :: 0 <= i < |s| ==> IsSlugChar(s[i])
    requires NoDoubleHyphen(s)
    ensures Slug(s) == s
  {
    CollapseOfCleanedSlug(s);
    TruncatedKeepsShortSlug(s);
  }

  /** Deriving a slug from a slug gives it back: the derivation is
      idempotent. */
  lemma SlugIdempotent(prompt: string)
    ensures Slug(Slug(prompt)) == Slug(prompt)
  {
    SlugFixesSlugs(Slug(prompt));
  }
}
