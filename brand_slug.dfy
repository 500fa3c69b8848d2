/**
 * The brand model's slug logic (product-api/models/Brand.js): `generateSlug`,
 * a chain of `toLowerCase` and three regular-expression replacements followed
 * by `trim`, and the pre-save hook that probes `base`, `base-1`, `base-2`, ...
 * until it finds a slug no other brand holds. The hook's `findOne` query is a
 * snapshot set of the slugs held by the other brands.
 */
module BrandSlug {
  import opened Seqs
  import opened Text
  import opened Refs

  predicate IsSlugChar(c: char)
  {
    'a' <= c <= 'z' || '0' <= c <= '9' || c == '-'
  }

  predicate NoDoubleHyphen(s: string)
  {
    forall i :: 0 <= i < |s| - 1 ==> !(s[i] == '-' && s[i + 1] == '-')
  }

  /** What `generateSlug` can produce: lower-case letters, digits and single hyphens. */
  predicate IsSlug(s: string)
  {
    (forall i :: 0 <= i < |s| ==> IsSlugChar(s[i])) && NoDoubleHyphen(s)
  }

  /** `toLowerCase` on ASCII. */
  function ToLower(c: char): char
  {
    if 'A' <= c <= 'Z' then (c as int + 32) as char else c
  }

  function LowerCase(s: string): (r: string)
    ensures |r| == |s|
    ensures forall i :: 0 <= i < |r| ==> !('A' <= r[i] <= 'Z')
    ensures forall i :: 0 <= i < |s| && !('A' <= s[i] <= 'Z') ==> r[i] == s[i]
    ensures forall i :: 0 <= i < |s| && 'A' <= s[i] <= 'Z' ==> r[i] as int == s[i] as int + 32
  {
    seq(|s|, i requires 0 <= i < |s| => ToLower(s[i]))
  }

  /** The characters that `.replace(/[^a-z0-9 -]/g, '')` keeps. */
  predicate IsKept(c: char)
  {
    'a' <= c <= 'z' || '0' <= c <= '9' || c == ' ' || c == '-'
  }

  function StripSpecial(s: string): (r: string)
    ensures IsSubsequence(r, s)
    ensures forall i :: 0 <= i < |r| ==> IsKept(r[i])
    ensures forall i :: 0 <= i < |s| && IsKept(s[i]) ==> s[i] in r
  {
    FilterIsSubsequence(s, IsKept);
    Filter(s, IsKept)
  }

  /**
   * `.replace(/\s+/g, '-')`: every maximal run of whitespace becomes one
   * hyphen. Read one character at a time: a whitespace character followed by
   * another is dropped, and the last one of a run becomes `-`.
   */
  function HyphenateWhitespace(s: string): (r: string)
    ensures forall i :: 0 <= i < |r| ==> !IsWhitespace(r[i])
    ensures s != [] ==> r != [] && r[0] == (if IsWhitespace(s[0]) then '-' else s[0])
    ensures s != [] ==> r[|r| - 1] == (if IsWhitespace(s[|s| - 1]) then '-' else s[|s| - 1])
  {
    if s == [] then []
    else if IsWhitespace(s[0]) && |s| > 1 && IsWhitespace(s[1]) then HyphenateWhitespace(s[1..])
    else [if IsWhitespace(s[0]) then '-' else s[0]] + HyphenateWhitespace(s[1..])
  }

  predicate IsHyphen(c: char)
  {
    c == '-'
  }

  /**
   * `.replace(/-+/g, '-')`: every maximal run of hyphens becomes one hyphen.
   * Read one character at a time: a hyphen followed by another is dropped.
   */
  function CollapseHyphens(s: string): (r: string)
    ensures NoDoubleHyphen(r)
    ensures s != [] ==> r != [] && r[0] == s[0] && r[|r| - 1] == s[|s| - 1]
  {
    if |s| > 1 && s[0] == '-' && s[1] == '-' then CollapseHyphens(s[1..])
    else if s == [] then []
    else [s[0]] + CollapseHyphens(s[1..])
  }

  /** On kept characters, the whitespace replacement leaves only slug characters. */
  lemma {:induction false} HyphenateWhitespaceKeepsSlugChars(s: string)
    requires forall i :: 0 <= i < |s| ==> IsKept(s[i])
    ensures forall i :: 0 <= i < |HyphenateWhitespace(s)| ==> IsSlugChar(HyphenateWhitespace(s)[i])
  {
    if s != [] {
      HyphenateWhitespaceKeepsSlugChars(s[1..]);
    }
  }

  lemma {:induction false} CollapseHyphensKeepsSlugChars(s: string)
    requires forall i :: 0 <= i < |s| ==> IsSlugChar(s[i])
    ensures forall i :: 0 <= i < |CollapseHyphens(s)| ==> IsSlugChar(CollapseHyphens(s)[i])
  {
    if s != [] {
      CollapseHyphensKeepsSlugChars(s[1..]);
    }
  }

  /** The input with each whitespace character turned into `-`, one for one. */
  function WhitespaceToHyphen(s: string): (r: string)
    ensures |r| == |s|
  {
    seq(|s|, i requires 0 <= i < |s| => if IsWhitespace(s[i]) then '-' else s[i])
  }

  /** The whitespace replacement only deletes characters from `WhitespaceToHyphen(s)`: nothing new, nothing reordered. */
  lemma {:induction false} HyphenateWhitespaceIsSubsequence(s: string)
    ensures IsSubsequence(HyphenateWhitespace(s), WhitespaceToHyphen(s))
  {
    if s != [] {
      HyphenateWhitespaceIsSubsequence(s[1..]);
      var r, m := HyphenateWhitespace(s), WhitespaceToHyphen(s);
      assert m[1..] == WhitespaceToHyphen(s[1..]);
      if !(IsWhitespace(s[0]) && |s| > 1 && IsWhitespace(s[1])) {
        assert r[0] == m[0] && r[1..] == HyphenateWhitespace(s[1..]);
      }
    }
  }

  /** Within a run of whitespace, one character more or less makes no difference: the run becomes one `-`. */
  lemma {:induction false} HyphenateWhitespaceRun(a: string, w1: char, w2: char, b: string)
    requires IsWhitespace(w1) && IsWhitespace(w2)
    ensures HyphenateWhitespace(a + [w1, w2] + b) == HyphenateWhitespace(a + [w2] + b)
  {
    var s, t := a + [w1, w2] + b, a + [w2] + b;
    if a == [] {
      assert s[1..] == t;
    } else {
      assert s[1..] == a[1..] + [w1, w2] + b;
      assert t[1..] == a[1..] + [w2] + b;
      HyphenateWhitespaceRun(a[1..], w1, w2, b);
    }
  }

  /** No two whitespace characters are next to each other. */
  predicate NoAdjacentWhitespace(s: string)
  {
    forall i :: 0 <= i < |s| - 1 ==> !(IsWhitespace(s[i]) && IsWhitespace(s[i + 1]))
  }

  /**
   * Text whose whitespace runs are all single characters has each of them
   * turned into `-`, wherever it stands. With `HyphenateWhitespaceRun`, which
   * shortens any run to one character, this fixes the result for every input.
   */
  lemma {:induction false} HyphenateIsolatedWhitespace(s: string)
    requires NoAdjacentWhitespace(s)
    ensures HyphenateWhitespace(s) == WhitespaceToHyphen(s)
  {
    if s != [] {
      HyphenateIsolatedWhitespace(s[1..]);
      assert WhitespaceToHyphen(s) == [WhitespaceToHyphen(s)[0]] + WhitespaceToHyphen(s[1..]);
    }
  }

  /** Collapsing only deletes characters: the result is a subsequence of the input. */
  lemma {:induction false} CollapseHyphensIsSubsequence(s: string)
    ensures IsSubsequence(CollapseHyphens(s), s)
  {
    if s != [] {
      CollapseHyphensIsSubsequence(s[1..]);
      var r := CollapseHyphens(s);
      if !(|s| > 1 && s[0] == '-' && s[1] == '-') {
        assert r[0] == s[0] && r[1..] == CollapseHyphens(s[1..]);
      }
    }
  }

  /** Within a run of hyphens, one hyphen more or less makes no difference: the run becomes one `-`. */
  lemma {:induction false} CollapseHyphensRun(a: string, b: string)
    ensures CollapseHyphens(a + "--" + b) == CollapseHyphens(a + "-" + b)
  {
    var s, t := a + "--" + b, a + "-" + b;
    if a == [] {
      assert s[1..] == t;
    } else {
      assert s[1..] == a[1..] + "--" + b;
      assert t[1..] == a[1..] + "-" + b;
      CollapseHyphensRun(a[1..], b);
    }
  }

  /** The three replacements of `generateSlug`, before its final `trim`. */
  function Replaced(name: string): (r: string)
    ensures IsSlug(r)
  {
    var stripped := StripSpecial(LowerCase(name));
    HyphenateWhitespaceKeepsSlugChars(stripped);
    CollapseHyphensKeepsSlugChars(HyphenateWhitespace(stripped));
    CollapseHyphens(HyphenateWhitespace(stripped))
  }

  /**
   * `generateSlug(name)`. The final `.trim('-')` is JavaScript's whitespace
   * trim (it ignores its argument), so it never changes anything here and
   * leading and trailing hyphens stay.
   */
  function GenerateSlug(name: string): (slug: string)
    ensures IsSlug(slug)
    ensures slug == Replaced(name)
  {
    var replaced := Replaced(name);
    TrimFixesExactlyUntrimmed(replaced);
    Trim(replaced)
  }

  lemma {:induction false} HyphenateWhitespaceFixes(s: string)
    requires forall i :: 0 <= i < |s| ==> !IsWhitespace(s[i])
    ensures HyphenateWhitespace(s) == s
  {
    if s != [] {
      HyphenateWhitespaceFixes(s[1..]);
    }
  }

  lemma {:induction false} CollapseHyphensFixes(s: string)
    requires NoDoubleHyphen(s)
    ensures CollapseHyphens(s) == s
  {
    if s != [] {
      CollapseHyphensFixes(s[1..]);
    }
  }

  lemma LowerCaseFixes(s: string)
    requires forall i :: 0 <= i < |s| ==> !('A' <= s[i] <= 'Z')
    ensures LowerCase(s) == s
  {
  }

  lemma StripSpecialFixes(s: string)
    requires forall i :: 0 <= i < |s| ==> IsKept(s[i])
    ensures StripSpecial(s) == s
  {
    FilterKeepsAll(s, IsKept);
  }

  /** Every stage of `generateSlug` leaves a slug as it is. */
  lemma GenerateSlugFixesSlugs(s: string)
    requires IsSlug(s)
    ensures GenerateSlug(s) == s
  {
    LowerCaseFixes(s);
    StripSpecialFixes(s);
    HyphenateWhitespaceFixes(s);
    CollapseHyphensFixes(s);
    assert Replaced(s) == s;
    TrimFixesExactlyUntrimmed(s);
  }

  /** `generateSlug` is idempotent. */
  lemma GenerateSlugIdempotent(name: string)
    ensures GenerateSlug(GenerateSlug(name)) == GenerateSlug(name)
  {
    GenerateSlugFixesSlugs(GenerateSlug(name));
  }

  lemma StripSpecialKeepsEdges(s: string)
    requires s != []
    ensures IsKept(s[0]) ==> StripSpecial(s) != [] && StripSpecial(s)[0] == s[0]
    ensures IsKept(s[|s| - 1]) ==> StripSpecial(s) != [] && StripSpecial(s)[|StripSpecial(s)| - 1] == s[|s| - 1]
  {
    var n := |s|;
    assert s == s[..n - 1] + [s[n - 1]];
    FilterAppend(s[..n - 1], [s[n - 1]], IsKept);
    assert Filter([s[n - 1]], IsKept) == if IsKept(s[n - 1]) then [s[n - 1]] else [];
  }

  /** A name that starts or ends with a space gives a slug that starts or ends with a hyphen: nothing trims them. */
  lemma GenerateSlugKeepsEdgeHyphens(name: string)
    requires name != []
    ensures name[0] == ' ' ==> GenerateSlug(name) != [] && GenerateSlug(name)[0] == '-'
    ensures name[|name| - 1] == ' ' ==> GenerateSlug(name) != [] && GenerateSlug(name)[|GenerateSlug(name)| - 1] == '-'
  {
    var lower := LowerCase(name);
    assert lower[0] == ToLower(name[0]) && lower[|lower| - 1] == ToLower(name[|name| - 1]);
    StripSpecialKeepsEdges(lower);
  }

  /** A name none of whose characters survives the special-character filter gives the empty slug (`"!!!"` gives `""`). */
  lemma GenerateSlugEmptyWithoutKeptChars(name: string)
    requires forall i :: 0 <= i < |name| ==> !IsKept(ToLower(name[i]))
    ensures GenerateSlug(name) == ""
  {
    var lower := LowerCase(name);
    FilterDropsAll(lower, IsKept);
  }

  /** The hyphen trim the comment on `.trim('-')` describes: drop leading and trailing hyphens. */
  function TrimHyphens(s: string): (r: string)
    ensures |r| <= |s|
    ensures r == [] || (r[0] != '-' && r[|r| - 1] != '-')
  {
    TrimBoth(s, IsHyphen)
  }

  /** The hyphen trim removes hyphens only, and only at the two ends. */
  lemma TrimHyphensRemovesOnlyEdgeHyphens(s: string)
    ensures var r, k := TrimHyphens(s), LeadingCount(s, IsHyphen);
      && k + |r| <= |s|
      && (forall i :: 0 <= i < |r| ==> r[i] == s[k + i])
      && (forall i :: 0 <= i < k ==> s[i] == '-')
      && (forall i :: k + |r| <= i < |s| ==> s[i] == '-')
  {
    TrimBothRemovesOnlyEnds(s, IsHyphen);
  }

  /** A contiguous piece of a slug is a slug. */
  lemma InfixOfSlug(s: string, r: string, k: nat)
    requires IsSlug(s) && k + |r| <= |s|
    requires forall i :: 0 <= i < |r| ==> r[i] == s[k + i]
    ensures IsSlug(r)
  {
    forall i | 0 <= i < |r| - 1
      ensures !(r[i] == '-' && r[i + 1] == '-')
    {
      assert r[i] == s[k + i] && r[i + 1] == s[k + i + 1];
    }
  }

  lemma TrimHyphensKeepsSlug(s: string)
    requires IsSlug(s)
    ensures IsSlug(TrimHyphens(s))
  {
    TrimHyphensRemovesOnlyEdgeHyphens(s);
    InfixOfSlug(s, TrimHyphens(s), LeadingCount(s, IsHyphen));
  }

  /** `generateSlug` with its last step doing what its comment says: the replacements, then leading and trailing hyphens removed. */
  function GenerateCleanSlug(name: string): (slug: string)
    ensures IsSlug(slug)
    ensures slug == [] || (slug[0] != '-' && slug[|slug| - 1] != '-')
  {
    TrimHyphensKeepsSlug(Replaced(name));
    TrimHyphens(Replaced(name))
  }

  /** Two slugs joined where they do not both have a hyphen form a slug. */
  lemma ConcatSlug(a: string, b: string)
    requires IsSlug(a) && IsSlug(b)
    requires a == [] || b == [] || a[|a| - 1] != '-' || b[0] != '-'
    ensures IsSlug(a + b)
  {
    var c := a + b;
    assert forall i :: 0 <= i < |a| ==> c[i] == a[i];
    assert forall i :: |a| <= i < |c| ==> c[i] == b[i - |a|];
  }

  /** Appending `-` and a number to a slug that does not end in `-` gives a slug. */
  lemma CandidateIsSlug(base: string, k: nat)
    requires IsSlug(base) && (base == [] || base[|base| - 1] != '-')
    ensures IsSlug(Candidate(base, k))
  {
    if k > 0 {
      var digits := NatToString(k);
      ConcatSlug(base, "-");
      ConcatSlug(base + "-", digits);
    }
  }

  /** A name with a trailing space, as written, gives a base slug ending in `-`; its first numbered candidate then holds `--`. */
  lemma GenerateSlugCandidateDoubleHyphen(name: string)
    requires name != [] && name[|name| - 1] == ' '
    ensures !IsSlug(Candidate(GenerateSlug(name), 1))
  {
    GenerateSlugKeepsEdgeHyphens(name);
    var base := GenerateSlug(name);
    var c := Candidate(base, 1);
    assert c[|base| - 1] == '-' && c[|base|] == '-';
  }

  /** With the corrected base slug, every candidate the hook can try is a well-formed slug. */
  lemma CleanSlugCandidatesAreSlugs(name: string, k: nat)
    ensures IsSlug(Candidate(GenerateCleanSlug(name), k))
  {
    CandidateIsSlug(GenerateCleanSlug(name), k);
  }

  /** The corrected generator is idempotent, as the as-written one is. */
  lemma GenerateCleanSlugIdempotent(name: string)
    ensures GenerateCleanSlug(GenerateCleanSlug(name)) == GenerateCleanSlug(name)
  {
    var s := GenerateCleanSlug(name);
    GenerateSlugFixesSlugs(s);
    assert Replaced(s) == s;
    TrimBothFixesExactly(s, IsHyphen);
  }

  /** The two generators differ only at the edges: the corrected slug is the as-written one with its edge hyphens removed. */
  lemma GenerateCleanSlugTrimsGenerateSlug(name: string)
    ensures GenerateCleanSlug(name) == TrimHyphens(GenerateSlug(name))
  {
  }

  predicate IsAlphanumeric(c: char)
  {
    'a' <= c <= 'z' || '0' <= c <= '9'
  }

  /**
   * The corrected generator still gives the empty base for a name without a
   * letter or digit (`"!!!"`, `" "`, `"--"`), and then the hook's first numbered
   * candidate is `"-1"`, which starts with a hyphen.
   */
  lemma GenerateCleanSlugEmptyWithoutAlphanumerics(name: string)
    requires forall i :: 0 <= i < |name| ==> !IsAlphanumeric(ToLower(name[i]))
    ensures GenerateCleanSlug(name) == ""
    ensures Candidate(GenerateCleanSlug(name), 1) == "-1"
  {
    var g := GenerateSlug(name);
    FilterDropsAll(LowerCase(name), IsAlphanumeric);
    GenerateSlugKeepsAlphanumerics(name);
    OnlyHyphensLeft(g);
    TrimHyphensOfHyphens(g);
    GenerateCleanSlugTrimsGenerateSlug(name);
    assert Candidate("", 1) == "-1";
  }

  /** A slug without a letter or digit is made of hyphens only. */
  lemma OnlyHyphensLeft(g: string)
    requires IsSlug(g) && Filter(g, IsAlphanumeric) == []
    ensures forall i :: 0 <= i < |g| ==> g[i] == '-'
  {
  }

  lemma TrimHyphensOfHyphens(g: string)
    requires forall i :: 0 <= i < |g| ==> g[i] == '-'
    ensures TrimHyphens(g) == ""
  {
    assert LeadingCount(g, IsHyphen) == |g|;
  }

  lemma {:induction false} HyphenateWhitespaceKeepsAlphanumerics(s: string)
    ensures Filter(HyphenateWhitespace(s), IsAlphanumeric) == Filter(s, IsAlphanumeric)
  {
    if s != [] {
      HyphenateWhitespaceKeepsAlphanumerics(s[1..]);
    }
  }

  lemma {:induction false} CollapseHyphensKeepsAlphanumerics(s: string)
    ensures Filter(CollapseHyphens(s), IsAlphanumeric) == Filter(s, IsAlphanumeric)
  {
    if s != [] {
      CollapseHyphensKeepsAlphanumerics(s[1..]);
    }
  }

  /** The slug keeps every letter and digit of the lower-cased name, in order; only spaces and hyphens are rewritten. */
  lemma GenerateSlugKeepsAlphanumerics(name: string)
    ensures Filter(GenerateSlug(name), IsAlphanumeric) == Filter(LowerCase(name), IsAlphanumeric)
  {
    var lower := LowerCase(name);
    FilterFuse(lower, IsKept, IsAlphanumeric, IsAlphanumeric);
    HyphenateWhitespaceKeepsAlphanumerics(StripSpecial(lower));
    CollapseHyphensKeepsAlphanumerics(HyphenateWhitespace(StripSpecial(lower)));
  }

  /** The slug the hook tries after `k` taken ones: `base`, then `base-1`, `base-2`, ... */
  function Candidate(base: string, k: nat): string
  {
    if k == 0 then base else base + "-" + NatToString(k)
  }

  /** Candidate `k > 0` is the base, a hyphen, and a numeral that reads back as `k`. */
  lemma CandidateParts(base: string, k: nat)
    ensures k == 0 ==> Candidate(base, k) == base
    ensures k > 0 ==> var c := Candidate(base, k);
      && |c| > |base| + 1 && c[..|base| + 1] == base + "-"
      && (forall i :: |base| < i < |c| ==> '0' <= c[i] <= '9')
      && ParseDigits(c[|base| + 1..]) == k
  {
    if k > 0 {
      var c := Candidate(base, k);
      ParseNatToString(k);
      assert c[|base| + 1..] == NatToString(k);
    }
  }

  lemma SubsetCardinality<T>(a: set<T>, b: set<T>)
    requires a <= b
    ensures |a| <= |b|
  {
    if a != {} {
      var x :| x in a;
      SubsetCardinality(a - {x}, b - {x});
    }
  }

  /** The candidates tried so far, plus the next one. */
  lemma CandidatesGrow(base: string, n: nat)
    ensures (set j | 0 <= j < n :: Candidate(base, j)) + {Candidate(base, n)} == set j | 0 <= j < n + 1 :: Candidate(base, j)
  {
  }

  /** The hook never tries the same slug twice. */
  lemma CandidateInjective(base: string, j: nat, k: nat)
    ensures Candidate(base, j) == Candidate(base, k) ==> j == k
  {
    if Candidate(base, j) == Candidate(base, k) && j != 0 && k != 0 {
      var n := |base| + 1;
      assert NatToString(j) == Candidate(base, j)[n..];
      assert NatToString(k) == Candidate(base, k)[n..];
      NatToStringInjective(j, k);
    }
  }

  /** `s` is the first candidate for `base` that no other brand holds. */
  ghost predicate IsFirstFreeCandidate(base: string, taken: set<string>, s: string)
  {
    exists k: nat :: s == Candidate(base, k) && s !in taken && forall j :: 0 <= j < k ==> Candidate(base, j) in taken
  }

  /** The first free candidate is determined by the base slug and the taken set. */
  lemma FirstFreeCandidateUnique(base: string, taken: set<string>, s: string, t: string)
    requires IsFirstFreeCandidate(base, taken, s) && IsFirstFreeCandidate(base, taken, t)
    ensures s == t
  {
    var j: nat :| s == Candidate(base, j) && s !in taken && forall i :: 0 <= i < j ==> Candidate(base, i) in taken;
    var k: nat :| t == Candidate(base, k) && t !in taken && forall i :: 0 <= i < k ==> Candidate(base, i) in taken;
    assert !(j < k) && !(k < j);
  }

  /**
   * The hook's probe loop: `collisions` is the number of taken slugs it met,
   * so `findOne` ran `collisions + 1` times.
   */
  method UniqueSlug(base: string, taken: set<string>) returns (slug: string, collisions: nat)
    ensures slug == Candidate(base, collisions) && slug !in taken
    ensures forall j :: 0 <= j < collisions ==> Candidate(base, j) in taken
    ensures collisions <= |taken|
  {
    slug := base;
    var counter: nat := 1;
    ghost var probed: set<string> := {};
    while slug in taken
      invariant counter >= 1
      invariant slug == Candidate(base, counter - 1)
      invariant forall j :: 0 <= j < counter - 1 ==> Candidate(base, j) in taken
      invariant probed == set j | 0 <= j < counter - 1 :: Candidate(base, j)
      invariant probed <= taken && |probed| == counter - 1
      decreases |taken| - |probed|
    {
      SubsetCardinality(probed, taken);
      forall j | 0 <= j < counter - 1
        ensures Candidate(base, j) != slug
      {
        CandidateInjective(base, j, counter - 1);
      }
      assert slug !in probed;
      CandidatesGrow(base, counter - 1);
      probed := probed + {slug};
      slug := base + "-" + NatToString(counter);
      assert slug == Candidate(base, counter);
      counter := counter + 1;
    }
    SubsetCardinality(probed, taken);
    collisions := counter - 1;
  }

  /** A brand document as the pre-save hook sees it; `slug` is `None` when absent. */
  class BrandDocument {
    var name: string
    var slug: Option<string>

    constructor (name: string, slug: Option<string>)
      ensures this.name == name && this.slug == slug
    {
      this.name := name;
      this.slug := slug;
    }

    /** `!this.slug && this.name`: the hook acts only on a missing or empty slug and a non-empty name. */
    static predicate NeedsSlug(slug: Option<string>, name: string)
    {
      (slug.None? || slug.value == "") && name != ""
    }

    /**
     * `pre('save')`: `otherSlugs` are the slugs held by the other brands when
     * the hook runs. The base slug is `GenerateCleanSlug`, the generator with
     * its edge hyphens removed as its comment intends.
     */
    method PreSave(otherSlugs: set<string>)
      modifies this`slug
      ensures NeedsSlug(old(slug), name) ==> slug.Some? && slug.value !in otherSlugs && IsSlug(slug.value)
      ensures NeedsSlug(old(slug), name) ==> IsFirstFreeCandidate(GenerateCleanSlug(name), otherSlugs, slug.value)
      ensures !NeedsSlug(old(slug), name) ==> slug == old(slug)
    {
      if NeedsSlug(slug, name) {
        var s, collisions := UniqueSlug(GenerateCleanSlug(name), otherSlugs);
        CleanSlugCandidatesAreSlugs(name, collisions);
        slug := Some(s);
      }
    }
  }
}
