/** `SlugHelper.GenerateSlug`: the title-to-slug transform used when a blog
    post is created or edited. */
module SlugHelper {
  import opened Text

  predicate IsAlphaNumeric(c: char) {
    'a' <= c <= 'z' || '0' <= c <= '9'
  }

  /** The characters a slug may contain: `[a-z0-9-]`. */
  predicate IsSlugChar(c: char) {
    IsAlphaNumeric(c) || c == '-'
  }

  /** The shape of every generated slug: only slug characters, and no hyphen
      at either end. */
  predicate IsSlug(s: string) {
    && (forall i :: 0 <= i < |s| ==> IsSlugChar(s[i]))
    && (s == [] || (s[0] != '-' && s[|s| - 1] != '-'))
  }

  /** `Regex.Replace(s, @"[^a-z0-9\s-]", "")`. */
  function RemoveInvalidChars(s: string): (r: string)
    ensures |r| <= |s|
    ensures forall i :: 0 <= i < |r| ==> IsSlugChar(r[i]) || IsWhiteSpace(r[i])
    decreases |s|
  {
    if s == [] then []
    else (if IsSlugChar(s[0]) || IsWhiteSpace(s[0]) then [s[0]] else []) + RemoveInvalidChars(s[1..])
  }

  /** `Regex.Replace(s, @"\s+", "-")` as a left-to-right scan: every maximal
      run of white space becomes one hyphen. `inRun` says whether the
      character just before `s` was white space, so that its run already
      has its hyphen. */
  function Hyphenate(s: string, inRun: bool): (r: string)
    ensures |r| <= |s|
    ensures forall i :: 0 <= i < |r| ==> !IsWhiteSpace(r[i])
    ensures (forall i :: 0 <= i < |s| ==> IsSlugChar(s[i]) || IsWhiteSpace(s[i])) ==>
              forall i :: 0 <= i < |r| ==> IsSlugChar(r[i])
    decreases |s|
  {
    if s == [] then []
    else if !IsWhiteSpace(s[0]) then [s[0]] + Hyphenate(s[1..], false)
    else if inRun then Hyphenate(s[1..], true)
    else "-" + Hyphenate(s[1..], true)
  }

  /** `s.Trim('-')`. */
  function TrimHyphens(s: string): (r: string)
    ensures |r| <= |s|
    ensures r == [] || (r[0] != '-' && r[|r| - 1] != '-')
    ensures (forall i :: 0 <= i < |s| ==> IsSlugChar(s[i])) ==>
              forall i :: 0 <= i < |r| ==> IsSlugChar(r[i])
  {
    var front := TrimStart(s, '-');
    var r := TrimEnd(front, '-');
    TrimmedSlugChars(s, front, r);
    r
  }

  lemma TrimmedSlugChars(s: string, front: string, r: string)
    requires |r| <= |front| <= |s|
    requires front == s[|s| - |front|..]
    requires r == front[..|r|]
    ensures (forall i :: 0 <= i < |s| ==> IsSlugChar(s[i])) ==>
              forall i :: 0 <= i < |r| ==> IsSlugChar(r[i])
  {
    if forall i :: 0 <= i < |s| ==> IsSlugChar(s[i]) {
      forall i | 0 <= i < |r|
        ensures IsSlugChar(r[i])
      {
        assert r[i] == front[i] == s[|s| - |front| + i];
      }
    }
  }

  /** `SlugHelper.GenerateSlug`: lower-case, drop everything outside
      `[a-z0-9\s-]`, turn white-space runs into hyphens, trim hyphens. A
      title that is empty or white space only gives the empty slug. */
  function GenerateSlug(title: string): (slug: string)
    ensures IsNullOrWhiteSpace(title) ==> slug == ""
    ensures IsSlug(slug)
    ensures |slug| <= |title|
  {
    if IsNullOrWhiteSpace(title) then ""
    else
      var cleaned := RemoveInvalidChars(ToLowerInvariant(title));
      TrimHyphens(Hyphenate(cleaned, false))
  }

  // ---------------------------------------------------------------------
  // Idempotence: the slugs are exactly the fixed points of GenerateSlug.

  lemma {:induction false} RemoveInvalidCharsKeepsSlugChars(s: string)
    requires forall i :: 0 <= i < |s| ==> IsSlugChar(s[i])
    ensures RemoveInvalidChars(s) == s
    decreases |s|
  {
    if s != [] {
      RemoveInvalidCharsKeepsSlugChars(s[1..]);
    }
  }

  lemma {:induction false} HyphenateWithoutWhiteSpace(s: string, inRun: bool)
    requires forall i :: 0 <= i < |s| ==> !IsWhiteSpace(s[i])
    ensures Hyphenate(s, inRun) == s
    decreases |s|
  {
    if s != [] {
      HyphenateWithoutWhiteSpace(s[1..], false);
    }
  }

  /** Every slug is left unchanged by GenerateSlug. */
  lemma SlugIsFixedPoint(s: string)
    requires IsSlug(s)
    ensures GenerateSlug(s) == s
  {
    if s != [] {
      assert !IsWhiteSpace(s[0]);
      assert ToLowerInvariant(s) == s;
      RemoveInvalidCharsKeepsSlugChars(s);
      HyphenateWithoutWhiteSpace(s, false);
    }
  }

  /** A string is a fixed point of GenerateSlug exactly when it is a slug. */
  lemma FixedPointIffSlug(s: string)
    ensures GenerateSlug(s) == s <==> IsSlug(s)
  {
    if IsSlug(s) {
      SlugIsFixedPoint(s);
    }
  }

  /** Generating a slug twice gives the same slug as generating it once. */
  lemma GenerateSlugIdempotent(title: string)
    ensures GenerateSlug(GenerateSlug(title)) == GenerateSlug(title)
  {
    SlugIsFixedPoint(GenerateSlug(title));
  }

  // ---------------------------------------------------------------------
  // Nothing is added and the order of letters and digits is preserved.

  /** The letters and digits of `s`, in order. */
  function AlphaNumerics(s: string): (r: string)
    ensures |r| <= |s|
    ensures forall i :: 0 <= i < |r| ==> IsAlphaNumeric(r[i])
    decreases |s|
  {
    if s == [] then []
    else (if IsAlphaNumeric(s[0]) then [s[0]] else []) + AlphaNumerics(s[1..])
  }

  lemma {:induction false} AlphaNumericsOfConcat(a: string, b: string)
    ensures AlphaNumerics(a + b) == AlphaNumerics(a) + AlphaNumerics(b)
    decreases |a|
  {
    if a == [] {
      assert a + b == b;
    } else {
      assert (a + b)[0] == a[0];
      assert (a + b)[1..] == a[1..] + b;
      AlphaNumericsOfConcat(a[1..], b);
    }
  }

  lemma {:induction false} AlphaNumericsOfNone(s: string)
    requires forall i :: 0 <= i < |s| ==> !IsAlphaNumeric(s[i])
    ensures AlphaNumerics(s) == []
    decreases |s|
  {
    if s != [] {
      AlphaNumericsOfNone(s[1..]);
    }
  }

  lemma {:induction false} RemoveInvalidCharsKeepsAlphaNumerics(s: string)
    ensures AlphaNumerics(RemoveInvalidChars(s)) == AlphaNumerics(s)
    decreases |s|
  {
    if s != [] {
      var head := if IsSlugChar(s[0]) || IsWhiteSpace(s[0]) then [s[0]] else [];
      AlphaNumericsOfConcat(head, RemoveInvalidChars(s[1..]));
      RemoveInvalidCharsKeepsAlphaNumerics(s[1..]);
    }
  }

  lemma {:induction false} HyphenateKeepsAlphaNumerics(s: string, inRun: bool)
    ensures AlphaNumerics(Hyphenate(s, inRun)) == AlphaNumerics(s)
    decreases |s|
  {
    if s != [] {
      var tail := s[1..];
      assert s == [s[0]] + tail;
      AlphaNumericsOfConcat([s[0]], tail);
      if !IsWhiteSpace(s[0]) {
        AlphaNumericsOfConcat([s[0]], Hyphenate(tail, false));
        HyphenateKeepsAlphaNumerics(tail, false);
      } else if inRun {
        HyphenateKeepsAlphaNumerics(tail, true);
      } else {
        var h := Hyphenate(tail, true);
        assert Hyphenate(s, inRun) == "-" + h;
        AlphaNumericsOfConcat("-", h);
        assert AlphaNumerics("-") == [];
        HyphenateKeepsAlphaNumerics(tail, true);
      }
    }
  }

  /** Dropping a run of hyphens from either end loses no letter or digit. */
  lemma HyphensCarryNoAlphaNumerics(s: string, k: nat)
    requires k <= |s|
    requires forall i :: 0 <= i < k ==> s[i] == '-'
    ensures AlphaNumerics(s[..k]) == []
  {
    var h := s[..k];
    forall i | 0 <= i < |h|
      ensures !IsAlphaNumeric(h[i])
    {
      assert h[i] == s[i];
    }
    AlphaNumericsOfNone(h);
  }

  lemma TrimStartKeepsAlphaNumerics(s: string)
    ensures AlphaNumerics(TrimStart(s, '-')) == AlphaNumerics(s)
  {
    var front := TrimStart(s, '-');
    var k := |s| - |front|;
    assert s[..k] + front == s;
    AlphaNumericsOfConcat(s[..k], front);
    HyphensCarryNoAlphaNumerics(s, k);
  }

  lemma TrimEndKeepsAlphaNumerics(s: string)
    ensures AlphaNumerics(TrimEnd(s, '-')) == AlphaNumerics(s)
  {
    var r := TrimEnd(s, '-');
    var tail := s[|r|..];
    assert r + tail == s;
    AlphaNumericsOfConcat(r, tail);
    assert forall i :: 0 <= i < |tail| ==> tail[i] == s[|r| + i];
    HyphensCarryNoAlphaNumerics(tail, |tail|);
    assert tail[..|tail|] == tail;
  }

  lemma TrimHyphensKeepsAlphaNumerics(s: string)
    ensures AlphaNumerics(TrimHyphens(s)) == AlphaNumerics(s)
  {
    TrimStartKeepsAlphaNumerics(s);
    TrimEndKeepsAlphaNumerics(TrimStart(s, '-'));
  }

  lemma WhiteSpaceCarriesNoAlphaNumerics(title: string)
    requires IsNullOrWhiteSpace(title)
    ensures AlphaNumerics(ToLowerInvariant(title)) == []
  {
    var lower := ToLowerInvariant(title);
    forall i | 0 <= i < |lower|
      ensures !IsAlphaNumeric(lower[i])
    {
      assert lower[i] == ToLowerChar(title[i]);
    }
    AlphaNumericsOfNone(lower);
  }

  /** The letters and digits of the slug are exactly those of the lower-cased
      title, in the same order: the transform adds none and reorders none. */
  lemma GenerateSlugKeepsAlphaNumerics(title: string)
    ensures AlphaNumerics(GenerateSlug(title)) == AlphaNumerics(ToLowerInvariant(title))
  {
    var lower := ToLowerInvariant(title);
    if IsNullOrWhiteSpace(title) {
      WhiteSpaceCarriesNoAlphaNumerics(title);
    } else {
      var cleaned := RemoveInvalidChars(lower);
      var hyphenated := Hyphenate(cleaned, false);
      RemoveInvalidCharsKeepsAlphaNumerics(lower);
      HyphenateKeepsAlphaNumerics(cleaned, false);
      TrimHyphensKeepsAlphaNumerics(hyphenated);
      assert GenerateSlug(title) == TrimHyphens(hyphenated);
    }
  }

  // ---------------------------------------------------------------------
  // Titles made of words, punctuation and single spaces.

  /** Letters and digits, in either case. */
  predicate IsWord(w: string) {
    w != [] && forall i :: 0 <= i < |w| ==> IsAlphaNumeric(ToLowerChar(w[i]))
  }

  /** Punctuation: characters the slug drops entirely. */
  predicate IsPunctuation(p: string) {
    forall i :: 0 <= i < |p| ==> !IsSlugChar(ToLowerChar(p[i])) && !IsWhiteSpace(p[i])
  }

  lemma ToLowerOfConcat(a: string, b: string)
    ensures ToLowerInvariant(a + b) == ToLowerInvariant(a) + ToLowerInvariant(b)
  {
  }

  lemma {:induction false} RemoveInvalidCharsOfConcat(a: string, b: string)
    ensures RemoveInvalidChars(a + b) == RemoveInvalidChars(a) + RemoveInvalidChars(b)
    decreases |a|
  {
    if a == [] {
      assert a + b == b;
    } else {
      assert (a + b)[0] == a[0];
      assert (a + b)[1..] == a[1..] + b;
      RemoveInvalidCharsOfConcat(a[1..], b);
    }
  }

  lemma {:induction false} RemoveInvalidCharsOfNone(s: string)
    requires forall i :: 0 <= i < |s| ==> !IsSlugChar(s[i]) && !IsWhiteSpace(s[i])
    ensures RemoveInvalidChars(s) == []
    decreases |s|
  {
    if s != [] {
      RemoveInvalidCharsOfNone(s[1..]);
    }
  }

  /** Whether the scan is inside a white-space run after reading `a`. */
  function EndsInRun(a: string, inRun: bool): bool {
    if a == [] then inRun else IsWhiteSpace(a[|a| - 1])
  }

  /** Hyphenation works piecewise: the second part is scanned knowing only
      whether the first part ended inside a run. */
  lemma {:induction false} HyphenateOfConcat(a: string, b: string, inRun: bool)
    ensures Hyphenate(a + b, inRun) == Hyphenate(a, inRun) + Hyphenate(b, EndsInRun(a, inRun))
    decreases |a|
  {
    if a == [] {
      assert a + b == b;
    } else {
      var tail := a[1..];
      assert (a + b)[0] == a[0];
      assert (a + b)[1..] == tail + b;
      assert EndsInRun(tail, IsWhiteSpace(a[0])) == EndsInRun(a, inRun);
      HyphenateOfConcat(tail, b, IsWhiteSpace(a[0]));
    }
  }

  lemma LowerWordIsSlug(w: string)
    requires IsWord(w)
    ensures var l := ToLowerInvariant(w);
      && l != [] && IsAlphaNumeric(l[0]) && IsAlphaNumeric(l[|l| - 1])
      && RemoveInvalidChars(l) == l
      && Hyphenate(l, true) == l
      && Hyphenate(l, false) == l
  {
    var l := ToLowerInvariant(w);
    RemoveInvalidCharsKeepsSlugChars(l);
    HyphenateWithoutWhiteSpace(l, true);
    HyphenateWithoutWhiteSpace(l, false);
  }

  lemma LowerPunctuationVanishes(p: string)
    requires IsPunctuation(p)
    ensures RemoveInvalidChars(ToLowerInvariant(p)) == []
  {
    var l := ToLowerInvariant(p);
    forall i | 0 <= i < |l|
      ensures !IsSlugChar(l[i]) && !IsWhiteSpace(l[i])
    {
      assert l[i] == ToLowerChar(p[i]);
    }
    RemoveInvalidCharsOfNone(l);
  }

  lemma LowerOfWords(w1: string, p1: string, w2: string, p2: string, w3: string)
    ensures ToLowerInvariant(w1 + p1 + " " + w2 + p2 + " " + w3)
         == ToLowerInvariant(w1) + ToLowerInvariant(p1) + " " + ToLowerInvariant(w2)
            + ToLowerInvariant(p2) + " " + ToLowerInvariant(w3)
  {
    ToLowerOfConcat(w1 + p1 + " " + w2 + p2 + " ", w3);
    ToLowerOfConcat(w1 + p1 + " " + w2 + p2, " ");
    ToLowerOfConcat(w1 + p1 + " " + w2, p2);
    ToLowerOfConcat(w1 + p1 + " ", w2);
    ToLowerOfConcat(w1 + p1, " ");
    ToLowerOfConcat(w1, p1);
    assert ToLowerInvariant(" ") == " ";
  }

  lemma CleanOfWords(l1: string, q1: string, l2: string, q2: string, l3: string)
    requires RemoveInvalidChars(l1) == l1 && RemoveInvalidChars(l2) == l2
    requires RemoveInvalidChars(l3) == l3
    requires RemoveInvalidChars(q1) == [] && RemoveInvalidChars(q2) == []
    ensures RemoveInvalidChars(l1 + q1 + " " + l2 + q2 + " " + l3) == l1 + " " + l2 + " " + l3
  {
    assert RemoveInvalidChars(" ") == " ";
    var x1 := l1 + q1;
    RemoveInvalidCharsOfConcat(l1, q1);
    assert RemoveInvalidChars(x1) == l1;
    var x2 := x1 + " ";
    RemoveInvalidCharsOfConcat(x1, " ");
    var x3 := x2 + l2;
    RemoveInvalidCharsOfConcat(x2, l2);
    var x4 := x3 + q2;
    RemoveInvalidCharsOfConcat(x3, q2);
    assert RemoveInvalidChars(x4) == l1 + " " + l2;
    var x5 := x4 + " ";
    RemoveInvalidCharsOfConcat(x4, " ");
    RemoveInvalidCharsOfConcat(x5, l3);
  }

  lemma HyphenateOfWords(l1: string, l2: string, l3: string)
    requires l2 != [] && !IsWhiteSpace(l2[|l2| - 1])
    requires Hyphenate(l1, false) == l1 && Hyphenate(l2, true) == l2 && Hyphenate(l3, true) == l3
    ensures Hyphenate(l1 + " " + l2 + " " + l3, false) == l1 + "-" + l2 + "-" + l3
  {
    assert Hyphenate(" ", false) == "-";
    var x := l1 + " ";
    HyphenateOfConcat(l1, " ", false);
    var y := x + l2;
    HyphenateOfConcat(x, l2, false);
    assert Hyphenate(y, false) == l1 + "-" + l2;
    var z := y + " ";
    assert y[|y| - 1] == l2[|l2| - 1];
    HyphenateOfConcat(y, " ", false);
    HyphenateOfConcat(z, l3, false);
  }

  lemma TrimHyphensWithoutEdgeHyphens(s: string)
    requires s != [] && s[0] != '-' && s[|s| - 1] != '-'
    ensures TrimHyphens(s) == s
  {
  }

  /** A title of three words separated by punctuation and one space becomes
      the lower-cased words joined by hyphens. */
  lemma SlugOfWords(w1: string, p1: string, w2: string, p2: string, w3: string)
    requires IsWord(w1) && IsWord(w2) && IsWord(w3)
    requires IsPunctuation(p1) && IsPunctuation(p2)
    ensures GenerateSlug(w1 + p1 + " " + w2 + p2 + " " + w3)
         == ToLowerInvariant(w1) + "-" + ToLowerInvariant(w2) + "-" + ToLowerInvariant(w3)
  {
    var title := w1 + p1 + " " + w2 + p2 + " " + w3;
    var l1, l2, l3 := ToLowerInvariant(w1), ToLowerInvariant(w2), ToLowerInvariant(w3);
    LowerWordIsSlug(w1);
    LowerWordIsSlug(w2);
    LowerWordIsSlug(w3);
    assert title[0] == w1[0];
    assert !IsNullOrWhiteSpace(title);
    LowerOfWords(w1, p1, w2, p2, w3);
    LowerPunctuationVanishes(p1);
    LowerPunctuationVanishes(p2);
    CleanOfWords(l1, ToLowerInvariant(p1), l2, ToLowerInvariant(p2), l3);
    var cleaned := RemoveInvalidChars(ToLowerInvariant(title));
    assert cleaned == l1 + " " + l2 + " " + l3;
    HyphenateOfWords(l1, l2, l3);
    var hyphenated := l1 + "-" + l2 + "-" + l3;
    assert Hyphenate(cleaned, false) == hyphenated;
    assert hyphenated[0] == l1[0];
    assert hyphenated[|hyphenated| - 1] == l3[|l3| - 1];
    TrimHyphensWithoutEdgeHyphens(hyphenated);
  }

  lemma ExampleAsWords(title: string)
    requires title == "Hello" + "," + " " + "World" + "!!!" + " " + "2024"
    ensures GenerateSlug(title)
         == ToLowerInvariant("Hello") + "-" + ToLowerInvariant("World") + "-" + ToLowerInvariant("2024")
  {
    SlugOfWords("Hello", ",", "World", "!!!", "2024");
  }

  lemma ExampleLowered()
    ensures ToLowerInvariant("Hello") + "-" + ToLowerInvariant("World") + "-" + ToLowerInvariant("2024")
         == "hello-world-2024"
  {
    assert ToLowerInvariant("Hello") == "hello";
    assert ToLowerInvariant("World") == "world";
    assert ToLowerInvariant("2024") == "2024";
  }

  /** The worked example: punctuation disappears and each space becomes a
      hyphen. */
  lemma GenerateSlugExample(title: string)
    requires title == "Hello, World!!! 2024"
    ensures GenerateSlug(title) == "hello-world-2024"
  {
    assert title == "Hello" + "," + " " + "World" + "!!!" + " " + "2024";
    ExampleAsWords(title);
    ExampleLowered();
  }
}
