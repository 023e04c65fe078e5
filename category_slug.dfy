/** The slug helpers of the category store (lib/stores/categoryStore.ts): `generateSlug`
    and `isSlugUnique`. */
module CategorySlug {

  import opened Wrappers
  import opened Types
  import Seqs
  import Text
  import opened CategoryHierarchy
  import opened CategoryEdits

  // ---------------------------------------------------------------------
  // Runs of characters
  // ---------------------------------------------------------------------

  /** What is left after the leading run of characters satisfying `p`. */
  function DropRun(s: string, p: char -> bool): (r: string)
    ensures |r| <= |s| && r == s[|s| - |r|..]
    ensures r == [] || !p(r[0])
    ensures forall i :: 0 <= i < |s| - |r| ==> p(s[i])
  {
    if s != [] && p(s[0]) then
      var r := DropRun(s[1..], p);
      assert s[1..][|s| - 1 - |r|..] == s[|s| - |r|..];
      r
    else s
  }

  /** `s.replace(/X+/g, rep)` for the character class `p`: every maximal run of
      characters of `p` becomes the single character `rep`. */
  function CollapseRuns(s: string, p: char -> bool, rep: char): string
    decreases |s|
  {
    if s == [] then []
    else if p(s[0]) then [rep] + CollapseRuns(DropRun(s, p), p, rep)
    else [s[0]] + CollapseRuns(s[1..], p, rep)
  }

  /** Every character of the result is `rep` or a character of `s` outside the class. */
  lemma {:induction false} CollapseRunsChars(s: string, p: char -> bool, rep: char)
    ensures forall c :: c in CollapseRuns(s, p, rep) ==> c == rep || (c in s && !p(c))
    decreases |s|
  {
    if s != [] {
      if p(s[0]) {
        var d := DropRun(s, p);
        CollapseRunsChars(d, p, rep);
        forall c | c in d ensures c in s {
          var k :| 0 <= k < |d| && d[k] == c;
          assert s[|s| - |d| + k] == c;
        }
      } else {
        CollapseRunsChars(s[1..], p, rep);
      }
    }
  }

  /** No two neighbours of the result are both `rep` when `rep` itself is in the class. */
  lemma {:induction false} CollapseRunsNoDouble(s: string, p: char -> bool, rep: char)
    requires p(rep)
    ensures forall i :: 0 <= i < |CollapseRuns(s, p, rep)| - 1 ==>
      !(CollapseRuns(s, p, rep)[i] == rep && CollapseRuns(s, p, rep)[i + 1] == rep)
    decreases |s|
  {
    if s != [] {
      if p(s[0]) {
        var d := DropRun(s, p);
        CollapseRunsNoDouble(d, p, rep);
        var r := CollapseRuns(d, p, rep);
        assert CollapseRuns(s, p, rep) == [rep] + r;
        if r != [] {
          assert r[0] == d[0];
        }
      } else {
        CollapseRunsNoDouble(s[1..], p, rep);
      }
    }
  }

  /** A string with no neighbouring class characters, and whose class characters are all
      `rep`, is left as it is. */
  lemma {:induction false} CollapseRunsIdentity(s: string, p: char -> bool, rep: char)
    requires forall i :: 0 <= i < |s| && p(s[i]) ==> s[i] == rep
    requires forall i :: 0 <= i < |s| - 1 ==> !(p(s[i]) && p(s[i + 1]))
    ensures CollapseRuns(s, p, rep) == s
    decreases |s|
  {
    if s != [] {
      CollapseRunsIdentity(s[1..], p, rep);
      if p(s[0]) {
        assert DropRun(s, p) == s[1..];
      }
    }
  }

  // ---------------------------------------------------------------------
  // generateSlug
  // ---------------------------------------------------------------------

  /** The characters `[^\w\s-]` does not remove. */
  predicate Kept(c: char)
  {
    Text.IsWord(c) || Text.IsSpace(c) || c == '-'
  }

  predicate IsHyphen(c: char)
  {
    c == '-'
  }

  /** `generateSlug(name)`: lower-case, trim, drop the characters other than word
      characters, white space and `-`, turn each white-space run into `-`, then collapse
      each run of `-`. */
  function GenerateSlug(name: string): string
  {
    var kept := Seqs.Filter(Text.Trim(Text.Lower(name)), Kept);
    CollapseRuns(CollapseRuns(kept, Text.IsSpace, '-'), IsHyphen, '-')
  }

  /** The characters a generated slug is made of: `[a-z0-9_-]`. */
  predicate SlugChar(c: char)
  {
    ('a' <= c <= 'z') || ('0' <= c <= '9') || c == '_' || c == '-'
  }

  /** A slug in normal form: slug characters only and no "--". */
  predicate IsSlug(s: string)
  {
    && (forall i :: 0 <= i < |s| ==> SlugChar(s[i]))
    && (forall i :: 0 <= i < |s| - 1 ==> !(s[i] == '-' && s[i + 1] == '-'))
  }

  /** Every generated slug is in normal form. */
  lemma GenerateSlugIsSlug(name: string)
    ensures IsSlug(GenerateSlug(name))
  {
    var t := Text.Trim(Text.Lower(name));
    var kept := Seqs.Filter(t, Kept);
    var spaced := CollapseRuns(kept, Text.IsSpace, '-');
    TrimmedLowerHasNoUpper(name);
    KeptSlugChars(t, kept);
    CollapseRunsChars(kept, Text.IsSpace, '-');
    CollapseRunsChars(spaced, IsHyphen, '-');
    CollapseRunsNoDouble(spaced, IsHyphen, '-');
    var r := GenerateSlug(name);
    forall k | 0 <= k < |r| ensures SlugChar(r[k]) {
      assert r[k] in r;
    }
  }

  /** No upper-case letter is left after lower-casing and trimming. */
  lemma TrimmedLowerHasNoUpper(name: string)
    ensures forall c :: c in Text.Trim(Text.Lower(name)) ==> !('A' <= c <= 'Z')
  {
    var lower := Text.Lower(name);
    Text.TrimKeepsChars(lower);
    forall c | c in lower ensures !('A' <= c <= 'Z') {
      var m :| 0 <= m < |lower| && lower[m] == c;
    }
  }

  /** The kept characters of a text without upper-case letters are slug characters or
      white space. */
  lemma KeptSlugChars(t: string, kept: string)
    requires forall c :: c in t ==> !('A' <= c <= 'Z')
    requires forall c :: c in kept <==> c in t && Kept(c)
    ensures forall c :: c in kept && !Text.IsSpace(c) ==> SlugChar(c)
  {
  }

  /** Lower-casing and trimming leave a normal-form slug alone. */
  lemma SlugTrimLower(s: string)
    requires IsSlug(s)
    ensures Text.Trim(Text.Lower(s)) == s
  {
    assert Text.Lower(s) == s;
    var i, j := Text.TrimSpec(s);
    forall k | 0 <= k < |s| ensures !Text.IsSpace(s[k]) {
      assert SlugChar(s[k]);
    }
    assert i == 0 && j == |s|;
  }

  /** A slug in normal form is its own slug, so generating a slug is idempotent. */
  lemma SlugFixpoint(s: string)
    requires IsSlug(s)
    ensures GenerateSlug(s) == s
  {
    SlugTrimLower(s);
    Seqs.FilterAll(s, Kept);
    CollapseRunsIdentity(s, Text.IsSpace, '-');
    CollapseRunsIdentity(s, IsHyphen, '-');
  }

  lemma GenerateSlugIdempotent(name: string)
    ensures GenerateSlug(GenerateSlug(name)) == GenerateSlug(name)
  {
    GenerateSlugIsSlug(name);
    SlugFixpoint(GenerateSlug(name));
  }

  /** A string without upper-case letters is its own lower case. */
  lemma LowerOfLowerCase(s: string)
    requires forall k :: 0 <= k < |s| ==> !('A' <= s[k] <= 'Z')
    ensures Text.Lower(s) == s
  {
  }

  /** One space on each side of a string without white space is trimmed away. */
  lemma TrimSurrounded(t: string)
    requires t != [] && forall k :: 0 <= k < |t| ==> !Text.IsSpace(t[k])
    ensures Text.Trim(" " + t + " ") == t
  {
    var s := " " + t + " ";
    assert s[1..] == t + " ";
    assert Text.TrimStart(s) == Text.TrimStart(t + " ");
    assert (t + " ")[0] == t[0];
    Text.TrimPadded(t);
  }

  /** The slug depends on the name only through its lower-cased, trimmed form. */
  lemma SameTrimSameSlug(a: string, b: string)
    requires Text.Trim(Text.Lower(a)) == Text.Trim(Text.Lower(b))
    ensures GenerateSlug(a) == GenerateSlug(b)
  {
  }

  lemma SpacedHyphens()
    ensures " " + "-a-" + " " == " -a- "
  {
  }

  lemma OuterHyphensTrimmed()
    ensures Text.Trim(Text.Lower(" -a- ")) == "-a-"
  {
    SpacedHyphens();
    LowerOfLowerCase(" -a- ");
    TrimSurrounded("-a-");
  }

  lemma HyphensSlug()
    ensures IsSlug("-a-")
  {
  }

  /** Hyphens inside the trimmed text survive at both ends: " -a- " gives "-a-". */
  lemma GenerateSlugKeepsOuterHyphens()
    ensures GenerateSlug(" -a- ") == "-a-"
  {
    OuterHyphensTrimmed();
    HyphensSlug();
    SlugTrimLower("-a-");
    SameTrimSameSlug(" -a- ", "-a-");
    SlugFixpoint("-a-");
  }

  // ---------------------------------------------------------------------
  // isSlugUnique
  // ---------------------------------------------------------------------

  /** `c.slug === slug && c.id !== excludeId`; an absent `excludeId` differs from every id. */
  function Clashes(slug: string, excludeId: Option<string>): Category -> bool
  {
    (c: Category) => c.slug == slug && Some(c.id) != excludeId
  }

  /** `isSlugUnique(slug, excludeId)`: no category other than `excludeId` uses the slug. */
  function IsSlugUnique(cats: seq<Category>, slug: string, excludeId: Option<string>): (b: bool)
    ensures b <==> forall c :: c in cats && c.slug == slug ==> excludeId == Some(c.id)
  {
    Seqs.FindIndex(cats, Clashes(slug, excludeId)) < 0
  }

  predicate UniqueSlugs(cats: seq<Category>)
  {
    forall i, j :: 0 <= i < j < |cats| ==> cats[i].slug != cats[j].slug
  }

  /** Creating with a slug `isSlugUnique` accepted keeps the slugs unique. */
  lemma CreateKeepsSlugsUnique(cats: seq<Category>, d: CategoryData, id: string, now: int)
    requires UniqueSlugs(cats) && IsSlugUnique(cats, d.slug, None)
    ensures UniqueSlugs(cats + [NewCategory(d, id, now)])
  {
    var r := cats + [NewCategory(d, id, now)];
    forall i, j | 0 <= i < j < |r| ensures r[i].slug != r[j].slug {
      if j == |cats| {
        assert r[i] in cats;
      }
    }
  }

  /** Editing a category with a slug `isSlugUnique(slug, id)` accepted keeps the slugs
      unique (with unique ids, only that one record changes). */
  lemma UpdateKeepsSlugsUnique(cats: seq<Category>, id: string, u: CategoryPatch, now: int)
    requires UniqueIds(cats) && UniqueSlugs(cats)
    requires u.slug.None? || IsSlugUnique(cats, u.slug.value, Some(id))
    ensures UniqueSlugs(Updated(cats, id, u, now))
  {
    var r := Updated(cats, id, u, now);
    forall i, j | 0 <= i < j < |r| ensures r[i].slug != r[j].slug {
      assert cats[i].id != cats[j].id;
      if cats[i].id == id && u.slug.Some? {
        assert cats[j] in cats;
      } else if cats[j].id == id && u.slug.Some? {
        assert cats[i] in cats;
      }
    }
  }
}
