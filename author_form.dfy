/** The author form (components/admin/AuthorForm.tsx): its slug generator, which also
    folds underscores and strips outer hyphens, the slug uniqueness test against the
    slugs it is given, the checks of `handleSubmit` in order, and the payload. */
module AuthorForm {

  import opened Wrappers
  import opened Types
  import Seqs
  import Text
  import CategorySlug

  // ---------------------------------------------------------------------
  // generateSlug
  // ---------------------------------------------------------------------

  /** The class `[\s_-]`. */
  predicate Separator(c: char)
  {
    Text.IsSpace(c) || c == '_' || c == '-'
  }

  /** The number of hyphens `s` starts with. */
  function LeadingHyphens(s: string): (n: nat)
    ensures n <= |s|
    ensures forall i :: 0 <= i < n ==> s[i] == '-'
    ensures n < |s| ==> s[n] != '-'
  {
    if s != [] && s[0] == '-' then 1 + LeadingHyphens(s[1..]) else 0
  }

  /** The number of hyphens `s` ends with. */
  function TrailingHyphens(s: string): (n: nat)
    ensures n <= |s|
    ensures forall i :: |s| - n <= i < |s| ==> s[i] == '-'
    ensures n < |s| ==> s[|s| - 1 - n] != '-'
  {
    if s != [] && s[|s| - 1] == '-' then 1 + TrailingHyphens(s[..|s| - 1]) else 0
  }

  /** `replace(/^-+|-+$/g, '')`. */
  function StripHyphens(s: string): string
  {
    var t := s[LeadingHyphens(s)..];
    t[..|t| - TrailingHyphens(t)]
  }

  /** The string before the hyphens are stripped. */
  function Dashed(text: string): string
  {
    CategorySlug.CollapseRuns(Seqs.Filter(Text.Trim(Text.Lower(text)), CategorySlug.Kept), Separator, '-')
  }

  /** `generateSlug(text)`: lower-case, trim, drop the characters other than word
      characters, white space and `-`, turn each run of white space, `_` and `-` into one
      `-`, then strip the hyphens at both ends. */
  function GenerateSlug(text: string): string
  {
    StripHyphens(Dashed(text))
  }

  predicate AuthorSlugChar(c: char)
  {
    ('a' <= c <= 'z') || ('0' <= c <= '9') || c == '-'
  }

  /** An author slug in normal form: `[a-z0-9-]` only, no "--", and no hyphen at either
      end. */
  predicate IsAuthorSlug(s: string)
  {
    && (forall i :: 0 <= i < |s| ==> AuthorSlugChar(s[i]))
    && (forall i :: 0 <= i < |s| - 1 ==> !(s[i] == '-' && s[i + 1] == '-'))
    && (s != [] ==> s[0] != '-' && s[|s| - 1] != '-')
  }

  /** Stripping the hyphens keeps a middle part `s[a..b]` of `s` that neither starts nor
      ends with a hyphen. */
  lemma {:induction false} StripHyphensSpec(s: string) returns (a: nat, b: nat)
    ensures a <= b <= |s| && StripHyphens(s) == s[a..b]
    ensures StripHyphens(s) != [] ==> s[a] != '-' && s[b - 1] != '-'
  {
    a := LeadingHyphens(s);
    var t := s[a..];
    b := a + |t| - TrailingHyphens(t);
    if a < b {
      assert t[|t| - 1 - TrailingHyphens(t)] == s[b - 1];
    }
  }

  /** Before stripping, the text is already made of `[a-z0-9-]` without "--". */
  lemma {:induction false} DashedSpec(text: string)
    ensures var d := Dashed(text);
      && (forall k :: 0 <= k < |d| ==> AuthorSlugChar(d[k]))
      && (forall k :: 0 <= k < |d| - 1 ==> !(d[k] == '-' && d[k + 1] == '-'))
  {
    var t := Text.Trim(Text.Lower(text));
    var kept := Seqs.Filter(t, CategorySlug.Kept);
    var d := Dashed(text);
    CategorySlug.TrimmedLowerHasNoUpper(text);
    KeptAuthorChars(t, kept);
    CategorySlug.CollapseRunsChars(kept, Separator, '-');
    CategorySlug.CollapseRunsNoDouble(kept, Separator, '-');
    forall k | 0 <= k < |d| ensures AuthorSlugChar(d[k]) {
      assert d[k] in d;
    }
  }

  /** The kept characters of a text without upper-case letters are slug characters or
      separators. */
  lemma KeptAuthorChars(t: string, kept: string)
    requires forall c :: c in t ==> !('A' <= c <= 'Z')
    requires forall c :: c in kept <==> c in t && CategorySlug.Kept(c)
    ensures forall c :: c in kept && !Separator(c) ==> AuthorSlugChar(c)
  {
  }

  /** Stripping the hyphens off a text of `[a-z0-9-]` without "--" leaves a slug in
      normal form. */
  lemma {:induction false} StripHyphensIsAuthorSlug(d: string)
    requires forall k :: 0 <= k < |d| ==> AuthorSlugChar(d[k])
    requires forall k :: 0 <= k < |d| - 1 ==> !(d[k] == '-' && d[k + 1] == '-')
    ensures IsAuthorSlug(StripHyphens(d))
  {
    var a, b := StripHyphensSpec(d);
    var r := StripHyphens(d);
    forall k | 0 <= k < |r| ensures AuthorSlugChar(r[k]) {
      assert r[k] == d[a + k];
    }
    forall k | 0 <= k < |r| - 1 ensures !(r[k] == '-' && r[k + 1] == '-') {
      assert r[k] == d[a + k] && r[k + 1] == d[a + k + 1];
    }
  }

  /** Every generated slug is in normal form. */
  lemma {:induction false} GenerateSlugIsAuthorSlug(text: string)
    ensures IsAuthorSlug(GenerateSlug(text))
  {
    DashedSpec(text);
    StripHyphensIsAuthorSlug(Dashed(text));
  }

  /** An author slug is a category slug. */
  lemma {:induction false} AuthorSlugIsSlug(s: string)
    requires IsAuthorSlug(s)
    ensures CategorySlug.IsSlug(s)
  {
    forall k | 0 <= k < |s| ensures CategorySlug.SlugChar(s[k]) {
      assert AuthorSlugChar(s[k]);
    }
  }

  lemma {:induction false} AuthorSlugKept(s: string)
    requires IsAuthorSlug(s)
    ensures Seqs.Filter(s, CategorySlug.Kept) == s
  {
    forall k | 0 <= k < |s| ensures CategorySlug.Kept(s[k]) {
      assert AuthorSlugChar(s[k]);
    }
    Seqs.FilterAll(s, CategorySlug.Kept);
  }

  lemma {:induction false} AuthorSlugSeparators(s: string)
    requires IsAuthorSlug(s)
    ensures CategorySlug.CollapseRuns(s, Separator, '-') == s
  {
    forall k | 0 <= k < |s| && Separator(s[k]) ensures s[k] == '-' {
      assert AuthorSlugChar(s[k]);
    }
    forall k | 0 <= k < |s| - 1 ensures !(Separator(s[k]) && Separator(s[k + 1])) {
      assert AuthorSlugChar(s[k]) && AuthorSlugChar(s[k + 1]);
    }
    CategorySlug.CollapseRunsIdentity(s, Separator, '-');
  }

  /** Before stripping, a normal-form slug is left as it is. */
  lemma {:induction false} DashedFixpoint(s: string)
    requires IsAuthorSlug(s)
    ensures Dashed(s) == s
  {
    AuthorSlugIsSlug(s);
    CategorySlug.SlugTrimLower(s);
    AuthorSlugKept(s);
    AuthorSlugSeparators(s);
  }

  /** A slug in normal form is its own slug, so generating a slug is idempotent. */
  lemma {:induction false} AuthorSlugFixpoint(s: string)
    requires IsAuthorSlug(s)
    ensures GenerateSlug(s) == s
  {
    DashedFixpoint(s);
    StripFixpoint(s);
  }

  lemma {:induction false} StripFixpoint(s: string)
    requires IsAuthorSlug(s)
    ensures StripHyphens(s) == s
  {
    if s != [] {
      assert LeadingHyphens(s) == 0;
      assert TrailingHyphens(s) == 0;
    }
  }

  lemma AuthorGenerateSlugIdempotent(text: string)
    ensures GenerateSlug(GenerateSlug(text)) == GenerateSlug(text)
  {
    GenerateSlugIsAuthorSlug(text);
    AuthorSlugFixpoint(GenerateSlug(text));
  }

  // ---------------------------------------------------------------------
  // isSlugUnique and the e-mail pattern
  // ---------------------------------------------------------------------

  /** `isSlugUnique(slug)`: an edited author may keep its own slug; otherwise the slug
      must not be one of `existingSlugs`. */
  function IsSlugUnique(author: Option<Author>, existingSlugs: seq<string>, slug: string): (b: bool)
    ensures author.Some? && slug == author.value.slug ==> b
    ensures !(author.Some? && slug == author.value.slug) ==> (b <==> slug !in existingSlugs)
  {
    if author.Some? && slug == author.value.slug then true else slug !in existingSlugs
  }

  /** No white space and no `@`: the class `[^\s@]`. */
  predicate Plain(s: string)
  {
    forall k :: 0 <= k < |s| ==> !Text.IsSpace(s[k]) && s[k] != '@'
  }

  /** `/^[^\s@]+@[^\s@]+\.[^\s@]+$/.test(email)`: a non-empty local part, `@`, and a
      domain holding a `.` with something on each side. */
  predicate EmailPattern(e: string)
  {
    exists i, k :: 0 < i && i + 1 < k && k + 1 < |e| && e[i] == '@' && e[k] == '.'
      && Plain(e[..i]) && Plain(e[i + 1..k]) && Plain(e[k + 1..])
  }

  lemma {:induction false} PlainHasNoAt(s: string)
    requires Plain(s)
    ensures multiset(s)['@'] == 0
  {
    if s != [] {
      PlainHasNoAt(s[1..]);
      assert s == [s[0]] + s[1..];
    }
  }

  /** An address the pattern accepts has exactly one `@`, not at the start, and no white
      space. */
  lemma EmailPatternShape(e: string)
    requires EmailPattern(e)
    ensures multiset(e)['@'] == 1
    ensures e[0] != '@'
    ensures forall k :: 0 <= k < |e| ==> !Text.IsSpace(e[k])
  {
    var i, k :| 0 < i && i + 1 < k && k + 1 < |e| && e[i] == '@' && e[k] == '.'
      && Plain(e[..i]) && Plain(e[i + 1..k]) && Plain(e[k + 1..]);
    EmailParts(e, i, k);
  }

  lemma {:induction false} EmailParts(e: string, i: nat, k: nat)
    requires 0 < i && i + 1 < k && k + 1 < |e| && e[i] == '@' && e[k] == '.'
    requires Plain(e[..i]) && Plain(e[i + 1..k]) && Plain(e[k + 1..])
    ensures multiset(e)['@'] == 1
    ensures e[0] != '@'
    ensures forall m :: 0 <= m < |e| ==> !Text.IsSpace(e[m])
  {
    assert e[0] == e[..i][0];
    EmailAtCount(e, i, k);
    EmailNoSpace(e, i, k);
  }

  lemma {:induction false} EmailAtCount(e: string, i: nat, k: nat)
    requires 0 < i && i + 1 < k && k + 1 < |e| && e[i] == '@' && e[k] == '.'
    requires Plain(e[..i]) && Plain(e[i + 1..k]) && Plain(e[k + 1..])
    ensures multiset(e)['@'] == 1
  {
    SplitCount(e, i);
    SplitCount(e[i..], 1);
    assert e[i..][1..] == e[i + 1..];
    SplitCount(e[i + 1..], k - i - 1);
    assert e[i + 1..][..k - i - 1] == e[i + 1..k];
    assert e[i + 1..][k - i - 1..] == e[k..];
    SplitCount(e[k..], 1);
    assert e[k..][1..] == e[k + 1..];
    PlainHasNoAt(e[..i]);
    PlainHasNoAt(e[i + 1..k]);
    PlainHasNoAt(e[k + 1..]);
  }

  lemma SplitCount(s: string, n: nat)
    requires n <= |s|
    ensures multiset(s)['@'] == multiset(s[..n])['@'] + multiset(s[n..])['@']
  {
    assert s == s[..n] + s[n..];
  }

  lemma {:induction false} EmailNoSpace(e: string, i: nat, k: nat)
    requires 0 < i && i + 1 < k && k + 1 < |e| && e[i] == '@' && e[k] == '.'
    requires Plain(e[..i]) && Plain(e[i + 1..k]) && Plain(e[k + 1..])
    ensures forall m :: 0 <= m < |e| ==> !Text.IsSpace(e[m])
  {
    forall m | 0 <= m < |e| ensures !Text.IsSpace(e[m]) {
      if m < i {
        assert e[m] == e[..i][m];
      } else if i < m < k {
        assert e[m] == e[i + 1..k][m - i - 1];
      } else if k < m {
        assert e[m] == e[k + 1..][m - k - 1];
      }
    }
  }

  // ---------------------------------------------------------------------
  // handleSubmit
  // ---------------------------------------------------------------------

  /** The form's fields. */
  datatype Fields = Fields(nameEn: string, nameDv: string, slug: string, bioEn: string, bioDv: string,
                           photo: string, twitter: string, linkedin: string, facebook: string,
                           email: string, autoSlug: bool)

  /** `Omit<Author, 'id' | 'createdAt' | 'isDeleted'>`, as `onSubmit` receives it. */
  datatype AuthorData = AuthorData(name: BilingualText, slug: string, bio: BilingualText,
                                   photo: string, socialLinks: SocialLinks)

  /** The checks of `handleSubmit`, in the order they run. */
  datatype FormError = NamesRequired | SlugRequired | SlugTaken | BiosRequired | PhotoRequired | EmailInvalid

  function Message(e: FormError): string
  {
    match e
    case NamesRequired => "Please provide both English and Dhivehi names"
    case SlugRequired => "Please provide a slug"
    case SlugTaken => "This slug is already in use. Please choose another."
    case BiosRequired => "Please provide both English and Dhivehi bios"
    case PhotoRequired => "Please provide a photo URL"
    case EmailInvalid => "Please provide a valid email address"
  }

  /** `...(x.trim() && { key: x.trim() })`: the key only for a non-blank input. */
  function Link(x: string): (r: Option<string>)
    ensures r.Some? <==> !Text.Blank(x)
    ensures r.Some? ==> r.value == Text.Trim(x)
  {
    if Text.Trim(x) != "" then Some(Text.Trim(x)) else None
  }

  /** The object handed to `onSubmit`: every text trimmed. */
  function Payload(f: Fields): AuthorData
  {
    AuthorData(BilingualText(Text.Trim(f.nameEn), Text.Trim(f.nameDv)), Text.Trim(f.slug),
               BilingualText(Text.Trim(f.bioEn), Text.Trim(f.bioDv)), Text.Trim(f.photo),
               SocialLinks(Link(f.twitter), Link(f.linkedin), Link(f.facebook), Link(f.email)))
  }

  /** The checks after the slug's, shared by both versions below. */
  function CheckRest(f: Fields): (r: Result<AuthorData, FormError>)
    ensures r == Err(BiosRequired) <==> Text.Blank(f.bioEn) || Text.Blank(f.bioDv)
    ensures r == Err(PhotoRequired) <==> !Text.Blank(f.bioEn) && !Text.Blank(f.bioDv) && Text.Blank(f.photo)
    ensures r == Err(EmailInvalid) <==>
      !Text.Blank(f.bioEn) && !Text.Blank(f.bioDv) && !Text.Blank(f.photo) && f.email != "" && !EmailPattern(f.email)
    ensures r.Ok? <==>
      !Text.Blank(f.bioEn) && !Text.Blank(f.bioDv) && !Text.Blank(f.photo) && (f.email == "" || EmailPattern(f.email))
    ensures r.Ok? ==> r.value == Payload(f)
  {
    if Text.Blank(f.bioEn) || Text.Blank(f.bioDv) then Err(BiosRequired)
    else if Text.Blank(f.photo) then Err(PhotoRequired)
    else if f.email != "" && !EmailPattern(f.email) then Err(EmailInvalid)
    else Ok(Payload(f))
  }

  /** `handleSubmit` as written: the uniqueness test is made on the slug as typed, while
      the payload carries the trimmed slug. */
  function SubmitAsWritten(author: Option<Author>, existingSlugs: seq<string>, f: Fields)
    : (r: Result<AuthorData, FormError>)
    ensures r == Err(NamesRequired) <==> Text.Blank(f.nameEn) || Text.Blank(f.nameDv)
    ensures r == Err(SlugRequired) <==> !Text.Blank(f.nameEn) && !Text.Blank(f.nameDv) && Text.Blank(f.slug)
    ensures r == Err(SlugTaken) <==>
      !Text.Blank(f.nameEn) && !Text.Blank(f.nameDv) && !Text.Blank(f.slug) && !IsSlugUnique(author, existingSlugs, f.slug)
    ensures (!Text.Blank(f.nameEn) && !Text.Blank(f.nameDv) && !Text.Blank(f.slug)
             && IsSlugUnique(author, existingSlugs, f.slug)) ==> r == CheckRest(f)
    ensures r.Ok? <==>
      && !Text.Blank(f.nameEn) && !Text.Blank(f.nameDv) && !Text.Blank(f.slug)
      && IsSlugUnique(author, existingSlugs, f.slug) && CheckRest(f).Ok?
    ensures r.Ok? ==> r.value == Payload(f)
  {
    if Text.Blank(f.nameEn) || Text.Blank(f.nameDv) then Err(NamesRequired)
    else if Text.Blank(f.slug) then Err(SlugRequired)
    else if !IsSlugUnique(author, existingSlugs, f.slug) then Err(SlugTaken)
    else CheckRest(f)
  }

  /** `handleSubmit` with the uniqueness test made on the slug that is submitted. */
  function Submit(author: Option<Author>, existingSlugs: seq<string>, f: Fields)
    : (r: Result<AuthorData, FormError>)
    ensures r == Err(NamesRequired) <==> Text.Blank(f.nameEn) || Text.Blank(f.nameDv)
    ensures r == Err(SlugRequired) <==> !Text.Blank(f.nameEn) && !Text.Blank(f.nameDv) && Text.Blank(f.slug)
    ensures r == Err(SlugTaken) <==>
      && !Text.Blank(f.nameEn) && !Text.Blank(f.nameDv) && !Text.Blank(f.slug)
      && !IsSlugUnique(author, existingSlugs, Text.Trim(f.slug))
    ensures r.Ok? <==>
      && !Text.Blank(f.nameEn) && !Text.Blank(f.nameDv) && !Text.Blank(f.slug)
      && IsSlugUnique(author, existingSlugs, Text.Trim(f.slug)) && CheckRest(f).Ok?
    ensures (!Text.Blank(f.nameEn) && !Text.Blank(f.nameDv) && !Text.Blank(f.slug)
             && IsSlugUnique(author, existingSlugs, Text.Trim(f.slug))) ==> r == CheckRest(f)
    ensures r.Ok? ==> r.value == Payload(f)
  {
    if Text.Blank(f.nameEn) || Text.Blank(f.nameDv) then Err(NamesRequired)
    else if Text.Blank(f.slug) then Err(SlugRequired)
    else if !IsSlugUnique(author, existingSlugs, Text.Trim(f.slug)) then Err(SlugTaken)
    else CheckRest(f)
  }

  /** An accepted new author carries trimmed, non-blank names, bios, photo and slug, a
      slug that is not among the existing ones, an e-mail the pattern accepts (if any),
      and only non-blank, trimmed social links. */
  lemma SubmitAccepted(existingSlugs: seq<string>, f: Fields)
    requires Submit(None, existingSlugs, f).Ok?
    ensures var d := Submit(None, existingSlugs, f).value;
      && d.name.en != "" && d.name.dv != "" && d.bio.en != "" && d.bio.dv != "" && d.photo != ""
      && d.slug != "" && Text.Trim(d.slug) == d.slug && d.slug !in existingSlugs
      && (f.email != "" ==> EmailPattern(f.email))
      && (d.socialLinks.email.Some? ==> d.socialLinks.email.value != "" && Text.Trim(d.socialLinks.email.value) == d.socialLinks.email.value)
  {
    Text.TrimIdempotent(f.slug);
    Text.TrimIdempotent(f.email);
  }

  /** As written, a new author whose required fields are filled, whose e-mail is empty and
      whose slug as typed is not among the existing ones is accepted with the trimmed payload. */
  lemma AsWrittenAccepts(existingSlugs: seq<string>, f: Fields)
    requires !Text.Blank(f.nameEn) && !Text.Blank(f.nameDv) && !Text.Blank(f.slug)
    requires !Text.Blank(f.bioEn) && !Text.Blank(f.bioDv) && !Text.Blank(f.photo) && f.email == ""
    requires f.slug !in existingSlugs
    ensures SubmitAsWritten(None, existingSlugs, f) == Ok(Payload(f))
  {
    assert IsSlugUnique(None, existingSlugs, f.slug);
    assert CheckRest(f) == Ok(Payload(f));
  }

  /** A slug typed with a trailing space passes the check as written although the trimmed
      slug it submits, `s`, is already taken. */
  lemma PaddedAuthorSlugSlipsThrough(s: string)
    requires s != [] && forall k :: 0 <= k < |s| ==> !Text.IsSpace(s[k])
    ensures var f := Fields(s, s, s + " ", s, s, s, "", "", "", "", false);
      && SubmitAsWritten(None, [s], f).Ok?
      && SubmitAsWritten(None, [s], f).value.slug == s
  {
    var f := Fields(s, s, s + " ", s, s, s, "", "", "", "", false);
    Text.TrimPadded(s);
    assert f.slug !in [s] by {
      assert |f.slug| != |s|;
    }
    AsWrittenAccepts([s], f);
  }

  // ---------------------------------------------------------------------
  // The form state
  // ---------------------------------------------------------------------

  function OrEmpty(o: Option<string>): string
  {
    if o.Some? then o.value else ""
  }

  /** The form's state: each `useState` of the component is a field. */
  class AuthorFormState {
    const author: Option<Author>
    var nameEn: string
    var nameDv: string
    var slug: string
    var bioEn: string
    var bioDv: string
    var photo: string
    var twitter: string
    var linkedin: string
    var facebook: string
    var email: string
    var autoSlug: bool

    function Snapshot(): Fields
      reads this
    {
      Fields(nameEn, nameDv, slug, bioEn, bioDv, photo, twitter, linkedin, facebook, email, autoSlug)
    }

    /** The initial state: the edited author's values, or empty fields and the automatic
        slug for a new author. */
    constructor(author: Option<Author>)
      ensures this.author == author
      ensures author.None? ==> Snapshot() == Fields("", "", "", "", "", "", "", "", "", "", true)
      ensures author.Some? ==>
        var a := author.value;
        var l := if a.socialLinks.Some? then a.socialLinks.value else SocialLinks(None, None, None, None);
        Snapshot() == Fields(a.name.en, a.name.dv, a.slug, a.bio.en, a.bio.dv, a.photo,
          OrEmpty(l.twitter), OrEmpty(l.linkedin), OrEmpty(l.facebook), OrEmpty(l.email), false)
    {
      this.author := author;
      match author {
        case None =>
          nameEn, nameDv, slug, bioEn, bioDv, photo := "", "", "", "", "", "";
          twitter, linkedin, facebook, email := "", "", "", "";
          autoSlug := true;
        case Some(a) =>
          var l := if a.socialLinks.Some? then a.socialLinks.value else SocialLinks(None, None, None, None);
          nameEn, nameDv, slug, bioEn, bioDv, photo := a.name.en, a.name.dv, a.slug, a.bio.en, a.bio.dv, a.photo;
          twitter, linkedin, facebook, email := OrEmpty(l.twitter), OrEmpty(l.linkedin), OrEmpty(l.facebook), OrEmpty(l.email);
          autoSlug := false;
      }
    }

    /** `handleNameEnChange(value)`: with the automatic slug on and a non-empty name, the
        slug becomes the normal-form slug of the name. */
    method HandleNameEnChange(value: string)
      modifies this
      ensures Snapshot() == old(Snapshot()).(nameEn := value,
        slug := if old(autoSlug) && value != "" then GenerateSlug(value) else old(slug))
      ensures old(autoSlug) && value != "" ==> IsAuthorSlug(slug)
    {
      if autoSlug && value != "" {
        var generated := GenerateSlug(value);
        GenerateSlugIsAuthorSlug(value);
        slug := generated;
      }
      nameEn := value;
    }

    /** Typing in the slug field turns the automatic slug off. */
    method HandleSlugChange(value: string)
      modifies this
      ensures Snapshot() == old(Snapshot()).(slug := value, autoSlug := false)
    {
      slug := value;
      autoSlug := false;
    }

    /** The lock button flips the automatic slug; unlike the article editor, turning it
        back on leaves the slug as it is until the English name changes again. */
    method ToggleAutoSlug()
      modifies this
      ensures Snapshot() == old(Snapshot()).(autoSlug := !old(autoSlug))
    {
      autoSlug := !autoSlug;
    }

    /** `handleSubmit`: the first failed check, or the payload for `onSubmit`, with the
        uniqueness test made on the slug as typed. */
    method HandleSubmit(existingSlugs: seq<string>) returns (r: Result<AuthorData, FormError>)
      ensures r == SubmitAsWritten(author, existingSlugs, Snapshot())
    {
      r := SubmitAsWritten(author, existingSlugs, Snapshot());
    }
  }
}
