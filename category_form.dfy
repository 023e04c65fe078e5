/** The category form (components/admin/CategoryForm.tsx): its field state, the automatic
    slug, the parent picker that hides the category and everything below it, the
    dropdown built from that picker, and the submission checks and payload. */
module CategoryForm {

  import opened Wrappers
  import opened Types
  import Seqs
  import Text
  import opened CategoryHierarchy
  import opened CategoryEdits
  import CategorySlug
  import CategoryStore

  // ---------------------------------------------------------------------
  // getAvailableParents / getChildIds
  // ---------------------------------------------------------------------

  /** `getChildIds(id)`: the ids of the direct children of `id`, then, child by child, the
      ids below each of them. The recursion ends because the hierarchy is acyclic. */
  function ChildIds(cats: seq<Category>, id: string): seq<string>
    requires Valid(cats)
    decreases Remaining(cats, Some(id)), 1, 0
  {
    var children := Seqs.Filter(cats, ChildOf(Some(id)));
    Ids(children) + GrandchildIds(cats, id, children)
  }

  /** `children.flatMap((c) => getChildIds(c.id))`. */
  function GrandchildIds(cats: seq<Category>, id: string, kids: seq<Category>): seq<string>
    requires Valid(cats)
    requires forall k :: k in kids ==> k in cats && k.parentId == Some(id)
    decreases Remaining(cats, Some(id)), 0, |kids|
  {
    if kids == [] then []
    else
      ValidTreeStart(cats, Some(id));
      RemainingShrinks(cats, Some(id), kids[0]);
      ChildIds(cats, kids[0].id) + GrandchildIds(cats, id, kids[1..])
  }

  lemma {:induction false} GrandchildIdsMembers(cats: seq<Category>, id: string, kids: seq<Category>, x: string)
    requires Valid(cats)
    requires forall k :: k in kids ==> k in cats && k.parentId == Some(id)
    ensures x in GrandchildIds(cats, id, kids) <==>
      exists k, c :: k in kids && c in cats && c.id == x && Descends(cats, c, Some(k.id))
    decreases Remaining(cats, Some(id)), 0, |kids|
  {
    if kids != [] {
      ValidTreeStart(cats, Some(id));
      RemainingShrinks(cats, Some(id), kids[0]);
      ChildIdsMembers(cats, kids[0].id, x);
      GrandchildIdsMembers(cats, id, kids[1..], x);
      assert forall k :: k in kids <==> k == kids[0] || k in kids[1..];
    }
  }

  /** The ids `getChildIds(id)` collects are exactly those of the listed categories lying
      below `id`: some category on their way up has `parentId === id`. */
  lemma {:induction false} ChildIdsMembers(cats: seq<Category>, id: string, x: string)
    requires Valid(cats)
    ensures x in ChildIds(cats, id) <==> exists c :: c in cats && c.id == x && Descends(cats, c, Some(id))
    decreases Remaining(cats, Some(id)), 1, 0
  {
    var kids := Seqs.Filter(cats, ChildOf(Some(id)));
    GrandchildIdsMembers(cats, id, kids, x);
    if x in ChildIds(cats, id) {
      ChildIdsSound(cats, id, kids, x);
    }
    forall c | c in cats && c.id == x && Descends(cats, c, Some(id)) ensures x in ChildIds(cats, id) {
      ChildIdsComplete(cats, id, kids, c);
    }
  }

  /** An id collected from the children or from below them is that of a category below
      `id`. */
  lemma ChildIdsSound(cats: seq<Category>, id: string, kids: seq<Category>, x: string)
    requires Valid(cats) && kids == Seqs.Filter(cats, ChildOf(Some(id)))
    requires x in GrandchildIds(cats, id, kids) ==>
      exists k, c :: k in kids && c in cats && c.id == x && Descends(cats, c, Some(k.id))
    requires x in ChildIds(cats, id)
    ensures exists c :: c in cats && c.id == x && Descends(cats, c, Some(id))
  {
    if x in Ids(kids) {
      var k :| 0 <= k < |kids| && Ids(kids)[k] == x;
      ValidTreeStart(cats, Some(id));
      DescendsStep(cats, kids[k], Some(id));
    } else {
      var k, c :| k in kids && c in cats && c.id == x && Descends(cats, c, Some(k.id));
      ValidTreeStart(cats, Some(id));
      DescendsStep(cats, c, Some(id));
    }
  }

  /** The id of a category below `id` is collected, from the children or from below one
      of them. */
  lemma ChildIdsComplete(cats: seq<Category>, id: string, kids: seq<Category>, c: Category)
    requires Valid(cats) && kids == Seqs.Filter(cats, ChildOf(Some(id)))
    requires (exists k, d :: k in kids && d in cats && d.id == c.id && Descends(cats, d, Some(k.id))) ==>
      c.id in GrandchildIds(cats, id, kids)
    requires c in cats && Descends(cats, c, Some(id))
    ensures c.id in ChildIds(cats, id)
  {
    ValidTreeStart(cats, Some(id));
    DescendsStep(cats, c, Some(id));
    if c.parentId == Some(id) {
      var j :| 0 <= j < |kids| && kids[j] == c;
      assert Ids(kids)[j] == c.id;
    } else {
      var k :| k in cats && k.parentId == Some(id) && Descends(cats, c, Some(k.id));
      assert k in kids;
    }
  }

  function NotIn(ids: seq<string>): Category -> bool
  {
    (c: Category) => c.id !in ids
  }

  /** `getAvailableParents()`: every category when creating; when editing, the categories
      other than the edited one and those below it. */
  function AvailableParents(cats: seq<Category>, category: Option<Category>): seq<Category>
    requires Valid(cats)
  {
    match category
    case None => cats
    case Some(cat) => Seqs.Filter(cats, NotIn([cat.id] + ChildIds(cats, cat.id)))
  }

  /** Naming `p` as the new parent of `cat` closes a cycle exactly when `p` is `cat` or
      lies below it. */
  lemma CycleIffBelow(cats: seq<Category>, cat: Category, p: Category)
    requires Valid(cats) && p in cats && cat in cats
    ensures WouldCycle(cats, cat.id, Some(p.id)) <==> p.id == cat.id || Descends(cats, p, Some(cat.id))
  {
    FindOwnId(cats, p);
    assert Grounded(cats, p);
    if AncestorOrSelfId(cats, cat.id, p) && p.id != cat.id {
      AncestorIsBelow(cats, cat.id, p);
    }
    if Descends(cats, p, Some(cat.id)) {
      BelowIsAncestor(cats, cat, p);
    }
  }

  /** A strict ancestor on the walk up from `p` is one whose id some category of that walk
      names as its parent. */
  lemma AncestorIsBelow(cats: seq<Category>, id: string, p: Category)
    requires Grounded(cats, p) && AncestorOrSelfId(cats, id, p) && p.id != id
    ensures Descends(cats, p, Some(id))
  {
    var l := Lineage(cats, p);
    LineageLinks(cats, p);
    var a :| a in l && a.id == id;
    var j :| 0 <= j < |l| && l[j] == a;
    LinkBelow(cats, l, j);
  }

  /** A listed category whose id some category on the walk up from `p` names as its parent
      lies on that walk. */
  lemma BelowIsAncestor(cats: seq<Category>, cat: Category, p: Category)
    requires UniqueIds(cats) && cat in cats && cat.id != ""
    requires Grounded(cats, p) && Descends(cats, p, Some(cat.id))
    ensures AncestorOrSelfId(cats, cat.id, p)
  {
    FindOwnId(cats, cat);
    var l := Lineage(cats, p);
    LineageLinks(cats, p);
    var i :| 0 <= i < |l| && l[i].parentId == Some(cat.id);
    assert ParentOf(cats, l[i]) == Some(cat);
    LinkAbove(cats, l, i, cat);
    assert l[i + 1] in l;
  }

  /** In a walk up, each category names the next as its parent. */
  lemma LinkBelow(cats: seq<Category>, l: seq<Category>, j: nat)
    requires 0 < j < |l|
    requires forall k :: 0 <= k < |l| - 1 ==> ParentOf(cats, l[k]) == Some(l[k + 1])
    ensures l[j - 1].parentId == Some(l[j].id)
  {
    assert ParentOf(cats, l[j - 1]) == Some(l[j]);
  }

  /** In a walk up that ends at a root, a category with a parent is followed by it. */
  lemma LinkAbove(cats: seq<Category>, l: seq<Category>, i: nat, c: Category)
    requires i < |l|
    requires forall k :: 0 <= k < |l| - 1 ==> ParentOf(cats, l[k]) == Some(l[k + 1])
    requires ParentOf(cats, l[|l| - 1]).None?
    requires ParentOf(cats, l[i]) == Some(c)
    ensures i < |l| - 1 && l[i + 1] == c
  {
  }

  /** The parent picker offers every category when creating; when editing a listed
      category it offers, in list order, exactly the categories that
      `hasCircularDependency` would accept as its new parent. */
  lemma AvailableParentsSpec(cats: seq<Category>, category: Option<Category>)
    requires Valid(cats)
    ensures category.None? ==> AvailableParents(cats, category) == cats
    ensures Seqs.IsSubseq(AvailableParents(cats, category), cats)
    ensures category.Some? && category.value in cats ==>
      forall p :: p in AvailableParents(cats, category) <==>
        p in cats && !WouldCycle(cats, category.value.id, Some(p.id))
  {
    if category.None? {
      Seqs.SubseqRefl(cats);
    } else if category.value in cats {
      var cat := category.value;
      forall p ensures p in AvailableParents(cats, category) <==>
        p in cats && !WouldCycle(cats, cat.id, Some(p.id))
      {
        if p in cats {
          CycleIffBelow(cats, cat, p);
          ChildIdsMembers(cats, cat.id, p.id);
          if p.id in ChildIds(cats, cat.id) {
            var c :| c in cats && c.id == p.id && Descends(cats, c, Some(cat.id));
            FindOwnId(cats, c);
            FindOwnId(cats, p);
          }
        }
      }
    }
  }

  /** A dropdown entry: not 'uncategorized' and active. */
  predicate Offered(c: Category)
  {
    c.id != CategoryStore.Uncategorized && c.isActive
  }

  /** The parent dropdown: the available parents that are offered, sorted by `order`. */
  function ParentOptions(cats: seq<Category>, category: Option<Category>): seq<Category>
    requires Valid(cats)
  {
    Seqs.SortBy(Seqs.Filter(AvailableParents(cats, category), Offered), ByOrder())
  }

  /** The dropdown lists each available, offered category once, sorted by `order`; when
      editing a listed category, none of its entries would close a cycle. */
  lemma ParentOptionsSpec(cats: seq<Category>, category: Option<Category>)
    requires Valid(cats)
    ensures multiset(ParentOptions(cats, category))
         == multiset(Seqs.Filter(AvailableParents(cats, category), Offered))
    ensures Seqs.SortedBy(ParentOptions(cats, category), ByOrder())
    ensures forall p :: p in ParentOptions(cats, category) <==>
      p in AvailableParents(cats, category) && p.id != CategoryStore.Uncategorized && p.isActive
    ensures category.Some? && category.value in cats ==>
      forall p :: p in ParentOptions(cats, category) ==> !WouldCycle(cats, category.value.id, Some(p.id))
  {
    var f := Seqs.Filter(AvailableParents(cats, category), Offered);
    Seqs.SortPerm(f, ByOrder());
    Seqs.KeyOrdersAreTotal((c: Category) => c.order);
    Seqs.SortSorted(f, ByOrder());
    AvailableParentsSpec(cats, category);
    forall p ensures p in ParentOptions(cats, category) <==> p in f {
      assert p in ParentOptions(cats, category) <==> p in multiset(ParentOptions(cats, category));
    }
  }

  // ---------------------------------------------------------------------
  // Submission
  // ---------------------------------------------------------------------

  /** The form's fields at the moment it is submitted. */
  datatype Fields = Fields(
    nameEn: string, nameDv: string, slug: string, descEn: string, descDv: string,
    color: string, icon: string, parentId: string, isActive: bool, isSpecial: bool,
    specialRoute: string, autoSlug: bool)

  /** The checks of `handleSubmit`, in the order they run; each stops the submission with
      its alert. */
  datatype FormError = NamesRequired | SlugRequired | SlugTaken | RouteRequired

  function Message(e: FormError): string
  {
    match e
    case NamesRequired => "Please provide both English and Dhivehi names"
    case SlugRequired => "Please provide a slug"
    case SlugTaken => "This slug is already in use. Please choose another."
    case RouteRequired => "Special categories require a route path"
  }

  function IdOf(category: Option<Category>): Option<string>
  {
    if category.Some? then Some(category.value.id) else None
  }

  /** The object handed to `onSubmit`. */
  function Payload(category: Option<Category>, f: Fields): (d: CategoryData)
    ensures d.parentId.None? <==> f.parentId == "none"
    ensures d.specialPageRoute.Some? <==> f.isSpecial
  {
    CategoryData(
      BilingualText(Text.Trim(f.nameEn), Text.Trim(f.nameDv)),
      Text.Trim(f.slug),
      f.color,
      if f.parentId == "none" then None else Some(f.parentId),
      Some(BilingualText(Text.Trim(f.descEn), Text.Trim(f.descDv))),
      Some(f.icon),
      if category.Some? then category.value.order else 0,
      f.isActive,
      f.isSpecial,
      if f.isSpecial then Some(Text.Trim(f.specialRoute)) else None,
      if category.Some? then category.value.createdBy else None)
  }

  /** `handleSubmit` as written: the uniqueness test is made on the slug as typed, while
      the payload carries the trimmed slug. */
  function SubmitAsWritten(cats: seq<Category>, category: Option<Category>, f: Fields): (r: Result<CategoryData, FormError>)
    ensures r == Err(NamesRequired) <==> Text.Blank(f.nameEn) || Text.Blank(f.nameDv)
    ensures r == Err(SlugRequired) <==> !Text.Blank(f.nameEn) && !Text.Blank(f.nameDv) && Text.Blank(f.slug)
    ensures r == Err(SlugTaken) <==>
      !Text.Blank(f.nameEn) && !Text.Blank(f.nameDv) && !Text.Blank(f.slug)
      && !CategorySlug.IsSlugUnique(cats, f.slug, IdOf(category))
    ensures r == Err(RouteRequired) <==>
      !Text.Blank(f.nameEn) && !Text.Blank(f.nameDv) && !Text.Blank(f.slug)
      && CategorySlug.IsSlugUnique(cats, f.slug, IdOf(category))
      && f.isSpecial && Text.Blank(f.specialRoute)
    ensures r.Ok? <==>
      !Text.Blank(f.nameEn) && !Text.Blank(f.nameDv) && !Text.Blank(f.slug)
      && CategorySlug.IsSlugUnique(cats, f.slug, IdOf(category))
      && (f.isSpecial ==> !Text.Blank(f.specialRoute))
    ensures r.Ok? ==> r.value == Payload(category, f)
  {
    if Text.Blank(f.nameEn) || Text.Blank(f.nameDv) then Err(NamesRequired)
    else if Text.Blank(f.slug) then Err(SlugRequired)
    else if !CategorySlug.IsSlugUnique(cats, f.slug, IdOf(category)) then Err(SlugTaken)
    else if f.isSpecial && Text.Blank(f.specialRoute) then Err(RouteRequired)
    else Ok(Payload(category, f))
  }

  /** `handleSubmit` with the uniqueness test made on the slug that is submitted. */
  function Submit(cats: seq<Category>, category: Option<Category>, f: Fields): (r: Result<CategoryData, FormError>)
    ensures r == Err(NamesRequired) <==> Text.Blank(f.nameEn) || Text.Blank(f.nameDv)
    ensures r == Err(SlugRequired) <==> !Text.Blank(f.nameEn) && !Text.Blank(f.nameDv) && Text.Blank(f.slug)
    ensures r == Err(SlugTaken) <==>
      !Text.Blank(f.nameEn) && !Text.Blank(f.nameDv) && !Text.Blank(f.slug)
      && !CategorySlug.IsSlugUnique(cats, Text.Trim(f.slug), IdOf(category))
    ensures r == Err(RouteRequired) <==>
      !Text.Blank(f.nameEn) && !Text.Blank(f.nameDv) && !Text.Blank(f.slug)
      && CategorySlug.IsSlugUnique(cats, Text.Trim(f.slug), IdOf(category))
      && f.isSpecial && Text.Blank(f.specialRoute)
    ensures r.Ok? <==>
      !Text.Blank(f.nameEn) && !Text.Blank(f.nameDv) && !Text.Blank(f.slug)
      && CategorySlug.IsSlugUnique(cats, Text.Trim(f.slug), IdOf(category))
      && (f.isSpecial ==> !Text.Blank(f.specialRoute))
    ensures r.Ok? ==> r.value == Payload(category, f)
  {
    if Text.Blank(f.nameEn) || Text.Blank(f.nameDv) then Err(NamesRequired)
    else if Text.Blank(f.slug) then Err(SlugRequired)
    else if !CategorySlug.IsSlugUnique(cats, Text.Trim(f.slug), IdOf(category)) then Err(SlugTaken)
    else if f.isSpecial && Text.Blank(f.specialRoute) then Err(RouteRequired)
    else Ok(Payload(category, f))
  }

  /** An accepted submission carries trimmed, non-blank names and slug, a slug no other
      category uses, and a non-blank trimmed route exactly for a special category. */
  lemma SubmitAccepted(cats: seq<Category>, category: Option<Category>, f: Fields)
    requires Submit(cats, category, f).Ok?
    ensures var d := Submit(cats, category, f).value;
      && d.name.en != "" && Text.Trim(d.name.en) == d.name.en
      && d.name.dv != "" && Text.Trim(d.name.dv) == d.name.dv
      && d.slug != "" && Text.Trim(d.slug) == d.slug
      && CategorySlug.IsSlugUnique(cats, d.slug, IdOf(category))
      && (d.specialPageRoute.Some? ==> d.specialPageRoute.value != "")
  {
    Text.TrimIdempotent(f.nameEn);
    Text.TrimIdempotent(f.nameDv);
    Text.TrimIdempotent(f.slug);
  }

  /** Creating from an accepted new-category form keeps the slugs unique. */
  lemma SubmitThenCreateKeepsSlugsUnique(cats: seq<Category>, f: Fields, id: string, now: int)
    requires CategorySlug.UniqueSlugs(cats) && Submit(cats, None, f).Ok?
    ensures CategorySlug.UniqueSlugs(cats + [NewCategory(Submit(cats, None, f).value, id, now)])
  {
    SubmitAccepted(cats, None, f);
    CategorySlug.CreateKeepsSlugsUnique(cats, Submit(cats, None, f).value, id, now);
  }

  /** Saving an accepted edit keeps the slugs unique, and, when the chosen parent is
      "none" or one the picker offered, keeps the hierarchy valid although
      `updateCategory` itself makes no cycle check. */
  lemma SubmitThenUpdateKeepsInvariants(cats: seq<Category>, cat: Category, f: Fields, now: int)
    requires Valid(cats) && CategorySlug.UniqueSlugs(cats) && cat in cats
    requires Submit(cats, Some(cat), f).Ok?
    requires f.parentId == "none" || exists p :: p in AvailableParents(cats, Some(cat)) && p.id == f.parentId
    ensures var r := Updated(cats, cat.id, DataPatch(Submit(cats, Some(cat), f).value), now);
      CategorySlug.UniqueSlugs(r) && Valid(r)
  {
    var d := Submit(cats, Some(cat), f).value;
    SubmitAccepted(cats, Some(cat), f);
    CategorySlug.UpdateKeepsSlugsUnique(cats, cat.id, DataPatch(d), now);
    AvailableParentsSpec(cats, Some(cat));
    UpdatePreservesValid(cats, cat.id, DataPatch(d), now);
  }

  /** A slug typed with a trailing space passes the check as written although the trimmed
      slug it submits, `s`, is taken by `other`: the new category then shares its slug.
      The corrected check refuses it. */
  lemma PaddedSlugSlipsThrough(s: string, other: Category, id: string, now: int)
    requires s != [] && forall k :: 0 <= k < |s| ==> !Text.IsSpace(s[k])
    requires other.slug == s
    ensures var f := Fields(s, s, s + " ", "", "", "", "", "none", true, false, "", true);
      && SubmitAsWritten([other], None, f).Ok?
      && !CategorySlug.UniqueSlugs([other, NewCategory(SubmitAsWritten([other], None, f).value, id, now)])
      && Submit([other], None, f) == Err(SlugTaken)
  {
    var cats := [other];
    var f := Fields(s, s, s + " ", "", "", "", "", "none", true, false, "", true);
    Text.TrimPadded(s);
    assert !Text.Blank(s) && !Text.Blank(f.slug);
    assert CategorySlug.IsSlugUnique(cats, f.slug, None) by {
      assert |other.slug| != |f.slug|;
    }
    assert !CategorySlug.IsSlugUnique(cats, Text.Trim(f.slug), None);
    var d := Payload(None, f);
    assert SubmitAsWritten(cats, None, f) == Ok(d);
    assert d.slug == s;
    var r := [other, NewCategory(d, id, now)];
    assert r[0].slug == r[1].slug;
  }

  // ---------------------------------------------------------------------
  // The form state
  // ---------------------------------------------------------------------

  /** The form's state: each `useState` of the component is a field. */
  class CategoryFormState {
    const category: Option<Category>
    var nameEn: string
    var nameDv: string
    var slug: string
    var descEn: string
    var descDv: string
    var color: string
    var icon: string
    var parentId: string
    var isActive: bool
    var isSpecial: bool
    var specialRoute: string
    var autoSlug: bool

    /** The initial state: the edited category's values, with `||` falling back to the
        defaults for absent or empty values; a new category starts with the automatic slug. */
    constructor(category: Option<Category>)
      ensures this.category == category
      ensures category.None? ==>
        && nameEn == "" && nameDv == "" && slug == "" && descEn == "" && descDv == ""
        && color == DefaultColor && icon == DefaultIcon && parentId == "none"
        && isActive && !isSpecial && specialRoute == "" && autoSlug
      ensures category.Some? ==>
        var c := category.value;
        && nameEn == c.name.en && nameDv == c.name.dv && slug == c.slug
        && descEn == (if c.description.Some? then c.description.value.en else "")
        && descDv == (if c.description.Some? then c.description.value.dv else "")
        && color == (if c.color != "" then c.color else DefaultColor)
        && icon == (if c.icon.Some? && c.icon.value != "" then c.icon.value else DefaultIcon)
        && parentId == (if c.parentId.Some? && c.parentId.value != "" then c.parentId.value else "none")
        && isActive == c.isActive && isSpecial == c.isSpecial
        && specialRoute == (if c.specialPageRoute.Some? then c.specialPageRoute.value else "")
        && !autoSlug
    {
      this.category := category;
      match category {
        case None =>
          nameEn, nameDv, slug, descEn, descDv := "", "", "", "", "";
          color, icon, parentId := DefaultColor, DefaultIcon, "none";
          isActive, isSpecial, specialRoute, autoSlug := true, false, "", true;
        case Some(c) =>
          nameEn, nameDv, slug := c.name.en, c.name.dv, c.slug;
          descEn := if c.description.Some? then c.description.value.en else "";
          descDv := if c.description.Some? then c.description.value.dv else "";
          color := if c.color != "" then c.color else DefaultColor;
          icon := if c.icon.Some? && c.icon.value != "" then c.icon.value else DefaultIcon;
          parentId := if c.parentId.Some? && c.parentId.value != "" then c.parentId.value else "none";
          isActive, isSpecial := c.isActive, c.isSpecial;
          specialRoute := if c.specialPageRoute.Some? then c.specialPageRoute.value else "";
          autoSlug := false;
      }
    }

    /** `handleNameEnChange(value)`: stores the name and, with the automatic slug on and a
        non-empty name, replaces the slug by a slug in normal form generated from it. */
    method HandleNameEnChange(value: string)
      modifies this
      ensures Snapshot() == old(Snapshot()).(nameEn := value,
        slug := if old(autoSlug) && value != "" then CategorySlug.GenerateSlug(value) else old(slug))
      ensures old(autoSlug) && value != "" ==> CategorySlug.IsSlug(slug)
    {
      if autoSlug && value != "" {
        var generated := CategorySlug.GenerateSlug(value);
        CategorySlug.GenerateSlugIsSlug(value);
        slug := generated;
      }
      nameEn := value;
    }

    function Snapshot(): Fields
      reads this
    {
      Fields(nameEn, nameDv, slug, descEn, descDv, color, icon, parentId, isActive, isSpecial,
        specialRoute, autoSlug)
    }

    /** `handleSubmit`: the first failed check, or the payload for `onSubmit`, with the
        uniqueness test made on the slug as typed. */
    method HandleSubmit(cats: seq<Category>) returns (r: Result<CategoryData, FormError>)
      ensures r == SubmitAsWritten(cats, category, Snapshot())
    {
      r := SubmitAsWritten(cats, category, Snapshot());
    }
  }

  const DefaultColor := "#0F8A2F"
  const DefaultIcon := "\U{1F4CB}"
}
