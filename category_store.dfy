/** The category store itself (lib/stores/categoryStore.ts): the `categories` field and
    the actions that replace it, the two walks up the hierarchy, and the getters. */
module CategoryStore {

  import opened Wrappers
  import opened Types
  import Seqs
  import opened CategoryHierarchy
  import opened CategoryEdits
  import opened CategoryOrder

  // ---------------------------------------------------------------------
  // Getters
  // ---------------------------------------------------------------------

  function BySlug(slug: string): Category -> bool
  {
    (c: Category) => c.slug == slug
  }

  /** `getCategoryBySlug`: the first category with that slug. */
  function FindBySlug(cats: seq<Category>, slug: string): (r: Option<Category>)
    ensures r.None? <==> forall c :: c in cats ==> c.slug != slug
    ensures r.Some? ==> exists i :: 0 <= i < |cats| && cats[i] == r.value && r.value.slug == slug
                                  && forall j :: 0 <= j < i ==> cats[j].slug != slug
  {
    var i := Seqs.FindIndex(cats, BySlug(slug));
    if i < 0 then None else Some(cats[i])
  }

  function IsActive(c: Category): bool { c.isActive }
  function IsSpecial(c: Category): bool { c.isSpecial }

  /** `getActiveCategories`: the active categories, in list order. */
  function ActiveCategories(cats: seq<Category>): (r: seq<Category>)
    ensures Seqs.IsSubseq(r, cats)
    ensures forall c :: c in r <==> c in cats && c.isActive
  {
    Seqs.Filter(cats, IsActive)
  }

  /** `getSpecialCategories`: the special categories, in list order. */
  function SpecialCategories(cats: seq<Category>): (r: seq<Category>)
    ensures Seqs.IsSubseq(r, cats)
    ensures forall c :: c in r <==> c in cats && c.isSpecial
  {
    Seqs.Filter(cats, IsSpecial)
  }

  // ---------------------------------------------------------------------
  // canDeleteCategory and updateArticleCount
  // ---------------------------------------------------------------------

  datatype DeleteCheck = DeleteCheck(canDelete: bool, reason: Option<string>)

  const Uncategorized := "uncategorized"

  /** `canDeleteCategory(id)`. */
  function CanDeleteCategory(cats: seq<Category>, id: string): (r: DeleteCheck)
    ensures r.canDelete <==> FindById(cats, id).Some? && id != Uncategorized
    ensures r.canDelete <==> r.reason.None?
    ensures FindById(cats, id).None? ==> r.reason == Some("Category not found")
  {
    if FindById(cats, id).None? then DeleteCheck(false, Some("Category not found"))
    else if id == Uncategorized then
      DeleteCheck(false, Some("Cannot delete the default uncategorized category"))
    else DeleteCheck(true, None)
  }

  /** A deletion `canDeleteCategory` allows keeps the store invariant (the id it names
      exists, so it is not empty). */
  lemma AllowedDeletePreservesValid(cats: seq<Category>, id: string)
    requires Valid(cats) && CanDeleteCategory(cats, id).canDelete
    ensures Valid(Deleted(cats, id))
  {
    DeletePreservesValid(cats, id);
  }

  function SetCount(c: Category, id: string, count: int): Category
  {
    if c.id == id then c.(articleCount := Some(count)) else c
  }

  /** `updateArticleCount(id, count)`. */
  function WithArticleCount(cats: seq<Category>, id: string, count: int): (r: seq<Category>)
    ensures |r| == |cats|
  {
    seq(|cats|, i requires 0 <= i < |cats| => SetCount(cats[i], id, count))
  }

  /** Only the records with that id change, and only in `articleCount`; the store
      invariant is kept. */
  lemma WithArticleCountSpec(cats: seq<Category>, id: string, count: int)
    ensures forall i :: 0 <= i < |cats| && cats[i].id == id ==>
      WithArticleCount(cats, id, count)[i] == cats[i].(articleCount := Some(count))
    ensures forall i :: 0 <= i < |cats| && cats[i].id != id ==> WithArticleCount(cats, id, count)[i] == cats[i]
    ensures Valid(cats) ==> Valid(WithArticleCount(cats, id, count))
  {
    if Valid(cats) {
      SameShapeValid(cats, WithArticleCount(cats, id, count));
    }
  }

  // ---------------------------------------------------------------------
  // The store
  // ---------------------------------------------------------------------

  /** The walk `getCategoryPath` and `hasCircularDependency` take from the category with
      id `p` ends (it does when the store is acyclic, or when there is no such category). */
  ghost predicate WalkEnds(cats: seq<Category>, p: string)
  {
    FindById(cats, p).None? || Grounded(cats, FindById(cats, p).value)
  }

  lemma AcyclicWalkEnds(cats: seq<Category>, p: string)
    requires Acyclic(cats)
    ensures WalkEnds(cats, p)
  {
  }

  /** The loop of `hasCircularDependency(id, p)` stops within `n` steps from `c`: it stops
      on meeting `id` or on a category without a (findable) parent. */
  predicate StopsWithin(cats: seq<Category>, id: string, c: Category, n: nat)
    decreases n
  {
    n > 0 && (c.id == id || ParentOf(cats, c).None? || StopsWithin(cats, id, ParentOf(cats, c).value, n - 1))
  }

  /** The walk up from `c` meets `id` within `n` steps. */
  predicate MeetsWithin(cats: seq<Category>, id: string, c: Category, n: nat)
    decreases n
  {
    n > 0 && (c.id == id || (ParentOf(cats, c).Some? && MeetsWithin(cats, id, ParentOf(cats, c).value, n - 1)))
  }

  ghost predicate Meets(cats: seq<Category>, id: string, c: Category)
  {
    exists n: nat :: MeetsWithin(cats, id, c, n)
  }

  /** The loop of `hasCircularDependency(id, p)` ends: `p` names no category, or the walk
      up from the one it names reaches a root or meets `id`. */
  ghost predicate CheckStops(cats: seq<Category>, id: string, p: string)
  {
    FindById(cats, p).None? || exists n: nat :: StopsWithin(cats, id, FindById(cats, p).value, n)
  }

  /** What `hasCircularDependency(id, p)` returns: `p` is set, and it is `id` itself or
      names a category whose walk up meets `id`. */
  ghost predicate CheckFires(cats: seq<Category>, id: string, p: Option<string>)
  {
    p.Some? && p.value != ""
    && (id == p.value || (FindById(cats, p.value).Some? && Meets(cats, id, FindById(cats, p.value).value)))
  }

  lemma MeetsUnfold(cats: seq<Category>, id: string, c: Category)
    ensures Meets(cats, id, c) <==>
      c.id == id || (ParentOf(cats, c).Some? && Meets(cats, id, ParentOf(cats, c).value))
  {
    if Meets(cats, id, c) && c.id != id {
      var n: nat :| MeetsWithin(cats, id, c, n);
      assert MeetsWithin(cats, id, ParentOf(cats, c).value, n - 1);
    }
    if c.id == id {
      assert MeetsWithin(cats, id, c, 1);
    } else if ParentOf(cats, c).Some? && Meets(cats, id, ParentOf(cats, c).value) {
      var n: nat :| MeetsWithin(cats, id, ParentOf(cats, c).value, n);
      assert MeetsWithin(cats, id, c, n + 1);
    }
  }

  /** A walk that ends also stops, whatever `id` is. */
  lemma {:induction false} EndsWithinStops(cats: seq<Category>, id: string, c: Category, n: nat)
    requires EndsWithin(cats, c, n)
    ensures StopsWithin(cats, id, c, n)
    decreases n
  {
    if ParentOf(cats, c).Some? {
      EndsWithinStops(cats, id, ParentOf(cats, c).value, n - 1);
    }
  }

  /** On a walk that ends, meeting `id` is being `id` or having it among the ancestors. */
  lemma {:induction false} MeetsIsAncestor(cats: seq<Category>, id: string, c: Category, n: nat)
    requires EndsWithin(cats, c, n)
    ensures Grounded(cats, c)
    ensures Meets(cats, id, c) <==> AncestorOrSelfId(cats, id, c)
    decreases n
  {
    AncestorStep(cats, id, c);
    MeetsUnfold(cats, id, c);
    if ParentOf(cats, c).Some? {
      MeetsIsAncestor(cats, id, ParentOf(cats, c).value, n - 1);
    }
  }

  /** When the walk from `p` ends, the loop stops and the check is the cycle test the
      hierarchy's invariant is proved against. */
  lemma CheckAgreesWhenWalkEnds(cats: seq<Category>, id: string, p: Option<string>)
    requires p.Some? ==> WalkEnds(cats, p.value)
    ensures p.Some? ==> CheckStops(cats, id, p.value)
    ensures CheckFires(cats, id, p) <==> WouldCycle(cats, id, p)
  {
    if p.Some? && FindById(cats, p.value).Some? {
      var n: nat :| EndsWithin(cats, FindById(cats, p.value).value, n);
      EndsWithinStops(cats, id, FindById(cats, p.value).value, n);
      MeetsIsAncestor(cats, id, FindById(cats, p.value).value, n);
    }
  }

  /** Two categories naming each other as parent: moving one under the other stops the
      check's loop at once and is refused, while for any id off the cycle the loop never
      stops. */
  lemma TwoCycleCheck(x: Category, y: Category, id: string)
    requires x.id != "" && y.id != "" && x.id != y.id
    requires x.parentId == Some(y.id) && y.parentId == Some(x.id)
    ensures CheckStops([x, y], x.id, y.id) && CheckFires([x, y], x.id, Some(y.id))
    ensures id != x.id && id != y.id ==> !CheckStops([x, y], id, y.id)
  {
    var r := [x, y];
    FindOwnId(r, x);
    FindOwnId(r, y);
    assert ParentOf(r, y) == Some(x) && ParentOf(r, x) == Some(y);
    assert StopsWithin(r, x.id, y, 2);
    assert MeetsWithin(r, x.id, y, 2);
    if id != x.id && id != y.id {
      forall n: nat ensures !StopsWithin(r, id, y, n) {
        TwoCycleNeverStops(r, id, x, y, n);
      }
    }
  }

  lemma {:induction false} TwoCycleNeverStops(cats: seq<Category>, id: string, x: Category, y: Category, n: nat)
    requires ParentOf(cats, x) == Some(y) && ParentOf(cats, y) == Some(x)
    requires id != x.id && id != y.id
    ensures !StopsWithin(cats, id, x, n) && !StopsWithin(cats, id, y, n)
    decreases n
  {
    if n > 0 {
      TwoCycleNeverStops(cats, id, y, x, n - 1);
    }
  }

  class CategoryStore {
    var categories: seq<Category>

    constructor()
      ensures categories == []
    {
      categories := [];
    }

    /** `initializeCategories`. */
    method InitializeCategories(cats: seq<Category>)
      modifies this
      ensures categories == cats
    {
      categories := cats;
    }

    /** `createCategory(data)`; the generated id and the clock are parameters. */
    method CreateCategory(d: CategoryData, id: string, now: int) returns (r: string)
      modifies this
      ensures r == id
      ensures categories == old(categories) + [NewCategory(d, id, now)]
    {
      categories := categories + [NewCategory(d, id, now)];
      r := id;
    }

    /** `updateCategory(id, updates)`; no cycle check is made here. */
    method UpdateCategory(id: string, u: CategoryPatch, now: int)
      modifies this
      ensures categories == Updated(old(categories), id, u, now)
    {
      categories := Updated(categories, id, u, now);
    }

    /** `deleteCategory(id)`. */
    method DeleteCategory(id: string)
      modifies this
      ensures categories == Deleted(old(categories), id)
    {
      categories := Deleted(categories, id);
    }

    /** `getCategoryPath(id)`: from the topmost reachable ancestor down to the category,
        built by walking up and prepending. */
    method GetCategoryPath(id: string) returns (path: seq<Category>)
      requires WalkEnds(categories, id)
      ensures FindById(categories, id).None? ==> path == []
      ensures FindById(categories, id).Some? ==>
        path == Seqs.Reverse(Lineage(categories, FindById(categories, id).value))
    {
      var cur := FindById(categories, id);
      ghost var full := if cur.Some? then Lineage(categories, cur.value) else [];
      path := [];
      while cur.Some?
        invariant cur.None? ==> Seqs.Reverse(path) == full
        invariant cur.Some? ==> Grounded(categories, cur.value)
                                && Seqs.Reverse(path) + Lineage(categories, cur.value) == full
        decreases if cur.Some? then |Lineage(categories, cur.value)| else 0
      {
        var c := cur.value;
        PathStep(categories, c, path, full);
        path := [c] + path;
        cur := ParentOf(categories, c);
      }
      Seqs.ReverseReverse(path);
    }

    /** `hasCircularDependency(id, p)`. The loop ends whenever the walk from `p` reaches a
        root or meets `id`, on a cycle through `id` included. */
    method HasCircularDependency(id: string, p: Option<string>) returns (r: bool)
      requires p.None? || p.value == "" || p.value == id || CheckStops(categories, id, p.value)
      ensures r == CheckFires(categories, id, p)
      ensures (p.Some? ==> WalkEnds(categories, p.value)) ==> r == WouldCycle(categories, id, p)
    {
      if p.Some? ==> WalkEnds(categories, p.value) {
        CheckAgreesWhenWalkEnds(categories, id, p);
      }
      if p.None? || p.value == "" {
        return false;
      }
      if id == p.value {
        return true;
      }
      var cur := FindById(categories, p.value);
      ghost var start := cur;
      ghost var n: nat := 0;
      if cur.Some? {
        n :| StopsWithin(categories, id, cur.value, n);
      }
      while cur.Some?
        invariant cur.Some? ==>
          && start.Some? && StopsWithin(categories, id, cur.value, n)
          && (Meets(categories, id, start.value) <==> Meets(categories, id, cur.value))
        invariant cur.None? && start.Some? ==> !Meets(categories, id, start.value)
        decreases n
      {
        var c := cur.value;
        MeetsUnfold(categories, id, c);
        if c.id == id {
          return true;
        }
        cur := ParentOf(categories, c);
        n := n - 1;
      }
      return false;
    }

    /** `moveCategoryToParent(id, p)`: refused when the cycle check fires; otherwise the
        category (if any) gets the new parent and a new `updatedAt`. */
    method MoveCategoryToParent(id: string, p: Option<string>, now: int) returns (moved: bool)
      requires p.None? || p.value == "" || p.value == id || CheckStops(categories, id, p.value)
      modifies this
      ensures moved == !CheckFires(old(categories), id, p)
      ensures moved ==> categories == Updated(old(categories), id, ParentPatch(p), now)
      ensures !moved ==> categories == old(categories)
      ensures Valid(old(categories)) ==> Valid(categories)
    {
      if Valid(categories) && p.Some? {
        AcyclicWalkEnds(categories, p.value);
      }
      var cycle := HasCircularDependency(id, p);
      if cycle {
        return false;
      }
      if Valid(categories) {
        UpdatePreservesValid(categories, id, ParentPatch(p), now);
      }
      categories := Updated(categories, id, ParentPatch(p), now);
      return true;
    }

    /** `reorderCategories(ids)`. */
    method ReorderCategories(ids: seq<string>)
      modifies this
      ensures categories == Reordered(old(categories), ids)
    {
      categories := Reordered(categories, ids);
    }

    /** `reorderWithinParent(id, newOrder)`. */
    method ReorderWithinParent(id: string, newOrder: int)
      modifies this
      ensures categories == ReorderedWithinParent(old(categories), id, newOrder)
    {
      categories := ReorderedWithinParent(categories, id, newOrder);
    }

    /** `updateArticleCount(id, count)`. */
    method UpdateArticleCount(id: string, count: int)
      modifies this
      ensures categories == WithArticleCount(old(categories), id, count)
    {
      categories := WithArticleCount(categories, id, count);
    }
  }

  /** One step of the walk in `getCategoryPath`: prepending the current category and
      moving to its parent keeps the reversed path followed by the rest of the walk. */
  lemma PathStep(cats: seq<Category>, c: Category, path: seq<Category>, full: seq<Category>)
    requires Grounded(cats, c) && Seqs.Reverse(path) + Lineage(cats, c) == full
    ensures ParentOf(cats, c).None? ==> Seqs.Reverse([c] + path) == full
    ensures ParentOf(cats, c).Some? ==>
      && Grounded(cats, ParentOf(cats, c).value)
      && Seqs.Reverse([c] + path) + Lineage(cats, ParentOf(cats, c).value) == full
      && |Lineage(cats, ParentOf(cats, c).value)| < |Lineage(cats, c)|
  {
    LineageUnfold(cats, c);
    Seqs.ReverseCons(c, path);
    if ParentOf(cats, c).Some? {
      var rest := Lineage(cats, ParentOf(cats, c).value);
      assert Seqs.Reverse(path) + ([c] + rest) == (Seqs.Reverse(path) + [c]) + rest;
    }
  }

  /** The breadcrumb: it ends with the category, starts with a category without a
      (findable) parent, and each entry is the parent of the next. */
  lemma PathLinks(cats: seq<Category>, c: Category)
    requires Grounded(cats, c)
    ensures var path := Seqs.Reverse(Lineage(cats, c));
      && |path| >= 1 && path[|path| - 1] == c
      && ParentOf(cats, path[0]).None?
      && forall i :: 0 <= i < |path| - 1 ==> ParentOf(cats, path[i + 1]) == Some(path[i])
  {
    LineageLinks(cats, c);
    var l := Lineage(cats, c);
    var path := Seqs.Reverse(l);
    forall i | 0 <= i < |path| - 1 ensures ParentOf(cats, path[i + 1]) == Some(path[i]) {
      assert path[i + 1] == l[|l| - 2 - i] && path[i] == l[|l| - 1 - i];
    }
  }
}
