/** What the actions of the category store (lib/stores/categoryStore.ts) make of the
    category list, which each action replaces wholesale as Zustand's `set` does: the
    payloads, the list after create, update and delete, what those keep of the hierarchy,
    and the children lists and tree built from it. */
module CategoryEdits {

  import opened Wrappers
  import opened Types
  import Seqs
  import Text
  import opened CategoryHierarchy

  // ---------------------------------------------------------------------
  // Payloads
  // ---------------------------------------------------------------------

  /** `Omit<Category, 'id' | 'createdAt' | 'updatedAt'>`: what `createCategory` receives. */
  datatype CategoryData = CategoryData(
    name: BilingualText,
    slug: string,
    color: string,
    parentId: Option<string>,
    description: Option<BilingualText>,
    icon: Option<string>,
    order: int,
    isActive: bool,
    isSpecial: bool,
    specialPageRoute: Option<string>,
    createdBy: Option<string>)

  /** `Partial<Category>`: the keys an update carries. A key present with the value
      `undefined` or `null` is `Some(None)`; an absent key is `None`. */
  datatype CategoryPatch = CategoryPatch(
    id: Option<string>,
    name: Option<BilingualText>,
    slug: Option<string>,
    color: Option<string>,
    parentId: Option<Option<string>>,
    description: Option<Option<BilingualText>>,
    icon: Option<Option<string>>,
    order: Option<int>,
    isActive: Option<bool>,
    isSpecial: Option<bool>,
    specialPageRoute: Option<Option<string>>,
    createdAt: Option<int>,
    createdBy: Option<Option<string>>)

  function Or<T>(o: Option<T>, d: T): T
  {
    if o.Some? then o.value else d
  }

  const NoChange := CategoryPatch(None, None, None, None, None, None, None, None, None, None, None, None, None)

  /** The patch `{ parentId: newParentId }` that `moveCategoryToParent` applies. */
  function ParentPatch(p: Option<string>): CategoryPatch
  {
    NoChange.(parentId := Some(p))
  }

  /** The patch `{ isActive: b }` of the categories page's active toggle. */
  function ActivePatch(b: bool): CategoryPatch
  {
    NoChange.(isActive := Some(b))
  }

  /** A form payload used as an update: every key of `CategoryData` is present. */
  function DataPatch(d: CategoryData): CategoryPatch
  {
    CategoryPatch(None, Some(d.name), Some(d.slug), Some(d.color), Some(d.parentId),
      Some(d.description), Some(d.icon), Some(d.order), Some(d.isActive), Some(d.isSpecial),
      Some(d.specialPageRoute), None, Some(d.createdBy))
  }

  /** `{ ...cat, ...updates, updatedAt: now }`. */
  function Merge(c: Category, u: CategoryPatch, now: int): (r: Category)
    ensures r.updatedAt == now && r.articleCount == c.articleCount
    ensures u.id.None? ==> r.id == c.id
    ensures u.parentId.None? ==> r.parentId == c.parentId
    ensures u.parentId.Some? ==> r.parentId == u.parentId.value
  {
    Category(
      Or(u.id, c.id), Or(u.name, c.name), Or(u.slug, c.slug), Or(u.color, c.color),
      Or(u.parentId, c.parentId), Or(u.description, c.description), Or(u.icon, c.icon),
      Or(u.order, c.order), Or(u.isActive, c.isActive), Or(u.isSpecial, c.isSpecial),
      Or(u.specialPageRoute, c.specialPageRoute), Or(u.createdAt, c.createdAt), now,
      Or(u.createdBy, c.createdBy), c.articleCount)
  }

  /** The record `createCategory` appends: the payload with the generated id and both
      timestamps set to the same moment. */
  function NewCategory(d: CategoryData, id: string, now: int): (r: Category)
    ensures r.id == id && r.createdAt == now && r.updatedAt == now
    ensures r.parentId == d.parentId && r.slug == d.slug && r.order == d.order
  {
    Category(id, d.name, d.slug, d.color, d.parentId, d.description, d.icon, d.order,
      d.isActive, d.isSpecial, d.specialPageRoute, now, now, d.createdBy, None)
  }

  // ---------------------------------------------------------------------
  // The new list after each action
  // ---------------------------------------------------------------------

  function Touch(c: Category, id: string, u: CategoryPatch, now: int): Category
  {
    if c.id == id then Merge(c, u, now) else c
  }

  /** `updateCategory(id, u)`: every record with that id gets the patch and a new
      `updatedAt`; every other record stays as it was, in place. */
  function Updated(cats: seq<Category>, id: string, u: CategoryPatch, now: int): (r: seq<Category>)
    ensures |r| == |cats|
    ensures forall i :: 0 <= i < |cats| ==> r[i] == Touch(cats[i], id, u, now)
  {
    seq(|cats|, i requires 0 <= i < |cats| => Touch(cats[i], id, u, now))
  }

  /** `c.parentId === id ? { ...c, parentId: newParent } : c`. */
  function Adopt(c: Category, id: string, newParent: Option<string>): Category
  {
    if c.parentId == Some(id) then c.(parentId := newParent) else c
  }

  function Reparent(cats: seq<Category>, id: string, newParent: Option<string>): (r: seq<Category>)
    ensures |r| == |cats| && Ids(r) == Ids(cats)
    ensures forall i :: 0 <= i < |cats| ==> r[i] == Adopt(cats[i], id, newParent)
  {
    seq(|cats|, i requires 0 <= i < |cats| => Adopt(cats[i], id, newParent))
  }

  function OtherThan(id: string): Category -> bool
  {
    (c: Category) => c.id != id
  }

  /** `deleteCategory(id)`: nothing when no record has that id; otherwise every record
      with that id goes, and the deleted record's children move up to its parent. */
  function Deleted(cats: seq<Category>, id: string): seq<Category>
  {
    match FindById(cats, id)
    case None => cats
    case Some(d) => Reparent(Seqs.Filter(cats, OtherThan(id)), id, d.parentId)
  }

  // ---------------------------------------------------------------------
  // What the edits do to the list
  // ---------------------------------------------------------------------

  /** An update leaves the ids in place when the patch does not change the id. */
  lemma UpdatedIds(cats: seq<Category>, id: string, u: CategoryPatch, now: int)
    requires u.id.None? || u.id == Some(id)
    ensures Ids(Updated(cats, id, u, now)) == Ids(cats)
  {
  }

  /** `updateCategory` with an unknown id changes nothing. */
  lemma UpdateUnknownIsNoOp(cats: seq<Category>, id: string, u: CategoryPatch, now: int)
    requires forall c :: c in cats ==> c.id != id
    ensures Updated(cats, id, u, now) == cats
  {
    assert forall i :: 0 <= i < |cats| ==> cats[i] in cats;
  }

  /** `deleteCategory` of an unknown id changes nothing; otherwise the ids left are the
      old ones without `id`, in the old order. When the deleted record is not its own
      parent, no record still names `id` as parent; when it is, its children are handed
      `id` again, so the delete only removes the record. */
  lemma DeletedShape(cats: seq<Category>, id: string)
    ensures FindById(cats, id).None? ==> Deleted(cats, id) == cats
    ensures FindById(cats, id).Some? ==>
      && Ids(Deleted(cats, id)) == Ids(Seqs.Filter(cats, OtherThan(id)))
      && Seqs.IsSubseq(Seqs.Filter(cats, OtherThan(id)), cats)
      && (forall c :: c in Deleted(cats, id) ==> c.id != id)
    ensures FindById(cats, id).Some? && FindById(cats, id).value.parentId != Some(id) ==>
      forall c :: c in Deleted(cats, id) ==> c.parentId != Some(id)
    ensures FindById(cats, id).Some? && FindById(cats, id).value.parentId == Some(id) ==>
      Deleted(cats, id) == Seqs.Filter(cats, OtherThan(id))
  {
    if FindById(cats, id).Some? {
      var d := FindById(cats, id).value;
      var s := Seqs.Filter(cats, OtherThan(id));
      var r := Reparent(s, id, d.parentId);
      forall c | c in r ensures c.id != id && (d.parentId != Some(id) ==> c.parentId != Some(id)) {
        var i :| 0 <= i < |r| && r[i] == c;
        assert s[i] in s && OtherThan(id)(s[i]);
      }
      if d.parentId == Some(id) {
        assert r == s;
      }
    }
  }

  /** Looking a record up after an update finds the updated version of what it found before. */
  lemma FindAfterUpdate(cats: seq<Category>, id: string, u: CategoryPatch, now: int, y: string)
    requires u.id.None? || u.id == Some(id)
    ensures FindById(Updated(cats, id, u, now), y) ==
      match FindById(cats, y) case None => None case Some(c) => Some(Touch(c, id, u, now))
  {
    UpdatedIds(cats, id, u, now);
    SameIdsSameFind(cats, Updated(cats, id, u, now), y);
  }

  /** Where a record's parent now points: the patched parent for the patched record, the
      updated version of the old parent for every other record. */
  function NewParentBase(cats: seq<Category>, c: Category, id: string, u: CategoryPatch): Option<Category>
  {
    if c.id == id && u.parentId.Some? then
      (if u.parentId.value.Some? && u.parentId.value.value != "" then FindById(cats, u.parentId.value.value) else None)
    else ParentOf(cats, c)
  }

  lemma ParentAfterUpdate(cats: seq<Category>, c: Category, id: string, u: CategoryPatch, now: int)
    requires u.id.None? || u.id == Some(id)
    ensures ParentOf(Updated(cats, id, u, now), Touch(c, id, u, now)) ==
      match NewParentBase(cats, c, id, u) case None => None case Some(p) => Some(Touch(p, id, u, now))
  {
    var t := Touch(c, id, u, now);
    if t.parentId.Some? && t.parentId.value != "" {
      FindAfterUpdate(cats, id, u, now, t.parentId.value);
    }
  }

  /** A walk that never meets `id` is not affected by updating `id`. */
  lemma {:induction false} UpdateKeepsWalk(cats: seq<Category>, c: Category, n: nat, id: string, u: CategoryPatch, now: int)
    requires u.id.None? || u.id == Some(id)
    requires EndsWithin(cats, c, n)
    requires forall a :: a in Chain(cats, c, n) ==> a.id != id
    ensures EndsWithin(Updated(cats, id, u, now), c, n)
    decreases n
  {
    ParentAfterUpdate(cats, c, id, u, now);
    assert c in Chain(cats, c, n);
    match ParentOf(cats, c)
    case None =>
    case Some(p) =>
      assert Chain(cats, c, n) == [c] + Chain(cats, p, n - 1);
      UpdateKeepsWalk(cats, p, n - 1, id, u, now);
  }

  /** The cycle check of `hasCircularDependency(id, p)`: `p` is set, and it is `id` itself
      or a category whose walk up meets `id`. */
  ghost predicate WouldCycle(cats: seq<Category>, id: string, p: Option<string>)
  {
    p.Some? && p.value != ""
    && (id == p.value
        || (FindById(cats, p.value).Some?
            && Grounded(cats, FindById(cats, p.value).value)
            && AncestorOrSelfId(cats, id, FindById(cats, p.value).value)))
  }

  /** The updated record's new walk ends, given that its new parent's walk does not meet it. */
  lemma UpdatedRecordEnds(cats: seq<Category>, x: Category, id: string, u: CategoryPatch, now: int)
      returns (m: nat)
    requires Acyclic(cats) && x in cats && x.id == id
    requires u.id.None? || u.id == Some(id)
    requires u.parentId.Some? && !WouldCycle(cats, id, u.parentId.value)
    ensures EndsWithin(Updated(cats, id, u, now), Touch(x, id, u, now), m)
  {
    ParentAfterUpdate(cats, x, id, u, now);
    var base := NewParentBase(cats, x, id, u);
    if base.None? {
      m := 1;
    } else {
      var q := base.value;
      var n: nat :| EndsWithin(cats, q, n);
      LineageIsChain(cats, q, n);
      UpdateKeepsWalk(cats, q, n, id, u, now);
      assert q in Chain(cats, q, n);
      m := n + 1;
    }
  }

  lemma {:induction false} UpdateWalkEnds(cats: seq<Category>, c: Category, n: nat, id: string, u: CategoryPatch, now: int)
      returns (m: nat)
    requires Acyclic(cats) && c in cats && EndsWithin(cats, c, n)
    requires u.id.None? || u.id == Some(id)
    requires u.parentId.None? || !WouldCycle(cats, id, u.parentId.value)
    ensures EndsWithin(Updated(cats, id, u, now), Touch(c, id, u, now), m)
    decreases n
  {
    ParentAfterUpdate(cats, c, id, u, now);
    if c.id == id && u.parentId.Some? {
      m := UpdatedRecordEnds(cats, c, id, u, now);
    } else {
      match ParentOf(cats, c)
      case None => m := 1;
      case Some(p) =>
        var k := UpdateWalkEnds(cats, p, n - 1, id, u, now);
        m := k + 1;
    }
  }

  /** An update that keeps the id and whose new parent passes the cycle check keeps the
      hierarchy acyclic. */
  lemma UpdatePreservesAcyclic(cats: seq<Category>, id: string, u: CategoryPatch, now: int)
    requires Acyclic(cats)
    requires u.id.None? || u.id == Some(id)
    requires u.parentId.None? || !WouldCycle(cats, id, u.parentId.value)
    ensures Acyclic(Updated(cats, id, u, now))
  {
    var r := Updated(cats, id, u, now);
    forall c | c in r ensures Grounded(r, c) {
      var i :| 0 <= i < |r| && r[i] == c;
      assert cats[i] in cats;
      var n: nat :| EndsWithin(cats, cats[i], n);
      var m := UpdateWalkEnds(cats, cats[i], n, id, u, now);
    }
  }

  /** The store invariant survives such an update. */
  lemma UpdatePreservesValid(cats: seq<Category>, id: string, u: CategoryPatch, now: int)
    requires Valid(cats)
    requires u.id.None? || u.id == Some(id)
    requires u.parentId.None? || !WouldCycle(cats, id, u.parentId.value)
    ensures Valid(Updated(cats, id, u, now))
  {
    UpdatePreservesAcyclic(cats, id, u, now);
    var r := Updated(cats, id, u, now);
    UpdatedIds(cats, id, u, now);
    assert forall i :: 0 <= i < |r| ==> r[i].id == Ids(r)[i] == Ids(cats)[i] == cats[i].id;
    forall c | c in r ensures c.id != "" {
      var i :| 0 <= i < |r| && r[i] == c;
      assert cats[i] in cats;
    }
  }

  // ----- deletion -----

  lemma {:induction false} FindInFiltered(cats: seq<Category>, id: string, y: string)
    requires y != id
    ensures FindById(Seqs.Filter(cats, OtherThan(id)), y) == FindById(cats, y)
  {
    if cats != [] {
      FindByIdCons(cats, y);
      FindInFiltered(cats[1..], id, y);
      var rest := Seqs.Filter(cats[1..], OtherThan(id));
      if OtherThan(id)(cats[0]) {
        FindByIdCons([cats[0]] + rest, y);
        assert ([cats[0]] + rest)[1..] == rest;
      }
    }
  }

  lemma FindAfterDelete(cats: seq<Category>, d: Category, id: string, y: string)
    requires FindById(cats, id) == Some(d) && y != id
    ensures FindById(Deleted(cats, id), y) ==
      match FindById(cats, y) case None => None case Some(c) => Some(Adopt(c, id, d.parentId))
  {
    var s := Seqs.Filter(cats, OtherThan(id));
    FindInFiltered(cats, id, y);
    SameIdsSameFind(s, Reparent(s, id, d.parentId), y);
  }

  /** A category whose walk ends is not its own parent. */
  lemma {:induction false} NotOwnParent(cats: seq<Category>, d: Category, n: nat)
    requires EndsWithin(cats, d, n)
    ensures ParentOf(cats, d) != Some(d)
    decreases n
  {
    if ParentOf(cats, d) == Some(d) {
      NotOwnParent(cats, d, n - 1);
    }
  }

  function AdoptOpt(o: Option<Category>, id: string, np: Option<string>): Option<Category>
  {
    match o case None => None case Some(c) => Some(Adopt(c, id, np))
  }

  /** After the deletion, a record that did not hang below `id` keeps its (adopted) parent. */
  lemma ParentAfterDelete(cats: seq<Category>, d: Category, id: string, c: Category)
    requires FindById(cats, id) == Some(d) && c.parentId != Some(id)
    ensures ParentOf(Deleted(cats, id), Adopt(c, id, d.parentId)) == AdoptOpt(ParentOf(cats, c), id, d.parentId)
  {
    if c.parentId.Some? && c.parentId.value != "" {
      FindAfterDelete(cats, d, id, c.parentId.value);
    }
  }

  /** After the deletion, a child of the deleted record hangs below the deleted record's parent. */
  lemma ParentOfOrphan(cats: seq<Category>, d: Category, id: string, c: Category)
    requires FindById(cats, id) == Some(d) && c.parentId == Some(id) && d.parentId != Some(id)
    ensures ParentOf(Deleted(cats, id), Adopt(c, id, d.parentId)) == AdoptOpt(ParentOf(cats, d), id, d.parentId)
  {
    if d.parentId.Some? && d.parentId.value != "" {
      FindAfterDelete(cats, d, id, d.parentId.value);
    }
  }

  lemma {:induction false} DeleteWalkEnds(cats: seq<Category>, d: Category, id: string, c: Category, n: nat)
      returns (m: nat)
    requires id != "" && FindById(cats, id) == Some(d)
    requires c.id != id && EndsWithin(cats, c, n)
    ensures EndsWithin(Deleted(cats, id), Adopt(c, id, d.parentId), m)
    decreases n
  {
    var start := c;
    var k := n;
    if c.parentId == Some(id) {
      assert ParentOf(cats, c) == Some(d);
      NotOwnParent(cats, d, n - 1);
      ParentOfOrphan(cats, d, id, c);
      start := d;
      k := n - 1;
    } else {
      ParentAfterDelete(cats, d, id, c);
    }
    match ParentOf(cats, start)
    case None => m := 1;
    case Some(p) =>
      var j := DeleteWalkEnds(cats, d, id, p, k - 1);
      m := j + 1;
  }

  /** Deleting a category (and moving its children up to its parent) keeps the hierarchy
      acyclic. */
  lemma DeletePreservesAcyclic(cats: seq<Category>, id: string)
    requires Acyclic(cats) && id != ""
    ensures Acyclic(Deleted(cats, id))
  {
    if FindById(cats, id).Some? {
      var d := FindById(cats, id).value;
      var s := Seqs.Filter(cats, OtherThan(id));
      var r := Deleted(cats, id);
      forall c | c in r ensures Grounded(r, c) {
        var i :| 0 <= i < |r| && r[i] == c;
        assert s[i] in s;
        var n: nat :| EndsWithin(cats, s[i], n);
        var m := DeleteWalkEnds(cats, d, id, s[i], n);
      }
    }
  }

  /** `deleteCategory` keeps the store invariant. */
  lemma DeletePreservesValid(cats: seq<Category>, id: string)
    requires Valid(cats) && id != ""
    ensures Valid(Deleted(cats, id))
  {
    DeletePreservesAcyclic(cats, id);
    if FindById(cats, id).Some? {
      var d := FindById(cats, id).value;
      var s := Seqs.Filter(cats, OtherThan(id));
      var r := Deleted(cats, id);
      FilterUnique(cats, OtherThan(id));
      assert forall i :: 0 <= i < |r| ==> r[i].id == Ids(r)[i] == Ids(s)[i] == s[i].id;
      forall c | c in r ensures c.id != "" {
        var i :| 0 <= i < |r| && r[i] == c;
        assert s[i] in s;
      }
    }
  }

  // ----- creation -----

  lemma FindAfterAppend(cats: seq<Category>, x: Category, y: string)
    requires y != x.id
    ensures FindById(cats + [x], y) == FindById(cats, y)
  {
    var i := Seqs.IndexOf(Ids(cats), y);
    assert Ids(cats + [x]) == Ids(cats) + [x.id];
    var j := Seqs.IndexOf(Ids(cats + [x]), y);
    if i >= 0 {
      Seqs.IndexOfAppend(Ids(cats), [x.id], y);
    } else {
      assert y !in Ids(cats + [x]);
    }
  }

  lemma {:induction false} AppendKeepsWalk(cats: seq<Category>, x: Category, c: Category, n: nat)
    requires forall a :: a in cats ==> a.parentId != Some(x.id)
    requires c in cats && EndsWithin(cats, c, n)
    ensures EndsWithin(cats + [x], c, n)
    decreases n
  {
    if c.parentId.Some? && c.parentId.value != "" {
      FindAfterAppend(cats, x, c.parentId.value);
    }
    match ParentOf(cats, c)
    case None =>
    case Some(p) => AppendKeepsWalk(cats, x, p, n - 1);
  }

  /** `createCategory` keeps the store invariant, given that the generated id is fresh:
      no listed category has it and nothing, including the payload, names it as parent. */
  lemma CreatePreservesValid(cats: seq<Category>, d: CategoryData, id: string, now: int)
    requires Valid(cats)
    requires id != "" && forall c :: c in cats ==> c.id != id && c.parentId != Some(id)
    requires d.parentId != Some(id)
    ensures Valid(cats + [NewCategory(d, id, now)])
  {
    var x := NewCategory(d, id, now);
    var r := cats + [x];
    forall c | c in r ensures Grounded(r, c) {
      if c in cats {
        var n: nat :| EndsWithin(cats, c, n);
        AppendKeepsWalk(cats, x, c, n);
      } else {
        assert c == x;
        if x.parentId.Some? && x.parentId.value != "" {
          FindAfterAppend(cats, x, x.parentId.value);
        }
        match ParentOf(cats, x)
        case None => assert EndsWithin(r, x, 1);
        case Some(p) =>
          var n: nat :| EndsWithin(cats, p, n);
          AppendKeepsWalk(cats, x, p, n);
          assert EndsWithin(r, x, n + 1);
      }
    }
    forall i, j | 0 <= i < j < |r| ensures r[i].id != r[j].id {
      if j == |cats| { assert r[i] in cats; }
    }
  }

  // ---------------------------------------------------------------------
  // Children, roots and the tree (getRootCategories, getChildCategories,
  // getCategoryTree)
  // ---------------------------------------------------------------------

  function ChildOf(p: Option<string>): Category -> bool
  {
    (c: Category) => c.parentId == p
  }

  /** The comparator `(a, b) => a.order - b.order`. */
  function ByOrder(): (Category, Category) -> bool
  {
    Seqs.ByKeyAsc((c: Category) => c.order)
  }

  /** `getChildCategories(p)`: the categories whose `parentId` is exactly `p`, stably
      sorted by `order`; `getRootCategories()` is the case `p = null`. */
  function ChildCategories(cats: seq<Category>, p: Option<string>): seq<Category>
  {
    Seqs.SortBy(Seqs.Filter(cats, ChildOf(p)), ByOrder())
  }

  /** The children list holds exactly the listed categories below `p`, each as often as
      in the list, ordered by `order`, with equal orders in list order. */
  lemma ChildCategoriesSpec(cats: seq<Category>, p: Option<string>)
    ensures multiset(ChildCategories(cats, p)) == multiset(Seqs.Filter(cats, ChildOf(p)))
    ensures forall c :: c in ChildCategories(cats, p) <==> c in cats && c.parentId == p
    ensures Seqs.SortedBy(ChildCategories(cats, p), ByOrder())
    ensures forall k :: Seqs.EquivRun(ChildCategories(cats, p), ByOrder(), k)
                     == Seqs.EquivRun(Seqs.Filter(cats, ChildOf(p)), ByOrder(), k)
  {
    var f := Seqs.Filter(cats, ChildOf(p));
    Seqs.SortPerm(f, ByOrder());
    Seqs.KeyOrdersAreTotal((c: Category) => c.order);
    Seqs.SortSorted(f, ByOrder());
    forall k ensures Seqs.EquivRun(ChildCategories(cats, p), ByOrder(), k) == Seqs.EquivRun(f, ByOrder(), k) {
      Seqs.SortStable(f, ByOrder(), k);
    }
    forall c ensures c in ChildCategories(cats, p) <==> c in f {
      assert c in ChildCategories(cats, p) <==> c in multiset(ChildCategories(cats, p));
    }
  }

  /** A node of `getCategoryTree`: the category and its sub-tree. */
  datatype CategoryTree = CategoryTree(category: Category, children: seq<CategoryTree>)

  /** The categories below `p` in the walk sense: some category on the way up from `c`
      has `parentId` exactly `p`. */
  ghost predicate Descends(cats: seq<Category>, c: Category, p: Option<string>)
  {
    Grounded(cats, c) && exists i :: 0 <= i < |Lineage(cats, c)| && Lineage(cats, c)[i].parentId == p
  }

  function RootMark(p: Option<string>): nat
  {
    if p.None? then 1 else 0
  }

  /** The tree is built below `p` from a point whose walk up ends: the top (`null`), a
      parent id no listed category has, or a category whose walk up ends. The walk from
      `null` only ever reaches such points, even in a list with a cycle. */
  ghost predicate TreeStart(cats: seq<Category>, p: Option<string>)
  {
    p.None? || FindById(cats, p.value).None? || Grounded(cats, FindById(cats, p.value).value)
  }

  /** In a list with no cycle every point is a starting point. */
  lemma ValidTreeStart(cats: seq<Category>, p: Option<string>)
    requires Valid(cats)
    ensures TreeStart(cats, p)
  {
  }

  /** A child of a starting point has a walk up that ends. */
  lemma ChildGrounded(cats: seq<Category>, p: Option<string>, k: Category)
    requires NonEmptyIds(cats) && TreeStart(cats, p) && k.parentId == p
    ensures Grounded(cats, k)
  {
    if ParentOf(cats, k).None? {
      assert EndsWithin(cats, k, 1);
    } else {
      var q := ParentOf(cats, k).value;
      assert FindById(cats, p.value) == Some(q);
      var n: nat :| EndsWithin(cats, q, n);
      assert EndsWithin(cats, k, n + 1);
    }
  }

  /** What is left of the list outside the lineage of the category `p` names: it shrinks
      strictly from a starting point to each of its children, so the recursions below end. */
  ghost function Remaining(cats: seq<Category>, p: Option<string>): set<Category>
  {
    var all := set c | c in cats;
    if p.Some? && FindById(cats, p.value).Some? && Grounded(cats, FindById(cats, p.value).value)
    then all - set a | a in Lineage(cats, FindById(cats, p.value).value)
    else all
  }

  lemma RemainingShrinks(cats: seq<Category>, p: Option<string>, k: Category)
    requires UniqueIds(cats) && NonEmptyIds(cats) && TreeStart(cats, p)
    requires k in cats && k.parentId == p
    ensures TreeStart(cats, Some(k.id))
    ensures p.Some? ==> Remaining(cats, Some(k.id)) < Remaining(cats, p)
  {
    FindOwnId(cats, k);
    ChildGrounded(cats, p, k);
    if p.None? { return; }
    LineageUnfold(cats, k);
    LineageNoReturn(cats, k);
    var all := set c | c in cats;
    var lk := set a | a in Lineage(cats, k);
    assert Remaining(cats, Some(k.id)) == all - lk;
    assert k in all && k in lk;
    if ParentOf(cats, k).Some? {
      var q := ParentOf(cats, k).value;
      var lq := set a | a in Lineage(cats, q);
      assert FindById(cats, p.value) == Some(q);
      assert Remaining(cats, p) == all - lq;
      assert Lineage(cats, k)[1..] == Lineage(cats, q);
      assert k !in lq;
      assert lk == lq + {k};
      assert k in Remaining(cats, p);
    } else {
      assert Lineage(cats, k) == [k];
      assert lk == {k};
      assert Remaining(cats, p) == all;
    }
  }

  /** `buildTree(parentId)` of `getCategoryTree`. */
  function BuildTree(cats: seq<Category>, p: Option<string>): seq<CategoryTree>
    requires UniqueIds(cats) && NonEmptyIds(cats) && TreeStart(cats, p)
    decreases RootMark(p), Remaining(cats, p), 1, 0
  {
    var kids := ChildCategories(cats, p);
    ChildCategoriesSpec(cats, p);
    BuildForest(cats, p, kids)
  }

  /** `kids.map(cat => ({ ...cat, children: buildTree(cat.id) }))`. */
  function BuildForest(cats: seq<Category>, p: Option<string>, kids: seq<Category>): seq<CategoryTree>
    requires UniqueIds(cats) && NonEmptyIds(cats) && TreeStart(cats, p)
    requires forall k :: k in kids ==> k in cats && k.parentId == p
    decreases RootMark(p), Remaining(cats, p), 0, |kids|
  {
    if kids == [] then []
    else
      RemainingShrinks(cats, p, kids[0]);
      [CategoryTree(kids[0], BuildTree(cats, Some(kids[0].id)))] + BuildForest(cats, p, kids[1..])
  }

  /** `getCategoryTree()`: it starts from `null`, so it is defined for every list with
      unique ids, cycles and dangling parents included. */
  function CategoryTreeOf(cats: seq<Category>): seq<CategoryTree>
    requires UniqueIds(cats) && NonEmptyIds(cats)
  {
    BuildTree(cats, None)
  }

  /** `c` is the category of some node of the forest. */
  predicate InForest(f: seq<CategoryTree>, c: Category)
    decreases f
  {
    f != [] && (f[0].category == c || InForest(f[0].children, c) || InForest(f[1..], c))
  }

  lemma DescendsUp(cats: seq<Category>, c: Category, p: Option<string>)
    requires c in cats && Descends(cats, c, p) && c.parentId != p
    ensures exists k :: k in cats && k.parentId == p && Descends(cats, c, Some(k.id))
  {
    var l := Lineage(cats, c);
    LineageLinks(cats, c);
    LineageInList(cats, c);
    var i :| 0 <= i < |l| && l[i].parentId == p;
    assert i != 0;
    assert ParentOf(cats, l[i - 1]) == Some(l[i]);
    assert l[i - 1].parentId == Some(l[i].id);
    assert l[i] in cats;
  }

  lemma DescendsDown(cats: seq<Category>, c: Category, p: Option<string>, k: Category)
    requires UniqueIds(cats) && NonEmptyIds(cats) && c in cats && k in cats && k.parentId == p && Descends(cats, c, Some(k.id))
    ensures Descends(cats, c, p)
  {
    var l := Lineage(cats, c);
    LineageLinks(cats, c);
    var i :| 0 <= i < |l| && l[i].parentId == Some(k.id);
    FindOwnId(cats, k);
    assert ParentOf(cats, l[i]) == Some(k);
    assert i < |l| - 1;
    assert l[i + 1] == k;
  }

  /** One step down: a category is below `p` when its parent field is `p`, or it is below
      some category whose parent field is `p`. */
  lemma DescendsStep(cats: seq<Category>, c: Category, p: Option<string>)
    requires UniqueIds(cats) && NonEmptyIds(cats) && TreeStart(cats, p) && c in cats
    ensures Descends(cats, c, p) <==>
      c.parentId == p || exists k :: k in cats && k.parentId == p && Descends(cats, c, Some(k.id))
  {
    if c.parentId == p {
      ChildGrounded(cats, p, c);
      LineageLinks(cats, c);
      assert Lineage(cats, c)[0].parentId == p;
    } else if Descends(cats, c, p) {
      DescendsUp(cats, c, p);
    } else if exists k :: k in cats && k.parentId == p && Descends(cats, c, Some(k.id)) {
      var k :| k in cats && k.parentId == p && Descends(cats, c, Some(k.id));
      DescendsDown(cats, c, p, k);
    }
  }

  lemma {:induction false} ForestMembers(cats: seq<Category>, p: Option<string>, kids: seq<Category>, c: Category)
    requires UniqueIds(cats) && NonEmptyIds(cats) && TreeStart(cats, p)
    requires forall k :: k in kids ==> k in cats && k.parentId == p
    ensures InForest(BuildForest(cats, p, kids), c) <==>
      exists k :: k in kids && (c == k || (c in cats && Descends(cats, c, Some(k.id))))
    decreases RootMark(p), Remaining(cats, p), 0, |kids|
  {
    if kids != [] {
      RemainingShrinks(cats, p, kids[0]);
      var f := BuildForest(cats, p, kids);
      assert f[0].category == kids[0] && f[0].children == BuildTree(cats, Some(kids[0].id));
      assert f[1..] == BuildForest(cats, p, kids[1..]);
      TreeMembers(cats, Some(kids[0].id), c);
      ForestMembers(cats, p, kids[1..], c);
      assert forall k :: k in kids <==> k == kids[0] || k in kids[1..];
    }
  }

  /** A category is in the sub-tree built below `p` exactly when it is listed and some
      category on its way up has `parentId` exactly `p`. */
  lemma {:induction false} TreeMembers(cats: seq<Category>, p: Option<string>, c: Category)
    requires UniqueIds(cats) && NonEmptyIds(cats) && TreeStart(cats, p)
    ensures InForest(BuildTree(cats, p), c) <==> c in cats && Descends(cats, c, p)
    decreases RootMark(p), Remaining(cats, p), 1, 0
  {
    ChildCategoriesSpec(cats, p);
    ForestMembers(cats, p, ChildCategories(cats, p), c);
    if c in cats {
      DescendsStep(cats, c, p);
    }
  }

  /** `getCategoryTree` shows a category exactly when its walk up ends at a category
      whose `parentId` is null. One whose walk ends at a missing or empty parent id, and
      one on a cycle or below one (its walk never ends), is never shown. */
  lemma TreeShowsRooted(cats: seq<Category>, c: Category)
    requires UniqueIds(cats) && NonEmptyIds(cats) && c in cats
    ensures InForest(CategoryTreeOf(cats), c) <==>
      Grounded(cats, c) && Lineage(cats, c)[|Lineage(cats, c)| - 1].parentId.None?
  {
    TreeMembers(cats, None, c);
    if Grounded(cats, c) {
      var l := Lineage(cats, c);
      LineageLinks(cats, c);
      forall i | 0 <= i < |l| - 1 ensures l[i].parentId.Some? {
        assert ParentOf(cats, l[i]) == Some(l[i + 1]);
      }
    }
  }

  // ---------------------------------------------------------------------
  // updateCategory and cycles
  // ---------------------------------------------------------------------

  /** Two categories each the parent of the other: neither walk up ever ends. */
  lemma {:induction false} TwoCycleNeverEnds(cats: seq<Category>, x: Category, y: Category, n: nat)
    requires ParentOf(cats, x) == Some(y) && ParentOf(cats, y) == Some(x)
    ensures !EndsWithin(cats, x, n) && !EndsWithin(cats, y, n)
    decreases n
  {
    if n > 0 {
      TwoCycleNeverEnds(cats, y, x, n - 1);
    }
  }

  /** A top-level category and one child of it form a valid list. */
  lemma ValidPair(a: Category, b: Category)
    requires a.id != "" && b.id != "" && a.id != b.id
    requires a.parentId.None? && b.parentId == Some(a.id)
    ensures Valid([a, b])
  {
    var cats := [a, b];
    assert UniqueIds(cats) && NonEmptyIds(cats);
    FindOwnId(cats, a);
    assert EndsWithin(cats, a, 1);
    assert ParentOf(cats, b) == Some(a);
    assert EndsWithin(cats, b, 2);
  }

  /** Two categories naming each other as parent: neither is grounded and no tree shows
      them. */
  lemma CyclicPair(x: Category, y: Category)
    requires x.id != "" && y.id != "" && x.id != y.id
    requires x.parentId == Some(y.id) && y.parentId == Some(x.id)
    ensures UniqueIds([x, y]) && NonEmptyIds([x, y])
    ensures forall n :: !EndsWithin([x, y], x, n) && !EndsWithin([x, y], y, n)
    ensures CategoryTreeOf([x, y]) == []
  {
    var r := [x, y];
    assert UniqueIds(r) && NonEmptyIds(r);
    FindOwnId(r, x);
    FindOwnId(r, y);
    assert ParentOf(r, x) == Some(y) && ParentOf(r, y) == Some(x);
    forall n: nat ensures !EndsWithin(r, x, n) && !EndsWithin(r, y, n) {
      TwoCycleNeverEnds(r, x, y, n);
    }
    ChildCategoriesSpec(r, None);
    assert ChildCategories(r, None) == [];
    assert BuildTree(r, None) == BuildForest(r, None, []) == [];
  }

  /** `updateCategory` checks nothing about `parentId`: giving a top-level category its own
      child as parent turns a valid list into one with a cycle. The walk of
      `getCategoryPath` from either category then never ends, nor does the loop of
      `hasCircularDependency` for a category off the cycle, and `getCategoryTree` shows
      neither. */
  lemma UpdateCanCreateCycle(a: Category, b: Category, u: CategoryPatch, now: int)
    requires a.id != "" && b.id != "" && a.id != b.id
    requires a.parentId.None? && b.parentId == Some(a.id)
    requires u.id.None? && u.parentId == Some(Some(b.id))
    ensures Valid([a, b])
    ensures var r := Updated([a, b], a.id, u, now);
      && UniqueIds(r) && NonEmptyIds(r)
      && !Acyclic(r)
      && (forall n :: !EndsWithin(r, r[0], n) && !EndsWithin(r, r[1], n))
      && CategoryTreeOf(r) == []
  {
    ValidPair(a, b);
    var r := Updated([a, b], a.id, u, now);
    assert r == [Merge(a, u, now), b];
    CyclicPair(r[0], r[1]);
    assert !Grounded(r, r[0]);
  }
}
