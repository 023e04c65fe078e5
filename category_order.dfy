/** The ordering actions of the category store (lib/stores/categoryStore.ts):
    `reorderCategories` and `reorderWithinParent`. Both rewrite only `order`. */
module CategoryOrder {

  import opened Wrappers
  import opened Types
  import Seqs
  import opened CategoryHierarchy
  import opened CategoryEdits

  // ---------------------------------------------------------------------
  // reorderCategories
  // ---------------------------------------------------------------------

  function ReorderOne(c: Category, ids: seq<string>): Category
  {
    var k := Seqs.IndexOf(ids, c.id);
    if k >= 0 then c.(order := k) else c
  }

  /** `reorderCategories(ids)`: each category whose id is listed takes the position of
      that id in `ids`; the others are left alone. */
  function Reordered(cats: seq<Category>, ids: seq<string>): (r: seq<Category>)
    ensures |r| == |cats|
  {
    seq(|cats|, i requires 0 <= i < |cats| => ReorderOne(cats[i], ids))
  }

  /** A listed category's new order is the first position of its id in `ids`; an unlisted
      one is unchanged; nothing but `order` ever changes. */
  lemma ReorderedSpec(cats: seq<Category>, ids: seq<string>)
    ensures forall i :: 0 <= i < |cats| ==>
      Reordered(cats, ids)[i] == cats[i].(order := Reordered(cats, ids)[i].order)
    ensures forall i :: 0 <= i < |cats| && cats[i].id in ids ==>
      var k := Reordered(cats, ids)[i].order;
      0 <= k < |ids| && ids[k] == cats[i].id && cats[i].id !in ids[..k]
    ensures forall i :: 0 <= i < |cats| && cats[i].id !in ids ==> Reordered(cats, ids)[i] == cats[i]
  {
  }

  /** Reordering keeps the store invariant. */
  lemma ReorderedValid(cats: seq<Category>, ids: seq<string>)
    requires Valid(cats)
    ensures Valid(Reordered(cats, ids))
  {
    SameShapeValid(cats, Reordered(cats, ids));
  }

  // ---------------------------------------------------------------------
  // reorderWithinParent
  // ---------------------------------------------------------------------

  function SameId(id: string): Category -> bool
  {
    (s: Category) => s.id == id
  }

  /** `c.parentId === category.parentId && c.id !== categoryId`. */
  function SiblingOf(p: Option<string>, id: string): Category -> bool
  {
    (c: Category) => c.parentId == p && c.id != id
  }

  /** The moved category's siblings, stably sorted by `order`. */
  function Siblings(cats: seq<Category>, p: Option<string>, id: string): seq<Category>
  {
    Seqs.SortBy(Seqs.Filter(cats, SiblingOf(p, id)), ByOrder())
  }

  /** `siblingIndex >= 0 ? { ...c, order: siblingIndex } : c`. */
  function Renumber(c: Category, list: seq<Category>): Category
  {
    var j := Seqs.FindIndex(list, SameId(c.id));
    if j >= 0 then c.(order := j) else c
  }

  /** `reorderWithinParent(id, newOrder)`: nothing when the id is unknown; otherwise the
      category is spliced into its sorted siblings at `newOrder`, and every category of
      that list is numbered by its position in it. */
  function ReorderedWithinParent(cats: seq<Category>, id: string, newOrder: int): (r: seq<Category>)
    ensures |r| == |cats|
  {
    match FindById(cats, id)
    case None => cats
    case Some(cat) =>
      var list := Seqs.Splice(Siblings(cats, cat.parentId, id), newOrder, cat);
      seq(|cats|, i requires 0 <= i < |cats| => Renumber(cats[i], list))
  }

  /** Every entry of the list is a listed category of the group, listed once. */
  lemma SpliceListMember(cats: seq<Category>, id: string, newOrder: int, cat: Category, x: Category)
    requires UniqueIds(cats) && FindById(cats, id) == Some(cat)
    requires x in Seqs.Splice(Siblings(cats, cat.parentId, id), newOrder, cat)
    ensures x in cats && x.parentId == cat.parentId
    ensures multiset(Seqs.Splice(Siblings(cats, cat.parentId, id), newOrder, cat))[x] <= 1
  {
    var f := Seqs.Filter(cats, SiblingOf(cat.parentId, id));
    var list := Seqs.Splice(Siblings(cats, cat.parentId, id), newOrder, cat);
    Seqs.SortPerm(f, ByOrder());
    assert multiset(list) == multiset(f) + multiset{cat};
    assert x in multiset(list);
    Seqs.FilterCount(cats, SiblingOf(cat.parentId, id), x);
    UniqueCount(cats, x);
  }

  /** The list the categories are renumbered by has no two entries with the same id. */
  lemma SpliceListUnique(cats: seq<Category>, id: string, newOrder: int, cat: Category)
    requires UniqueIds(cats) && FindById(cats, id) == Some(cat)
    ensures UniqueIds(Seqs.Splice(Siblings(cats, cat.parentId, id), newOrder, cat))
  {
    var list := Seqs.Splice(Siblings(cats, cat.parentId, id), newOrder, cat);
    forall i, j | 0 <= i < j < |list| ensures list[i].id != list[j].id {
      SpliceListMember(cats, id, newOrder, cat, list[i]);
      SpliceListMember(cats, id, newOrder, cat, list[j]);
      Seqs.TwoPositions(list, i, j);
      DistinctIds(cats, list[i], list[j]);
    }
  }

  /** A category of the renumbered list takes its position in it. */
  lemma PositionInList(list: seq<Category>, t: nat)
    requires UniqueIds(list) && t < |list|
    ensures Renumber(list[t], list).order == t
  {
    var j := Seqs.FindIndex(list, SameId(list[t].id));
    assert j >= 0;
    assert !(j < t) && !(t < j);
  }

  /** Where a sibling ends up: at its place among the sorted siblings, one further when it
      comes at or after the insertion point. */
  lemma SiblingPosition(cats: seq<Category>, id: string, newOrder: int, cat: Category, g: Category)
      returns (k: nat)
    requires UniqueIds(cats) && FindById(cats, id) == Some(cat)
    requires g in cats && g.parentId == cat.parentId && g.id != id
    ensures k < |Siblings(cats, cat.parentId, id)| && Siblings(cats, cat.parentId, id)[k] == g
    ensures Renumber(g, Seqs.Splice(Siblings(cats, cat.parentId, id), newOrder, cat)).order
         == if k < Seqs.SpliceIndex(|Siblings(cats, cat.parentId, id)|, newOrder) then k else k + 1
  {
    k := SiblingIndex(cats, id, cat.parentId, g);
    SpliceListUnique(cats, id, newOrder, cat);
    SplicedPosition(Siblings(cats, cat.parentId, id), newOrder, cat, k);
  }

  /** A sibling is among the sorted siblings. */
  lemma SiblingIndex(cats: seq<Category>, id: string, p: Option<string>, g: Category) returns (k: nat)
    requires g in cats && g.parentId == p && g.id != id
    ensures k < |Siblings(cats, p, id)| && Siblings(cats, p, id)[k] == g
  {
    var f := Seqs.Filter(cats, SiblingOf(p, id));
    var sib := Siblings(cats, p, id);
    Seqs.SortPerm(f, ByOrder());
    assert g in multiset(sib);
    k :| 0 <= k < |sib| && sib[k] == g;
  }

  /** After splicing, the entry at `k` is numbered `k`, or `k + 1` from the insertion
      point on. */
  lemma SplicedPosition(sib: seq<Category>, newOrder: int, cat: Category, k: nat)
    requires k < |sib| && UniqueIds(Seqs.Splice(sib, newOrder, cat))
    ensures Renumber(sib[k], Seqs.Splice(sib, newOrder, cat)).order
         == if k < Seqs.SpliceIndex(|sib|, newOrder) then k else k + 1
  {
    var list := Seqs.Splice(sib, newOrder, cat);
    var t := if k < Seqs.SpliceIndex(|sib|, newOrder) then k else k + 1;
    assert list[t] == sib[k];
    PositionInList(list, t);
  }

  /** `reorderWithinParent` with unique ids: only `order` changes, and only among the
      category's siblings; the category lands at the requested (clamped) position; the
      siblings keep their relative order; and the new orders are distinct positions of
      the list. */
  lemma ReorderedWithinParentSpec(cats: seq<Category>, id: string, newOrder: int)
    requires UniqueIds(cats)
    ensures FindById(cats, id).None? ==> ReorderedWithinParent(cats, id, newOrder) == cats
    ensures forall i :: 0 <= i < |cats| ==>
      ReorderedWithinParent(cats, id, newOrder)[i]
        == cats[i].(order := ReorderedWithinParent(cats, id, newOrder)[i].order)
    ensures FindById(cats, id).Some? ==>
      var cat := FindById(cats, id).value;
      var r := ReorderedWithinParent(cats, id, newOrder);
      var n := |Siblings(cats, cat.parentId, id)|;
      && (forall i :: 0 <= i < |cats| && cats[i].parentId != cat.parentId ==> r[i] == cats[i])
      && (forall i :: 0 <= i < |cats| && cats[i].id == id ==> r[i].order == Seqs.SpliceIndex(n, newOrder))
      && (forall i :: 0 <= i < |cats| && cats[i].parentId == cat.parentId ==> 0 <= r[i].order <= n)
      && (forall i, j :: 0 <= i < |cats| && 0 <= j < |cats| && i != j
            && cats[i].parentId == cat.parentId && cats[j].parentId == cat.parentId
            ==> r[i].order != r[j].order)
      && (forall i, j :: 0 <= i < |cats| && 0 <= j < |cats|
            && cats[i].parentId == cat.parentId && cats[j].parentId == cat.parentId
            && cats[i].id != id && cats[j].id != id && cats[i].order < cats[j].order
            ==> r[i].order < r[j].order)
  {
    assert |ReorderedWithinParent(cats, id, newOrder)| == |cats|;
    OnlyOrderChanges(cats, id, newOrder);
    if FindById(cats, id).Some? {
      var cat := FindById(cats, id).value;
      GroupUnchangedOutside(cats, id, newOrder, cat);
      GroupPositions(cats, id, newOrder, cat);
      GroupKeepsOrder(cats, id, newOrder, cat);
    }
  }

  lemma OnlyOrderChanges(cats: seq<Category>, id: string, newOrder: int)
    ensures forall i :: 0 <= i < |cats| ==>
      ReorderedWithinParent(cats, id, newOrder)[i]
        == cats[i].(order := ReorderedWithinParent(cats, id, newOrder)[i].order)
  {
  }

  lemma GroupUnchangedOutside(cats: seq<Category>, id: string, newOrder: int, cat: Category)
    requires UniqueIds(cats) && FindById(cats, id) == Some(cat)
    ensures var r := ReorderedWithinParent(cats, id, newOrder);
      forall i :: 0 <= i < |cats| && cats[i].parentId != cat.parentId ==> r[i] == cats[i]
  {
    forall i | 0 <= i < |cats| && cats[i].parentId != cat.parentId
      ensures ReorderedWithinParent(cats, id, newOrder)[i] == cats[i]
    {
      OutsideGroupUnchanged(cats, id, newOrder, cat, i);
    }
  }

  lemma GroupPositions(cats: seq<Category>, id: string, newOrder: int, cat: Category)
    requires UniqueIds(cats) && FindById(cats, id) == Some(cat)
    ensures var r := ReorderedWithinParent(cats, id, newOrder);
      var n := |Siblings(cats, cat.parentId, id)|;
      && (forall i :: 0 <= i < |cats| && cats[i].id == id ==> r[i].order == Seqs.SpliceIndex(n, newOrder))
      && (forall i :: 0 <= i < |cats| && cats[i].parentId == cat.parentId ==> 0 <= r[i].order <= n)
      && (forall i, j :: 0 <= i < |cats| && 0 <= j < |cats| && i != j
            && cats[i].parentId == cat.parentId && cats[j].parentId == cat.parentId
            ==> r[i].order != r[j].order)
  {
    var r := ReorderedWithinParent(cats, id, newOrder);
    var sib := Siblings(cats, cat.parentId, id);
    var list := Seqs.Splice(sib, newOrder, cat);
    forall i | 0 <= i < |cats| && cats[i].parentId == cat.parentId
      ensures 0 <= r[i].order <= |sib| && list[r[i].order] == cats[i]
    {
      GroupPosition(cats, id, newOrder, cat, i);
    }
    forall i | 0 <= i < |cats| && cats[i].id == id ensures r[i].order == Seqs.SpliceIndex(|sib|, newOrder) {
      MovedPosition(cats, id, newOrder, cat, i);
    }
    forall i, j | 0 <= i < |cats| && 0 <= j < |cats| && i != j
        && cats[i].parentId == cat.parentId && cats[j].parentId == cat.parentId
      ensures r[i].order != r[j].order
    {
      assert cats[i].id != cats[j].id;
    }
  }

  lemma GroupKeepsOrder(cats: seq<Category>, id: string, newOrder: int, cat: Category)
    requires UniqueIds(cats) && FindById(cats, id) == Some(cat)
    ensures var r := ReorderedWithinParent(cats, id, newOrder);
      forall i, j :: 0 <= i < |cats| && 0 <= j < |cats|
        && cats[i].parentId == cat.parentId && cats[j].parentId == cat.parentId
        && cats[i].id != id && cats[j].id != id && cats[i].order < cats[j].order
        ==> r[i].order < r[j].order
  {
    var r := ReorderedWithinParent(cats, id, newOrder);
    var list := Seqs.Splice(Siblings(cats, cat.parentId, id), newOrder, cat);
    forall i, j | 0 <= i < |cats| && 0 <= j < |cats|
        && cats[i].parentId == cat.parentId && cats[j].parentId == cat.parentId
        && cats[i].id != id && cats[j].id != id && cats[i].order < cats[j].order
      ensures r[i].order < r[j].order
    {
      assert r[i] == Renumber(cats[i], list) && r[j] == Renumber(cats[j], list);
      SiblingsKeepOrder(cats, id, newOrder, cat, cats[i], cats[j]);
    }
  }

  /** A category outside the moved one's group is left as it is. */
  lemma OutsideGroupUnchanged(cats: seq<Category>, id: string, newOrder: int, cat: Category, i: nat)
    requires UniqueIds(cats) && FindById(cats, id) == Some(cat)
    requires i < |cats| && cats[i].parentId != cat.parentId
    ensures ReorderedWithinParent(cats, id, newOrder)[i] == cats[i]
  {
    var list := Seqs.Splice(Siblings(cats, cat.parentId, id), newOrder, cat);
    assert ReorderedWithinParent(cats, id, newOrder)[i] == Renumber(cats[i], list);
    forall j | 0 <= j < |list| ensures list[j].id != cats[i].id {
      SpliceListMember(cats, id, newOrder, cat, list[j]);
      DistinctIds(cats, list[j], cats[i]);
    }
  }

  /** A category of the group is numbered by its place in the list. */
  lemma GroupPosition(cats: seq<Category>, id: string, newOrder: int, cat: Category, i: nat)
    requires UniqueIds(cats) && FindById(cats, id) == Some(cat)
    requires i < |cats| && cats[i].parentId == cat.parentId
    ensures var r := ReorderedWithinParent(cats, id, newOrder);
      var list := Seqs.Splice(Siblings(cats, cat.parentId, id), newOrder, cat);
      0 <= r[i].order <= |Siblings(cats, cat.parentId, id)| && list[r[i].order] == cats[i]
  {
    var sib := Siblings(cats, cat.parentId, id);
    var list := Seqs.Splice(sib, newOrder, cat);
    var pos := Seqs.SpliceIndex(|sib|, newOrder);
    assert ReorderedWithinParent(cats, id, newOrder)[i] == Renumber(cats[i], list);
    SpliceListUnique(cats, id, newOrder, cat);
    var g := cats[i];
    if g.id == id {
      FindOwnId(cats, g);
      PositionInList(list, pos);
    } else {
      var k := SiblingPosition(cats, id, newOrder, cat, g);
    }
  }

  /** The moved category lands at the clamped position. */
  lemma MovedPosition(cats: seq<Category>, id: string, newOrder: int, cat: Category, i: nat)
    requires UniqueIds(cats) && FindById(cats, id) == Some(cat)
    requires i < |cats| && cats[i].id == id
    ensures ReorderedWithinParent(cats, id, newOrder)[i].order
      == Seqs.SpliceIndex(|Siblings(cats, cat.parentId, id)|, newOrder)
  {
    var sib := Siblings(cats, cat.parentId, id);
    var list := Seqs.Splice(sib, newOrder, cat);
    assert ReorderedWithinParent(cats, id, newOrder)[i] == Renumber(cats[i], list);
    SpliceListUnique(cats, id, newOrder, cat);
    FindOwnId(cats, cats[i]);
    PositionInList(list, Seqs.SpliceIndex(|sib|, newOrder));
  }

  lemma SiblingsKeepOrder(cats: seq<Category>, id: string, newOrder: int, cat: Category, a: Category, b: Category)
    requires UniqueIds(cats) && FindById(cats, id) == Some(cat)
    requires a in cats && a.parentId == cat.parentId && a.id != id
    requires b in cats && b.parentId == cat.parentId && b.id != id
    requires a.order < b.order
    ensures var list := Seqs.Splice(Siblings(cats, cat.parentId, id), newOrder, cat);
      Renumber(a, list).order < Renumber(b, list).order
  {
    var sib := Siblings(cats, cat.parentId, id);
    Seqs.KeyOrdersAreTotal((c: Category) => c.order);
    Seqs.SortSorted(Seqs.Filter(cats, SiblingOf(cat.parentId, id)), ByOrder());
    var ka := SiblingPosition(cats, id, newOrder, cat, a);
    var kb := SiblingPosition(cats, id, newOrder, cat, b);
    Seqs.SortedBefore(sib, ByOrder(), ka, kb);
  }

  /** Reordering within a parent keeps the store invariant. */
  lemma ReorderedWithinParentValid(cats: seq<Category>, id: string, newOrder: int)
    requires Valid(cats)
    ensures Valid(ReorderedWithinParent(cats, id, newOrder))
  {
    ReorderedWithinParentSpec(cats, id, newOrder);
    SameShapeValid(cats, ReorderedWithinParent(cats, id, newOrder));
  }
}
