/** The category management page (app/admin/categories/page.tsx): the seeding guard, the
    list filter and the counts, and the handlers that call the category store, and, for a
    deletion, the article store's reassignment. */
module CategoriesPage {

  import opened Wrappers
  import opened Types
  import Seqs
  import opened CategoryHierarchy
  import opened CategoryEdits
  import CategoryStore
  import ArticleStore

  // ---------------------------------------------------------------------
  // filteredCategories and stats
  // ---------------------------------------------------------------------

  datatype CategoryFilter = All | ActiveOnly | InactiveOnly | SpecialOnly

  /** The filter callback: 'active', 'inactive', 'special', otherwise everything. */
  function Keeps(filter: CategoryFilter): Category -> bool
  {
    (c: Category) =>
      match filter
      case ActiveOnly => c.isActive
      case InactiveOnly => !c.isActive
      case SpecialOnly => c.isSpecial
      case All => true
  }

  /** `filteredCategories`. */
  function FilteredCategories(cats: seq<Category>, filter: CategoryFilter): (r: seq<Category>)
    ensures Seqs.IsSubseq(r, cats)
  {
    Seqs.Filter(cats, Keeps(filter))
  }

  /** Each filter keeps, in list order, exactly the categories it names; 'all' keeps the
      list as it is, and 'active' and 'inactive' split it. */
  lemma FilteredCategoriesSpec(cats: seq<Category>)
    ensures FilteredCategories(cats, All) == cats
    ensures forall c :: c in FilteredCategories(cats, ActiveOnly) <==> c in cats && c.isActive
    ensures forall c :: c in FilteredCategories(cats, InactiveOnly) <==> c in cats && !c.isActive
    ensures forall c :: c in FilteredCategories(cats, SpecialOnly) <==> c in cats && c.isSpecial
    ensures |FilteredCategories(cats, ActiveOnly)| + |FilteredCategories(cats, InactiveOnly)| == |cats|
  {
    Seqs.FilterAll(cats, Keeps(All));
    Seqs.FilterPartition(cats, Keeps(ActiveOnly), Keeps(InactiveOnly));
  }

  datatype Stats = Stats(total: nat, active: nat, inactive: nat, special: nat)

  /** `stats`. */
  function StatsOf(cats: seq<Category>): Stats
  {
    Stats(|cats|, |FilteredCategories(cats, ActiveOnly)|, |FilteredCategories(cats, InactiveOnly)|,
      |FilteredCategories(cats, SpecialOnly)|)
  }

  /** The active and inactive counts add up to the total, and the special count is at
      most the total. */
  lemma StatsAddUp(cats: seq<Category>)
    ensures StatsOf(cats).active + StatsOf(cats).inactive == StatsOf(cats).total
    ensures StatsOf(cats).special <= StatsOf(cats).total
  {
    FilteredCategoriesSpec(cats);
  }

  // ---------------------------------------------------------------------
  // The handlers
  // ---------------------------------------------------------------------

  function InCategory(id: string): Article -> bool
  {
    (a: Article) => a.category.id == id
  }

  /** The reassignment `confirmDelete` asks for before deleting `id`: none when no article
      is filed under it, otherwise one call moving all of them to 'uncategorized'. */
  function ReassignCalls(articles: seq<Article>, id: string): (calls: seq<ArticleStore.StoreCall>)
    ensures |calls| <= 1
    ensures calls == [] <==> forall a :: a in articles ==> a.category.id != id
    ensures calls != [] ==>
      && calls[0].ReassignCategoryForArticles?
      && calls[0].categoryId == CategoryStore.Uncategorized
      && calls[0].ids == ArticleIds(Seqs.Filter(articles, InCategory(id)))
  {
    var moving := Seqs.Filter(articles, InCategory(id));
    if |moving| > 0 then
      assert moving[0] in moving;
      [ArticleStore.ReassignCategoryForArticles(ArticleIds(moving), CategoryStore.Uncategorized)]
    else
      assert forall a :: a in articles ==> a.category.id != id;
      []
  }

  /** The page state that the handlers read and write. */
  class CategoriesPage {
    const store: CategoryStore.CategoryStore
    var isFormOpen: bool
    var editingCategory: Option<Category>
    var parentForNew: Option<Category>
    var filter: CategoryFilter
    var deleteConfirm: Option<Category>

    constructor(store: CategoryStore.CategoryStore)
      ensures this.store == store
      ensures !isFormOpen && editingCategory.None? && parentForNew.None?
      ensures filter == All && deleteConfirm.None?
    {
      this.store := store;
      isFormOpen := false;
      editingCategory := None;
      parentForNew := None;
      filter := All;
      deleteConfirm := None;
    }

    /** The seeding effect: the store takes the seed list only while it is empty. */
    method InitGuard(seed: seq<Category>)
      modifies store
      ensures old(store.categories) == [] ==> store.categories == seed
      ensures old(store.categories) != [] ==> store.categories == old(store.categories)
    {
      if |store.categories| == 0 {
        store.InitializeCategories(seed);
      }
    }

    /** `handleSubmit(data)`: an edit updates the edited category with the payload as it
        is; a creation under `parentForNew` takes that parent's id; the form closes. The
        new id and the clock are parameters. */
    method HandleSubmit(data: CategoryData, newId: string, now: int)
      modifies this, store
      ensures old(editingCategory).Some? ==>
        store.categories == Updated(old(store.categories), old(editingCategory).value.id, DataPatch(data), now)
      ensures old(editingCategory).None? && old(parentForNew).Some? ==>
        store.categories == old(store.categories) + [NewCategory(data.(parentId := Some(old(parentForNew).value.id)), newId, now)]
      ensures old(editingCategory).None? && old(parentForNew).None? ==>
        store.categories == old(store.categories) + [NewCategory(data, newId, now)]
      ensures !isFormOpen && editingCategory.None? && parentForNew.None?
      ensures filter == old(filter) && deleteConfirm == old(deleteConfirm)
    {
      if editingCategory.Some? {
        store.UpdateCategory(editingCategory.value.id, DataPatch(data), now);
      } else {
        var d := if parentForNew.Some? then data.(parentId := Some(parentForNew.value.id)) else data;
        var _ := store.CreateCategory(d, newId, now);
      }
      isFormOpen := false;
      editingCategory := None;
      parentForNew := None;
    }

    /** `confirmDelete()`: nothing without a pending category; otherwise the articles filed
        under it are handed to 'uncategorized' (when there are any), the category is
        deleted without consulting `canDeleteCategory`, and the dialog closes. Returns the
        calls made to the article store. */
    method ConfirmDelete(articles: seq<Article>) returns (calls: seq<ArticleStore.StoreCall>)
      modifies this, store
      ensures old(deleteConfirm).None? ==> calls == [] && store.categories == old(store.categories)
      ensures old(deleteConfirm).Some? ==>
        && calls == ReassignCalls(articles, old(deleteConfirm).value.id)
        && store.categories == Deleted(old(store.categories), old(deleteConfirm).value.id)
      ensures Valid(old(store.categories)) ==> Valid(store.categories)
      ensures deleteConfirm.None?
      ensures isFormOpen == old(isFormOpen) && editingCategory == old(editingCategory)
      ensures parentForNew == old(parentForNew) && filter == old(filter)
    {
      if deleteConfirm.None? {
        return [];
      }
      var d := deleteConfirm.value;
      calls := ReassignCalls(articles, d.id);
      if Valid(store.categories) {
        if d.id == "" {
          assert FindById(store.categories, d.id).None?;
        } else {
          DeletePreservesValid(store.categories, d.id);
        }
      }
      store.DeleteCategory(d.id);
      deleteConfirm := None;
    }

    /** `handleToggleActive(category)`. */
    method HandleToggleActive(category: Category, now: int)
      modifies store
      ensures store.categories == Updated(old(store.categories), category.id, ActivePatch(!category.isActive), now)
      ensures Valid(old(store.categories)) ==> Valid(store.categories)
    {
      if Valid(store.categories) {
        UpdatePreservesValid(store.categories, category.id, ActivePatch(!category.isActive), now);
      }
      store.UpdateCategory(category.id, ActivePatch(!category.isActive), now);
    }
  }

  /** Toggling touches only the records with that id: their `isActive` is flipped with
      respect to the category the page shows, and their `updatedAt` is the new time. */
  lemma ToggleActiveSpec(cats: seq<Category>, category: Category, now: int)
    ensures var r := Updated(cats, category.id, ActivePatch(!category.isActive), now);
      && (forall i :: 0 <= i < |cats| && cats[i].id != category.id ==> r[i] == cats[i])
      && (forall i :: 0 <= i < |cats| && cats[i].id == category.id ==>
            r[i] == cats[i].(isActive := !category.isActive, updatedAt := now))
  {
  }
}
