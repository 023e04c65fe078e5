/** The admin articles table (components/admin/ArticlesTable.tsx): the select-all checkbox,
    the sort column and direction, the sorted copy of the rows, and the status badge. */
module ArticlesTable {

  import opened Wrappers
  import opened Types
  import Seqs
  import Text
  import AdminStore
  import ArticleStore

  // ---------------------------------------------------------------------
  // Selection
  // ---------------------------------------------------------------------

  /** `allSelected`: the selection is as long as the row list; which ids it holds is not
      looked at. */
  predicate AllSelected(articles: seq<Article>, sel: seq<string>)
  {
    |articles| > 0 && |sel| == |articles|
  }

  /** `someSelected`. */
  predicate SomeSelected(articles: seq<Article>, sel: seq<string>)
  {
    |sel| > 0 && !AllSelected(articles, sel)
  }

  /** The header checkbox is either checked or indeterminate exactly when something is
      selected, never both. */
  lemma SelectionFlags(articles: seq<Article>, sel: seq<string>)
    ensures !(AllSelected(articles, sel) && SomeSelected(articles, sel))
    ensures AllSelected(articles, sel) || SomeSelected(articles, sel) <==> sel != []
  {
  }

  /** `handleSelectAll()`: clears the selection when all rows count as selected, otherwise
      selects the shown rows' ids. With rows on screen, the checkbox flips. */
  method HandleSelectAll(admin: AdminStore.AdminStore, articles: seq<Article>)
    modifies admin
    ensures AllSelected(articles, old(admin.selectedArticleIds)) ==>
      admin.State() == old(admin.State()).(selectedArticleIds := [])
    ensures !AllSelected(articles, old(admin.selectedArticleIds)) ==>
      admin.State() == old(admin.State()).(selectedArticleIds := ArticleIds(articles))
    ensures articles != [] ==>
      (AllSelected(articles, admin.selectedArticleIds) <==> !AllSelected(articles, old(admin.selectedArticleIds)))
  {
    if AllSelected(articles, admin.selectedArticleIds) {
      admin.ClearSelection();
    } else {
      admin.SelectAllArticles(ArticleIds(articles));
    }
  }

  // ---------------------------------------------------------------------
  // Sorting
  // ---------------------------------------------------------------------

  datatype SortField = TitleField | PublishedAtField | CategoryField
  datatype SortDirection = Asc | Desc

  datatype SortState = SortState(field: SortField, direction: SortDirection)

  /** The state after clicking the header of `f`. */
  function NextSort(s: SortState, f: SortField): (r: SortState)
    ensures r.field == f
    ensures s.field == f ==> r.direction != s.direction
    ensures s.field != f ==> r.direction == Desc
  {
    if s.field == f then SortState(f, if s.direction == Asc then Desc else Asc)
    else SortState(f, Desc)
  }

  /** Two clicks on the same header give the sort back; a new column is first descending
      and then ascending. */
  lemma NextSortTwice(s: SortState, f: SortField)
    ensures s.field == f ==> NextSort(NextSort(s, f), f) == s
    ensures s.field != f ==> NextSort(NextSort(s, f), f) == SortState(f, Asc)
  {
  }

  /** The table's sort state; it starts at `publishedAt`, descending. */
  class SortControl {
    var sortField: SortField
    var sortDirection: SortDirection

    constructor()
      ensures sortField == PublishedAtField && sortDirection == Desc
    {
      sortField := PublishedAtField;
      sortDirection := Desc;
    }

    /** `handleSort(field)`. */
    method HandleSort(f: SortField)
      modifies this
      ensures SortState(sortField, sortDirection) == NextSort(SortState(old(sortField), old(sortDirection)), f)
    {
      if sortField == f {
        sortDirection := if sortDirection == Asc then Desc else Asc;
      } else {
        sortField := f;
        sortDirection := Desc;
      }
    }
  }

  function TitleKey(a: Article): string { Text.Lower(a.title.en) }
  function CategoryKey(a: Article): string { Text.Lower(a.category.name.en) }
  function DateKey(a: Article): int { a.publishedAt }

  /** The comparator, as "may come before": `<` gives -1 in ascending order and 1 in
      descending order, equal keys give 0. */
  function Comparator(s: SortState): (Article, Article) -> bool
  {
    match s.field
    case TitleField => if s.direction == Asc then Text.ByTextAsc(TitleKey) else Text.ByTextDesc(TitleKey)
    case CategoryField => if s.direction == Asc then Text.ByTextAsc(CategoryKey) else Text.ByTextDesc(CategoryKey)
    case PublishedAtField => if s.direction == Asc then Seqs.ByKeyAsc(DateKey) else Seqs.ByKeyDesc(DateKey)
  }

  lemma ComparatorIsTotal(s: SortState)
    ensures Seqs.TotalPreorder(Comparator(s))
  {
    Text.TextKeyOrdersAreTotal(TitleKey);
    Text.TextKeyOrdersAreTotal(CategoryKey);
    Seqs.KeyOrdersAreTotal(DateKey);
  }

  /** `sortedArticles`: a sorted copy; the `articles` value itself is left as it was. */
  function SortedArticles(articles: seq<Article>, s: SortState): seq<Article>
  {
    Seqs.SortBy(articles, Comparator(s))
  }

  /** The rows are a permutation of the input, ordered by the chosen key and direction,
      and rows with equal keys keep their input order. */
  lemma SortedArticlesSpec(articles: seq<Article>, s: SortState)
    ensures multiset(SortedArticles(articles, s)) == multiset(articles)
    ensures Seqs.SortedBy(SortedArticles(articles, s), Comparator(s))
    ensures forall k :: Seqs.EquivRun(SortedArticles(articles, s), Comparator(s), k)
                     == Seqs.EquivRun(articles, Comparator(s), k)
  {
    ComparatorIsTotal(s);
    Seqs.SortPerm(articles, Comparator(s));
    Seqs.SortSorted(articles, Comparator(s));
    forall k ensures Seqs.EquivRun(SortedArticles(articles, s), Comparator(s), k)
                  == Seqs.EquivRun(articles, Comparator(s), k)
    {
      Seqs.SortStable(articles, Comparator(s), k);
    }
  }

  /** The default sort puts the newest `publishedAt` first. */
  lemma DefaultSortNewestFirst(articles: seq<Article>)
    ensures var r := SortedArticles(articles, SortState(PublishedAtField, Desc));
      forall i, j :: 0 <= i < j < |r| ==> r[i].publishedAt >= r[j].publishedAt
  {
    var le := Seqs.ByKeyDesc(DateKey);
    assert Comparator(SortState(PublishedAtField, Desc)) == le;
    SortedArticlesSpec(articles, SortState(PublishedAtField, Desc));
    var r := SortedArticles(articles, SortState(PublishedAtField, Desc));
    forall i, j | 0 <= i < j < |r| ensures r[i].publishedAt >= r[j].publishedAt {
      assert le(r[i], r[j]);
    }
  }

  // ---------------------------------------------------------------------
  // Status badge
  // ---------------------------------------------------------------------

  datatype Badge = PublishedBadge | DraftBadge | ScheduledBadge

  /** `getStatusBadge(status)`. */
  function StatusBadge(status: Option<ArticleStatus>): Badge
  {
    if status == Some(Published) || status.None? then PublishedBadge
    else if status == Some(Draft) then DraftBadge
    else ScheduledBadge
  }

  /** The table labels as Published exactly what the store's `getPublishedArticles`
      returns, and as Draft exactly what `getDraftArticles` returns. */
  lemma BadgeAgreesWithStore(articles: seq<Article>)
    ensures forall a :: a in ArticleStore.PublishedArticles(articles) <==>
      a in articles && StatusBadge(a.status) == PublishedBadge
    ensures forall a :: a in ArticleStore.DraftArticles(articles) <==>
      a in articles && StatusBadge(a.status) == DraftBadge
  {
    ArticleStore.DraftsAndPublished(articles);
  }
}
