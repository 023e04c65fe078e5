/** The article list page (app/admin/articles/page.tsx): the filter over the store's
    articles driven by the admin store's status, category and search fields, the
    "filters are set" flag, and the bulk actions on the selection. */
module ArticlesPage {

  import opened Wrappers
  import opened Types
  import Seqs
  import Text
  import AdminStore
  import ArticleStore

  /** The status test: 'published' rejects only an article whose status is set to
      something else, 'draft' and 'scheduled' want that exact status. */
  predicate StatusKeeps(filter: AdminStore.StatusFilter, a: Article)
  {
    match filter
    case AllStatuses => true
    case PublishedOnly => !(a.status != Some(Published) && a.status.Some?)
    case DraftOnly => a.status == Some(Draft)
    case ScheduledOnly => a.status == Some(Scheduled)
  }

  /** The category test: `null` and `''` are both falsy and let every article through. */
  predicate CategoryKeeps(categoryFilter: Option<string>, a: Article)
  {
    !(categoryFilter.Some? && categoryFilter.value != "" && a.category.id != categoryFilter.value)
  }

  /** The search looks in both titles, both summaries and both author names. */
  predicate QueryMatches(a: Article, query: string)
  {
    || Text.Matches(a.title.en, query) || Text.Matches(a.title.dv, query)
    || Text.Matches(a.summary.en, query) || Text.Matches(a.summary.dv, query)
    || Text.Matches(a.author.name.en, query) || Text.Matches(a.author.name.dv, query)
  }

  predicate SearchKeeps(query: string, a: Article)
  {
    query == "" || QueryMatches(a, query)
  }

  function Keeps(status: AdminStore.StatusFilter, categoryFilter: Option<string>, query: string): Article -> bool
  {
    (a: Article) => StatusKeeps(status, a) && CategoryKeeps(categoryFilter, a) && SearchKeeps(query, a)
  }

  /** `filteredArticles`. */
  function FilteredArticles(articles: seq<Article>, status: AdminStore.StatusFilter,
                            categoryFilter: Option<string>, query: string): (r: seq<Article>)
    ensures Seqs.IsSubseq(r, articles)
  {
    Seqs.Filter(articles, Keeps(status, categoryFilter, query))
  }

  /** What each filter keeps, stated over the article's own fields. */
  lemma FilteredArticlesSpec(articles: seq<Article>, status: AdminStore.StatusFilter,
                             categoryFilter: Option<string>, query: string)
    ensures forall a :: a in FilteredArticles(articles, status, categoryFilter, query) <==>
      && a in articles
      && (status == AdminStore.PublishedOnly ==> a.status == Some(Published) || a.status.None?)
      && (status == AdminStore.DraftOnly ==> a.status == Some(Draft))
      && (status == AdminStore.ScheduledOnly ==> a.status == Some(Scheduled))
      && (categoryFilter.Some? && categoryFilter.value != "" ==> a.category.id == categoryFilter.value)
      && (query != "" ==> QueryMatches(a, query))
  {
  }

  /** `hasFilters`. */
  predicate HasFilters(status: AdminStore.StatusFilter, categoryFilter: Option<string>, query: string)
  {
    status != AdminStore.AllStatuses || (categoryFilter.Some? && categoryFilter.value != "") || query != ""
  }

  /** With no filter set the page lists every article, in store order; this covers the
      admin store's initial and reset state. */
  lemma NoFiltersKeepsAll(articles: seq<Article>, status: AdminStore.StatusFilter,
                          categoryFilter: Option<string>, query: string)
    requires !HasFilters(status, categoryFilter, query)
    ensures FilteredArticles(articles, status, categoryFilter, query) == articles
  {
    Seqs.FilterAll(articles, Keeps(status, categoryFilter, query));
  }

  /** The page's search finds nothing that the store's `searchArticles` would miss:
      it looks in fewer fields. */
  lemma PageSearchWithinStoreSearch(articles: seq<Article>, query: string)
    ensures forall a :: a in FilteredArticles(articles, AdminStore.AllStatuses, None, query) ==>
      a in ArticleStore.SearchArticles(articles, query)
  {
    forall a | a in FilteredArticles(articles, AdminStore.AllStatuses, None, query)
      ensures ArticleStore.ArticleMatches(a, query)
    {
      if query == "" {
        Text.ContainsEmpty(Text.Lower(a.title.en));
      }
    }
  }

  /** `handleBulkAction(action)`; `confirmed` is the answer to the confirmation dialog.
      Returns the calls made to the article store. */
  method HandleBulkAction(admin: AdminStore.AdminStore, action: string, confirmed: bool)
    returns (calls: seq<ArticleStore.StoreCall>)
    modifies admin
    ensures old(admin.selectedArticleIds) == [] ==> calls == [] && admin.State() == old(admin.State())
    ensures old(admin.selectedArticleIds) != [] && confirmed && (action == "publish" || action == "draft") ==>
      && calls == [ArticleStore.BulkUpdateStatus(old(admin.selectedArticleIds),
                                                 if action == "publish" then Published else Draft)]
      && admin.State() == old(admin.State()).(selectedArticleIds := [])
    ensures old(admin.selectedArticleIds) != [] && confirmed && action == "delete" ==>
      && calls == [ArticleStore.BulkDelete(old(admin.selectedArticleIds))]
      && admin.State() == old(admin.State()).(selectedArticleIds := [])
    ensures !confirmed || (action != "publish" && action != "draft" && action != "delete") ==>
      calls == [] && admin.State() == old(admin.State())
  {
    calls := [];
    if |admin.selectedArticleIds| == 0 {
      return;
    }
    var ids := admin.selectedArticleIds;
    if action == "publish" {
      if confirmed {
        calls := [ArticleStore.BulkUpdateStatus(ids, Published)];
        admin.ClearSelection();
      }
    } else if action == "draft" {
      if confirmed {
        calls := [ArticleStore.BulkUpdateStatus(ids, Draft)];
        admin.ClearSelection();
      }
    } else if action == "delete" {
      if confirmed {
        calls := [ArticleStore.BulkDelete(ids)];
        admin.ClearSelection();
      }
    }
  }
}
