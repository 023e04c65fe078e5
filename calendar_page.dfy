/** The article calendar page (app/admin/articles/calendar/page.tsx): the same status and
    category tests as the list page, and no text search. */
module CalendarPage {

  import opened Wrappers
  import opened Types
  import Seqs
  import AdminStore
  import ArticlesPage

  function Keeps(status: AdminStore.StatusFilter, categoryFilter: Option<string>): Article -> bool
  {
    (a: Article) => ArticlesPage.StatusKeeps(status, a) && ArticlesPage.CategoryKeeps(categoryFilter, a)
  }

  /** `filteredArticles`: the admin store's search query is not an input. */
  function CalendarArticles(articles: seq<Article>, status: AdminStore.StatusFilter,
                            categoryFilter: Option<string>): (r: seq<Article>)
    ensures Seqs.IsSubseq(r, articles)
  {
    Seqs.Filter(articles, Keeps(status, categoryFilter))
  }

  /** The calendar shows what the list page shows with the query left empty, whatever
      query the shared store holds; with status 'all' and no category it shows every
      article. */
  lemma CalendarIgnoresSearch(articles: seq<Article>, status: AdminStore.StatusFilter,
                              categoryFilter: Option<string>)
    ensures CalendarArticles(articles, status, categoryFilter) ==
      ArticlesPage.FilteredArticles(articles, status, categoryFilter, "")
    ensures CalendarArticles(articles, AdminStore.AllStatuses, None) == articles
  {
    Seqs.FilterExt(articles, Keeps(status, categoryFilter), ArticlesPage.Keeps(status, categoryFilter, ""));
    Seqs.FilterAll(articles, Keeps(AdminStore.AllStatuses, None));
  }

  /** Membership, over the article's own fields. */
  lemma CalendarArticlesSpec(articles: seq<Article>, status: AdminStore.StatusFilter,
                             categoryFilter: Option<string>)
    ensures forall a :: a in CalendarArticles(articles, status, categoryFilter) <==>
      && a in articles
      && (status == AdminStore.PublishedOnly ==> IsPublished(a))
      && (status == AdminStore.DraftOnly ==> a.status == Some(Draft))
      && (status == AdminStore.ScheduledOnly ==> a.status == Some(Scheduled))
      && (categoryFilter.Some? && categoryFilter.value != "" ==> a.category.id == categoryFilter.value)
  {
  }
}
