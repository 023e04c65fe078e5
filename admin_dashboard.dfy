/** The recent-activity list of the admin dashboard (app/admin/page.tsx): the ten most
    recently touched articles, newest first, sorted on a copy of the store's list. */
module AdminDashboard {

  import opened Wrappers
  import opened Types
  import Seqs
  import ArticlesTable

  /** How many articles the list shows. */
  const RecentCount: nat := 10

  /** The time an article was last touched: its last edit, else its last update, else its
      publication (a present date is always truthy). */
  function RecencyKey(a: Article): (t: int)
    ensures a.lastEditedAt.Some? ==> t == a.lastEditedAt.value
    ensures a.lastEditedAt.None? && a.updatedAt.Some? ==> t == a.updatedAt.value
    ensures a.lastEditedAt.None? && a.updatedAt.None? ==> t == a.publishedAt
  {
    if a.lastEditedAt.Some? then a.lastEditedAt.value
    else if a.updatedAt.Some? then a.updatedAt.value
    else a.publishedAt
  }

  /** `recentArticles`: a copy sorted newest first (equal times keep the store order),
      cut to ten. */
  function RecentArticles(articles: seq<Article>): (r: seq<Article>)
    ensures |r| == if |articles| < RecentCount then |articles| else RecentCount
    ensures multiset(r) <= multiset(articles)
  {
    var sorted := Seqs.SortBy(articles, Seqs.ByKeyDesc(RecencyKey));
    Seqs.SortByKeyDescSpec(articles, RecencyKey);
    assert sorted == Seqs.Take(sorted, RecentCount) + sorted[|Seqs.Take(sorted, RecentCount)|..];
    Seqs.Take(sorted, RecentCount)
  }

  /** The list is newest first, and no article left out was touched later than one shown:
      it holds the ten most recent. */
  lemma RecentArticlesAreNewest(articles: seq<Article>)
    ensures var r := RecentArticles(articles);
      && (forall i, j :: 0 <= i < j < |r| ==> RecencyKey(r[i]) >= RecencyKey(r[j]))
      && (forall x, y :: x in r && y in multiset(articles) - multiset(r) ==> RecencyKey(y) <= RecencyKey(x))
  {
    Seqs.SortByKeyDescSpec(articles, RecencyKey);
    Seqs.TopByKeyDesc(articles, RecencyKey, RecentCount);
  }

  /** The dashboard's own `getStatusBadge`: a missing status reads as published. The
      source's fall-through for an unknown status string cannot arise with three statuses. */
  function DashboardBadge(status: Option<ArticleStatus>): (b: ArticlesTable.Badge)
    ensures b == ArticlesTable.StatusBadge(status)
    ensures b == ArticlesTable.PublishedBadge <==> status != Some(Draft) && status != Some(Scheduled)
  {
    match status
    case None => ArticlesTable.PublishedBadge
    case Some(Published) => ArticlesTable.PublishedBadge
    case Some(Draft) => ArticlesTable.DraftBadge
    case Some(Scheduled) => ArticlesTable.ScheduledBadge
  }
}
