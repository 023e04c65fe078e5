/** The trending box of the site sidebar (components/layout/Sidebar.tsx). It calls `sort`
    on the store's own article list, which reorders that list in place, newest first,
    and then shows the first five. */
module Sidebar {

  import opened Types
  import Seqs
  import ArticleStore

  const TrendingCount: nat := 5

  /** The sort key: the comparator is `b.publishedAt - a.publishedAt`. */
  function PublishedKey(a: Article): int { a.publishedAt }

  /** The store's list after the sort: stable, newest first. */
  function SortedNewestFirst(articles: seq<Article>): (r: seq<Article>)
    ensures multiset(r) == multiset(articles)
    ensures forall i, j :: 0 <= i < j < |r| ==> r[i].publishedAt >= r[j].publishedAt
    ensures forall k :: Seqs.EquivRun(r, Seqs.ByKeyDesc(PublishedKey), k)
                     == Seqs.EquivRun(articles, Seqs.ByKeyDesc(PublishedKey), k)
  {
    Seqs.SortByKeyDescSpec(articles, PublishedKey);
    Seqs.SortByKeyDescStable(articles, PublishedKey);
    Seqs.SortBy(articles, Seqs.ByKeyDesc(PublishedKey))
  }

  /** At most five articles; no article left out was published later than one shown. */
  lemma TrendingIsTop(articles: seq<Article>)
    ensures var top := Seqs.Take(SortedNewestFirst(articles), TrendingCount);
      && |top| <= TrendingCount
      && (forall x, y :: x in top && y in multiset(articles) - multiset(top) ==> y.publishedAt <= x.publishedAt)
  {
    Seqs.TopByKeyDesc(articles, PublishedKey, TrendingCount);
    var top := Seqs.Take(SortedNewestFirst(articles), TrendingCount);
    forall x, y | x in top && y in multiset(articles) - multiset(top) ensures y.publishedAt <= x.publishedAt {
      assert PublishedKey(y) <= PublishedKey(x);
    }
  }

  /** The sidebar's render: sorts the store's list in place, and returns its first
      five. Nothing else of the store changes. */
  method TrendingArticles(store: ArticleStore.ArticleStore) returns (trending: seq<Article>)
    modifies store
    ensures store.articles == SortedNewestFirst(old(store.articles))
    ensures trending == Seqs.Take(store.articles, TrendingCount)
    ensures store.categories == old(store.categories) && store.selectedCategory == old(store.selectedCategory)
    ensures store.searchQuery == old(store.searchQuery)
  {
    store.articles := SortedNewestFirst(store.articles);
    trending := Seqs.Take(store.articles, TrendingCount);
  }
}
