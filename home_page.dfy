/** The front page (app/page.tsx): the hero and secondary features taken from the featured
    articles, the news stream of the other articles, newest first, the trending list and
    the live races. */
module HomePage {

  import opened Wrappers
  import opened Types
  import Seqs
  import ArticleStore
  import ElectionData

  /** The hero: the first featured article in store order, if any. */
  function Hero(articles: seq<Article>): (r: Option<Article>)
    ensures r.None? <==> forall a :: a in articles ==> !a.featured
    ensures r.Some? ==> exists i :: 0 <= i < |articles| && articles[i] == r.value && r.value.featured
                                   && (forall j :: 0 <= j < i ==> !articles[j].featured)
  {
    var featured := ArticleStore.FeaturedArticles(articles);
    FeaturedHead(articles);
    if featured == [] then None else Some(featured[0])
  }

  /** The first featured article is the first article flagged as featured. */
  lemma {:induction false} FeaturedHead(articles: seq<Article>)
    ensures var f := ArticleStore.FeaturedArticles(articles);
      f != [] ==> exists i :: 0 <= i < |articles| && articles[i] == f[0] && f[0].featured
                              && (forall j :: 0 <= j < i ==> !articles[j].featured)
  {
    if articles != [] && !articles[0].featured {
      FeaturedHead(articles[1..]);
      var f := ArticleStore.FeaturedArticles(articles);
      if f != [] {
        assert ArticleStore.FeaturedArticles(articles) == ArticleStore.FeaturedArticles(articles[1..]);
        var i :| 0 <= i < |articles[1..]| && articles[1..][i] == f[0] && f[0].featured
                 && (forall j :: 0 <= j < i ==> !articles[1..][j].featured);
        assert articles[i + 1] == f[0];
        assert forall j :: 1 <= j < i + 1 ==> articles[j] == articles[1..][j - 1];
      }
    }
  }

  /** The secondary features: the featured articles after the hero, at most three. */
  function SecondaryFeatures(articles: seq<Article>): (r: seq<Article>)
    ensures forall a :: a in r ==> a in articles && a.featured
    ensures var f := ArticleStore.FeaturedArticles(articles);
      && |r| == (if |f| <= 1 then 0 else if |f| < 4 then |f| - 1 else 3)
      && forall i :: 0 <= i < |r| ==> r[i] == f[i + 1]
  {
    var f := ArticleStore.FeaturedArticles(articles);
    f[(if |f| < 1 then |f| else 1)..(if |f| < 4 then |f| else 4)]
  }

  function IsNotFeatured(a: Article): bool { !a.featured }

  function PublishedKey(a: Article): int { a.publishedAt }

  /** The news stream: the articles not featured, sorted newest first on the filtered
      copy. The sort is stable: articles published at the same time keep store order. */
  function NewsStream(articles: seq<Article>): (r: seq<Article>)
    ensures multiset(r) == multiset(Seqs.Filter(articles, IsNotFeatured))
    ensures forall a :: a in r <==> a in articles && !a.featured
    ensures forall k :: Seqs.EquivRun(r, Seqs.ByKeyDesc(PublishedKey), k)
                     == Seqs.EquivRun(Seqs.Filter(articles, IsNotFeatured), Seqs.ByKeyDesc(PublishedKey), k)
  {
    Seqs.SortByKeyDescSpec(Seqs.Filter(articles, IsNotFeatured), PublishedKey);
    Seqs.SortByKeyDescStable(Seqs.Filter(articles, IsNotFeatured), PublishedKey);
    Seqs.SortBy(Seqs.Filter(articles, IsNotFeatured), Seqs.ByKeyDesc(PublishedKey))
  }

  /** The stream is newest first and shares nothing with the hero or the secondary
      features. */
  lemma NewsStreamNewestFirst(articles: seq<Article>)
    ensures var r := NewsStream(articles);
      && (forall i, j :: 0 <= i < j < |r| ==> r[i].publishedAt >= r[j].publishedAt)
      && (Hero(articles).Some? ==> Hero(articles).value !in r)
      && (forall a :: a in SecondaryFeatures(articles) ==> a !in r)
  {
    Seqs.SortByKeyDescSpec(Seqs.Filter(articles, IsNotFeatured), PublishedKey);
  }

  /** The trending placeholder: the first five articles in store order. */
  function Trending(articles: seq<Article>): (r: seq<Article>)
    ensures |r| == if |articles| < 5 then |articles| else 5
    ensures r <= articles
  {
    Seqs.Take(articles, 5)
  }

  /** The live races shown: the first three live races. */
  function LiveRacesShown(races: seq<ElectionRace>): (r: seq<ElectionRace>)
    ensures var live := ElectionData.LiveRaces(races); |r| == if |live| < 3 then |live| else 3
    ensures r <= ElectionData.LiveRaces(races)
    ensures forall race :: race in r ==> race in races && race.status == Live
  {
    Seqs.Take(ElectionData.LiveRaces(races), 3)
  }
}
