/** The lookup helpers of the development data (lib/mockData.ts). The seed records there
    do not follow the record types of lib/types.ts (their category name and author are
    plain strings), so the model keeps, for each seed record, only the fields the helpers
    read. */
module MockData {

  import opened Wrappers
  import Seqs

  datatype MockCategory = MockCategory(id: string, name: string, slug: string, color: string)

  /** A seed article, reduced to what the helpers read. */
  datatype MockArticle = MockArticle(
    id: string,
    slug: string,
    categorySlug: string,
    featured: bool,
    relatedArticles: Option<seq<string>>)

  const Categories: seq<MockCategory> := [
    MockCategory("1", "Politics", "politics", "#0F8A2F"),
    MockCategory("2", "Sports", "sports", "#40B657"),
    MockCategory("3", "Business", "business", "#1A5D2F"),
    MockCategory("4", "Local", "local", "#2DA84A")
  ]

  const MockArticles: seq<MockArticle> := [
    MockArticle("1", "parliament-passes-historic-climate-bill", "politics", true, Some(["2", "4"])),
    MockArticle("2", "national-team-advances-championship", "sports", true, Some(["7"])),
    MockArticle("3", "tech-sector-shows-strong-growth", "business", true, Some(["5"])),
    MockArticle("4", "new-community-center-opens", "local", false, Some(["8"])),
    MockArticle("5", "startup-raises-million-funding", "business", false, Some(["3"])),
    MockArticle("6", "education-reform-proposal-unveiled", "politics", false, Some(["1"])),
    MockArticle("7", "olympic-hopeful-breaks-national-record", "sports", false, Some(["2"])),
    MockArticle("8", "local-artists-showcase-exhibition", "local", false, Some(["4"]))
  ]

  /** `getCategoryBySlug(slug)` on the given categories: the first with that slug. */
  function CategoryBySlug(categories: seq<MockCategory>, slug: string): (r: Option<MockCategory>)
    ensures r.None? <==> forall c :: c in categories ==> c.slug != slug
    ensures r.Some? ==> exists i :: 0 <= i < |categories| && categories[i] == r.value && r.value.slug == slug
                                   && (forall j :: 0 <= j < i ==> categories[j].slug != slug)
  {
    var i := Seqs.FindIndex(categories, (c: MockCategory) => c.slug == slug);
    if i < 0 then None else Some(categories[i])
  }

  /** `getArticleBySlug(slug)` on the given articles: the first with that slug. */
  function ArticleBySlug(articles: seq<MockArticle>, slug: string): (r: Option<MockArticle>)
    ensures r.None? <==> forall a :: a in articles ==> a.slug != slug
    ensures r.Some? ==> exists i :: 0 <= i < |articles| && articles[i] == r.value && r.value.slug == slug
                                   && (forall j :: 0 <= j < i ==> articles[j].slug != slug)
  {
    var i := Seqs.FindIndex(articles, (a: MockArticle) => a.slug == slug);
    if i < 0 then None else Some(articles[i])
  }

  function InCategory(categorySlug: string): MockArticle -> bool
  {
    (a: MockArticle) => a.categorySlug == categorySlug
  }

  /** `getArticlesByCategory(categorySlug)`: the articles of the category, in seed order. */
  function ArticlesByCategory(articles: seq<MockArticle>, categorySlug: string): (r: seq<MockArticle>)
    ensures Seqs.IsSubseq(r, articles)
    ensures forall a :: a in r <==> a in articles && a.categorySlug == categorySlug
  {
    Seqs.Filter(articles, InCategory(categorySlug))
  }

  function IsFeatured(a: MockArticle): bool { a.featured }

  /** `getFeaturedArticles()`: the featured articles, in seed order. */
  function FeaturedArticles(articles: seq<MockArticle>): (r: seq<MockArticle>)
    ensures Seqs.IsSubseq(r, articles)
    ensures forall a :: a in r <==> a in articles && a.featured
  {
    Seqs.Filter(articles, IsFeatured)
  }

  function ListedIn(ids: seq<string>): MockArticle -> bool
  {
    (a: MockArticle) => a.id in ids
  }

  /** `articles[i]` is the first article with the id. */
  predicate FirstWithId(articles: seq<MockArticle>, articleId: string, i: int)
  {
    0 <= i < |articles| && articles[i].id == articleId && forall j :: 0 <= j < i ==> articles[j].id != articleId
  }

  /** `getRelatedArticles(articleId)`: nothing for an unknown id or an article without a
      related list; otherwise the articles whose id is in that list, in seed order (not in
      the list's order). */
  function RelatedArticles(articles: seq<MockArticle>, articleId: string): (r: seq<MockArticle>)
    ensures Seqs.IsSubseq(r, articles)
    ensures (forall a :: a in articles ==> a.id != articleId) ==> r == []
    ensures forall i :: FirstWithId(articles, articleId, i) ==>
      && (articles[i].relatedArticles.None? ==> r == [])
      && (articles[i].relatedArticles.Some? ==>
            forall a :: a in r <==> a in articles && a.id in articles[i].relatedArticles.value)
  {
    Seqs.SubseqRefl(articles);
    var i := IndexById(articles, articleId);
    assert forall k :: FirstWithId(articles, articleId, k) ==> k == i by {
      forall k | FirstWithId(articles, articleId, k) ensures k == i {
        if i >= 0 {
          FirstWithIdUnique(articles, articleId, k, i);
        }
      }
    }
    if i < 0 || articles[i].relatedArticles.None? then []
    else Seqs.Filter(articles, ListedIn(articles[i].relatedArticles.value))
  }

  /** The position of the first article with the id, or -1. */
  function IndexById(articles: seq<MockArticle>, articleId: string): (i: int)
    ensures -1 <= i < |articles|
    ensures i >= 0 ==> FirstWithId(articles, articleId, i)
    ensures i < 0 ==> forall k :: 0 <= k < |articles| ==> articles[k].id != articleId
  {
    Seqs.FindIndex(articles, (a: MockArticle) => a.id == articleId)
  }

  /** There is one first article with an id. */
  lemma FirstWithIdUnique(articles: seq<MockArticle>, articleId: string, i: int, j: int)
    requires FirstWithId(articles, articleId, i) && FirstWithId(articles, articleId, j)
    ensures i == j
  {
  }

  /** No article is listed twice, whatever the related list repeats. */
  lemma RelatedArticlesOnce(articles: seq<MockArticle>, articleId: string)
    requires Seqs.Distinct(articles)
    ensures Seqs.Distinct(RelatedArticles(articles, articleId))
  {
    var i := IndexById(articles, articleId);
    if i >= 0 && articles[i].relatedArticles.Some? {
      Seqs.FilterDistinct(articles, ListedIn(articles[i].relatedArticles.value));
    }
  }

  /** The seed ids, and the seed slugs, are pairwise distinct. */
  lemma SeedKeysDistinct()
    ensures forall i, j :: 0 <= i < j < |MockArticles| ==> MockArticles[i].id != MockArticles[j].id
    ensures forall i, j :: 0 <= i < j < |MockArticles| ==> MockArticles[i].slug != MockArticles[j].slug
    ensures forall i, j :: 0 <= i < j < |Categories| ==> Categories[i].slug != Categories[j].slug
  {
  }

  /** The featured seed articles are the first three. */
  lemma SeedFeatured()
    ensures FeaturedArticles(MockArticles) == MockArticles[..3]
  {
    var s := MockArticles;
    assert s == s[..3] + s[3..];
    Seqs.FilterAppend(s[..3], s[3..], IsFeatured);
    Seqs.FilterAll(s[..3], IsFeatured);
    Seqs.FilterNone(s[3..], IsFeatured);
  }
}
