/** The article store (lib/stores/articleStore.ts): the `articles` list with its append and
    status update, the getters and the text search; and the store operations the admin
    pages call that this store does not define, which the model records as calls. */
module ArticleStore {

  import opened Wrappers
  import opened Types
  import Seqs
  import Text

  // ---------------------------------------------------------------------
  // Getters
  // ---------------------------------------------------------------------

  function InCategorySlug(slug: string): Article -> bool
  {
    (a: Article) => a.category.slug == slug
  }

  /** `getArticlesByCategory(slug)`. */
  function ArticlesByCategory(articles: seq<Article>, slug: string): (r: seq<Article>)
    ensures Seqs.IsSubseq(r, articles)
    ensures forall a :: a in r <==> a in articles && a.category.slug == slug
  {
    Seqs.Filter(articles, InCategorySlug(slug))
  }

  function BySlug(slug: string): Article -> bool
  {
    (a: Article) => a.slug == slug
  }

  /** `getArticleBySlug(slug)`: the first article with that slug. */
  function ArticleBySlug(articles: seq<Article>, slug: string): (r: Option<Article>)
    ensures r.None? <==> forall a :: a in articles ==> a.slug != slug
    ensures r.Some? ==> exists i :: 0 <= i < |articles| && articles[i] == r.value && r.value.slug == slug
                                  && forall j :: 0 <= j < i ==> articles[j].slug != slug
  {
    var i := Seqs.FindIndex(articles, BySlug(slug));
    if i < 0 then None else Some(articles[i])
  }

  function IsFeatured(a: Article): bool { a.featured }

  /** `getFeaturedArticles()`. */
  function FeaturedArticles(articles: seq<Article>): (r: seq<Article>)
    ensures Seqs.IsSubseq(r, articles)
    ensures forall a :: a in r <==> a in articles && a.featured
  {
    Seqs.Filter(articles, IsFeatured)
  }

  function IsDraft(a: Article): bool { a.status == Some(Draft) }
  function IsPublishedArticle(a: Article): bool { IsPublished(a) }

  /** `getDraftArticles()`. */
  function DraftArticles(articles: seq<Article>): seq<Article>
  {
    Seqs.Filter(articles, IsDraft)
  }

  /** `getPublishedArticles()`: an article without a status counts as published. */
  function PublishedArticles(articles: seq<Article>): seq<Article>
  {
    Seqs.Filter(articles, IsPublishedArticle)
  }

  /** The drafts and the published articles are order-preserving selections with no
      article in common; scheduled articles are in neither. */
  lemma DraftsAndPublished(articles: seq<Article>)
    ensures Seqs.IsSubseq(DraftArticles(articles), articles)
    ensures Seqs.IsSubseq(PublishedArticles(articles), articles)
    ensures forall a :: a in DraftArticles(articles) <==> a in articles && a.status == Some(Draft)
    ensures forall a :: a in PublishedArticles(articles) <==>
      a in articles && (a.status == Some(Published) || a.status.None?)
    ensures forall a :: !(a in DraftArticles(articles) && a in PublishedArticles(articles))
    ensures forall a :: a in articles && a.status == Some(Scheduled) ==>
      a !in DraftArticles(articles) && a !in PublishedArticles(articles)
  {
  }

  // ---------------------------------------------------------------------
  // searchArticles
  // ---------------------------------------------------------------------

  function AnyTagMatches(tags: seq<BilingualText>, query: string): bool
  {
    exists i :: 0 <= i < |tags| && (Text.Matches(tags[i].en, query) || Text.Matches(tags[i].dv, query))
  }

  /** The fields `searchArticles` looks in: both titles, both summaries, both category
      names, both author names and, when there are tags, both sides of each tag. */
  predicate ArticleMatches(a: Article, query: string)
  {
    || Text.Matches(a.title.en, query) || Text.Matches(a.title.dv, query)
    || Text.Matches(a.summary.en, query) || Text.Matches(a.summary.dv, query)
    || Text.Matches(a.category.name.en, query) || Text.Matches(a.category.name.dv, query)
    || Text.Matches(a.author.name.en, query) || Text.Matches(a.author.name.dv, query)
    || (a.tags.Some? && AnyTagMatches(a.tags.value, query))
  }

  function MatchesQuery(query: string): Article -> bool
  {
    (a: Article) => ArticleMatches(a, query)
  }

  /** `searchArticles(query)`. */
  function SearchArticles(articles: seq<Article>, query: string): (r: seq<Article>)
    ensures Seqs.IsSubseq(r, articles)
    ensures forall a :: a in r <==> a in articles && ArticleMatches(a, query)
  {
    Seqs.Filter(articles, MatchesQuery(query))
  }

  /** The empty query matches every article. */
  lemma SearchEmptyQuery(articles: seq<Article>)
    ensures SearchArticles(articles, "") == articles
  {
    forall a | a in articles ensures ArticleMatches(a, "") {
      Text.ContainsEmpty(Text.Lower(a.title.en));
    }
    Seqs.FilterAll(articles, MatchesQuery(""));
  }

  /** Extending the query narrows the result: whatever matches a query that contains
      `shorter` (ignoring case) also matches `shorter`. */
  lemma SearchNarrows(articles: seq<Article>, shorter: string, longer: string)
    requires Text.Contains(Text.Lower(longer), Text.Lower(shorter))
    ensures forall a :: a in SearchArticles(articles, longer) ==> a in SearchArticles(articles, shorter)
  {
    forall a | a in SearchArticles(articles, longer) ensures ArticleMatches(a, shorter) {
      MatchNarrows(a, shorter, longer);
    }
  }

  lemma MatchNarrows(a: Article, shorter: string, longer: string)
    requires Text.Contains(Text.Lower(longer), Text.Lower(shorter))
    requires ArticleMatches(a, longer)
    ensures ArticleMatches(a, shorter)
  {
    var fields := [a.title.en, a.title.dv, a.summary.en, a.summary.dv,
                   a.category.name.en, a.category.name.dv, a.author.name.en, a.author.name.dv];
    forall f | f in fields && Text.Matches(f, longer) ensures Text.Matches(f, shorter) {
      Text.ContainsTrans(Text.Lower(f), Text.Lower(longer), Text.Lower(shorter));
    }
    if a.tags.Some? && AnyTagMatches(a.tags.value, longer) {
      var t := a.tags.value;
      var i :| 0 <= i < |t| && (Text.Matches(t[i].en, longer) || Text.Matches(t[i].dv, longer));
      if Text.Matches(t[i].en, longer) {
        Text.ContainsTrans(Text.Lower(t[i].en), Text.Lower(longer), Text.Lower(shorter));
      } else {
        Text.ContainsTrans(Text.Lower(t[i].dv), Text.Lower(longer), Text.Lower(shorter));
      }
    }
  }

  // ---------------------------------------------------------------------
  // The store
  // ---------------------------------------------------------------------

  function SetStatus(a: Article, id: string, s: ArticleStatus): Article
  {
    if a.id == id then a.(status := Some(s)) else a
  }

  /** `articles.map(a => a.id === id ? { ...a, status } : a)`. */
  function WithStatus(articles: seq<Article>, id: string, s: ArticleStatus): (r: seq<Article>)
    ensures |r| == |articles|
  {
    seq(|articles|, i requires 0 <= i < |articles| => SetStatus(articles[i], id, s))
  }

  /** Only the articles with that id change, and only in their status; an unknown id
      leaves the list as it was; setting the same status again changes nothing more. */
  lemma WithStatusSpec(articles: seq<Article>, id: string, s: ArticleStatus)
    ensures forall i :: 0 <= i < |articles| && articles[i].id == id ==>
      WithStatus(articles, id, s)[i] == articles[i].(status := Some(s))
    ensures forall i :: 0 <= i < |articles| && articles[i].id != id ==> WithStatus(articles, id, s)[i] == articles[i]
    ensures (forall a :: a in articles ==> a.id != id) ==> WithStatus(articles, id, s) == articles
    ensures WithStatus(WithStatus(articles, id, s), id, s) == WithStatus(articles, id, s)
  {
  }

  class ArticleStore {
    var articles: seq<Article>
    var categories: seq<Category>
    var selectedCategory: Option<string>
    var searchQuery: string

    /** The store as created: the seed lists, no category chosen, an empty query. */
    constructor(seedArticles: seq<Article>, seedCategories: seq<Category>)
      ensures articles == seedArticles && categories == seedCategories
      ensures selectedCategory.None? && searchQuery == ""
    {
      articles := seedArticles;
      categories := seedCategories;
      selectedCategory := None;
      searchQuery := "";
    }

    /** `setSelectedCategory(slug)`. */
    method SetSelectedCategory(slug: Option<string>)
      modifies this
      ensures selectedCategory == slug
      ensures articles == old(articles) && categories == old(categories) && searchQuery == old(searchQuery)
    {
      selectedCategory := slug;
    }

    /** `setSearchQuery(query)`. */
    method SetSearchQuery(query: string)
      modifies this
      ensures searchQuery == query
      ensures articles == old(articles) && categories == old(categories)
      ensures selectedCategory == old(selectedCategory)
    {
      searchQuery := query;
    }

    /** `createArticle(article)`: appended at the end, with no check of id or slug. */
    method CreateArticle(article: Article)
      modifies this
      ensures articles == old(articles) + [article]
      ensures categories == old(categories) && selectedCategory == old(selectedCategory)
      ensures searchQuery == old(searchQuery)
    {
      articles := articles + [article];
    }

    /** `updateArticleStatus(id, status)`; the source accepts 'draft' and 'published'. */
    method UpdateArticleStatus(id: string, s: ArticleStatus)
      requires s == Draft || s == Published
      modifies this
      ensures articles == WithStatus(old(articles), id, s)
      ensures categories == old(categories) && selectedCategory == old(selectedCategory)
      ensures searchQuery == old(searchQuery)
    {
      articles := WithStatus(articles, id, s);
    }
  }

  // ---------------------------------------------------------------------
  // Operations defined outside this store
  // ---------------------------------------------------------------------

  /** A call the admin pages make to an article-store operation that
      lib/stores/articleStore.ts does not define; the model records the call and its
      arguments and does not interpret it. */
  datatype StoreCall =
    | UpdateArticle(id: string, scheduledFor: int, status: ArticleStatus)
    | BulkUpdateStatus(ids: seq<string>, status: ArticleStatus)
    | BulkDelete(ids: seq<string>)
    | ReassignCategoryForArticles(ids: seq<string>, categoryId: string)
}
