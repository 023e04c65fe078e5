/** The authors admin page (app/admin/authors/page.tsx): the filter mode and search that
    choose the cards, and the per-article author ids that feed the statistics. */
module AuthorsPage {

  import opened Wrappers
  import opened Types
  import Seqs
  import Text
  import AuthorStore

  datatype FilterMode = AllMode | ActiveMode | DeletedMode

  /** The page opens on the active authors with an empty search box. */
  const InitialMode: FilterMode := ActiveMode
  const InitialQuery: string := ""

  /** The list the filter mode picks. */
  function ModeList(authors: seq<Author>, mode: FilterMode): (r: seq<Author>)
    ensures Seqs.IsSubseq(r, authors)
    ensures mode == AllMode ==> r == authors
    ensures mode == ActiveMode ==> r == AuthorStore.ActiveAuthors(authors)
    ensures mode == DeletedMode ==> r == AuthorStore.DeletedAuthors(authors)
  {
    AuthorStore.ActiveDeletedPartition(authors);
    Seqs.SubseqRefl(authors);
    match mode
    case AllMode => authors
    case ActiveMode => AuthorStore.ActiveAuthors(authors)
    case DeletedMode => AuthorStore.DeletedAuthors(authors)
  }

  /** `searchResults.some(result => result.id === author.id)`. */
  function InResults(results: seq<Author>): Author -> bool
  {
    (a: Author) => exists r :: r in results && r.id == a.id
  }

  /** `getFilteredAuthors()`: with a non-blank query, the mode's authors whose id is among
      the store's search results for the query as typed. */
  function FilteredAuthors(authors: seq<Author>, mode: FilterMode, query: string): (r: seq<Author>)
    ensures Seqs.IsSubseq(r, ModeList(authors, mode))
    ensures Text.Blank(query) ==> r == ModeList(authors, mode)
    ensures !Text.Blank(query) ==> forall a :: a in r <==>
      a in ModeList(authors, mode) && exists m :: m in authors && m.id == a.id && AuthorStore.AuthorMatches(m, query)
  {
    Seqs.SubseqRefl(ModeList(authors, mode));
    if Text.Blank(query) then ModeList(authors, mode)
    else Seqs.Filter(ModeList(authors, mode), InResults(AuthorStore.SearchAuthors(authors, query)))
  }

  /** The first render lists exactly the authors that are not deleted, in store order. */
  lemma FirstRenderListsActive(authors: seq<Author>)
    ensures FilteredAuthors(authors, InitialMode, InitialQuery) == AuthorStore.ActiveAuthors(authors)
    ensures forall a :: a in FilteredAuthors(authors, InitialMode, InitialQuery) <==> a in authors && !a.isDeleted
  {
    assert Text.Blank(InitialQuery);
    AuthorStore.ActiveDeletedPartition(authors);
  }

  predicate UniqueAuthorIds(authors: seq<Author>)
  {
    forall i, j :: 0 <= i < j < |authors| ==> authors[i].id != authors[j].id
  }

  /** With unique ids, matching by id is matching the record itself: a non-blank query
      keeps exactly the mode's authors the search matches. */
  lemma FilteredAuthorsMatch(authors: seq<Author>, mode: FilterMode, query: string)
    requires UniqueAuthorIds(authors)
    requires !Text.Blank(query)
    ensures forall a :: a in FilteredAuthors(authors, mode, query) <==>
      a in ModeList(authors, mode) && AuthorStore.AuthorMatches(a, query)
  {
    var list := ModeList(authors, mode);
    forall a | a in list
      ensures (exists m :: m in authors && m.id == a.id && AuthorStore.AuthorMatches(m, query))
              <==> AuthorStore.AuthorMatches(a, query)
    {
      assert a in authors by { AuthorStore.ActiveDeletedPartition(authors); }
      if m :| m in authors && m.id == a.id && AuthorStore.AuthorMatches(m, query) {
        var i :| 0 <= i < |authors| && authors[i] == m;
        var j :| 0 <= j < |authors| && authors[j] == a;
        assert i == j;
      }
    }
  }

  /** `articles.map(a => ({ authorId: a.author.id }))`. */
  function ArticlesData(articles: seq<Article>): (r: seq<string>)
    ensures |r| == |articles|
    ensures forall i :: 0 <= i < |articles| ==> r[i] == articles[i].author.id
  {
    seq(|articles|, i requires 0 <= i < |articles| => articles[i].author.id)
  }

  function WrittenBy(id: string): Article -> bool
  {
    (a: Article) => a.author.id == id
  }

  /** The count on each author card is the number of articles by that author. */
  lemma {:induction false} CardCountIsArticleCount(articles: seq<Article>, id: string)
    ensures AuthorStore.AuthorArticleCount(ArticlesData(articles), id) == Seqs.Count(articles, WrittenBy(id))
  {
    if articles != [] {
      CardCountIsArticleCount(articles[1..], id);
      var data := ArticlesData(articles);
      assert data == [articles[0].author.id] + ArticlesData(articles[1..]);
    }
  }
}
