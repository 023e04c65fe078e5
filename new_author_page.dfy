/** The new-author page (app/admin/authors/new/page.tsx): the slugs the form must avoid,
    the fresh id, and the one `createAuthor` call of its submit handler. */
module NewAuthorPage {

  import opened Wrappers
  import opened Types
  import Seqs
  import JsNumber
  import AuthorStore
  import AuthorForm
  import AuthorsPage

  /** `existingSlugs`: the slug of every author, soft-deleted ones included. */
  function ExistingSlugs(authors: seq<Author>): (r: seq<string>)
    ensures |r| == |authors|
    ensures forall i :: 0 <= i < |authors| ==> r[i] == authors[i].slug
  {
    seq(|authors|, i requires 0 <= i < |authors| => authors[i].slug)
  }

  /** `parseInt(id) || 0`: NaN (and 0) become 0. */
  function IdNumber(id: string): int
  {
    match JsNumber.ParseInt(id)
    case None => 0
    case Some(n) => n
  }

  /** `Math.max(...ids.map(id => parseInt(id) || 0), 0)`. */
  function MaxIdNumber(authors: seq<Author>): (m: nat)
    ensures forall a :: a in authors ==> IdNumber(a.id) <= m
    ensures m == 0 || exists a :: a in authors && IdNumber(a.id) == m
  {
    if authors == [] then 0
    else
      var rest := MaxIdNumber(authors[1..]);
      assert forall a :: a in authors ==> a == authors[0] || a in authors[1..];
      if IdNumber(authors[0].id) > rest then IdNumber(authors[0].id) else rest
  }

  /** `newId`: one more than the largest parsed id, written in decimal. */
  function NewId(authors: seq<Author>): string
  {
    JsNumber.Decimal(MaxIdNumber(authors) + 1)
  }

  /** The new id parses to a number above every parsed existing id, so it is none of
      them. */
  lemma NewIdFresh(authors: seq<Author>)
    ensures IdNumber(NewId(authors)) == MaxIdNumber(authors) + 1
    ensures forall a :: a in authors ==> IdNumber(a.id) < IdNumber(NewId(authors))
    ensures forall a :: a in authors ==> a.id != NewId(authors)
  {
    JsNumber.ParseDecimal(MaxIdNumber(authors) + 1);
  }

  /** When no id parses to a positive number, the new id is "1". */
  lemma NewIdWithoutNumericIds(authors: seq<Author>)
    requires forall a :: a in authors ==> IdNumber(a.id) <= 0
    ensures NewId(authors) == "1"
  {
    assert MaxIdNumber(authors) == 0;
  }

  /** The author `handleSubmit` builds from the form's data. */
  function NewAuthor(d: AuthorForm.AuthorData, id: string, now: int): Author
  {
    Author(id, d.slug, d.name, d.bio, d.photo, Some(d.socialLinks), Some(now), false)
  }

  /** `handleSubmit(authorData)`: one `createAuthor` with a fresh id; the store records the
      author, not deleted and created now. */
  method HandleSubmit(store: AuthorStore.AuthorStore, d: AuthorForm.AuthorData, now: int)
    modifies store
    ensures store.authors == old(store.authors) + [NewAuthor(d, NewId(old(store.authors)), now)]
    ensures store.searchQuery == old(store.searchQuery)
  {
    var id := NewId(store.authors);
    store.CreateAuthor(NewAuthor(d, id, now), now);
  }

  predicate UniqueAuthorSlugs(authors: seq<Author>)
  {
    forall i, j :: 0 <= i < j < |authors| ==> authors[i].slug != authors[j].slug
  }

  /** Appending an author whose id and slug are both new keeps ids and slugs unique. */
  lemma AppendKeepsAuthorsUnique(authors: seq<Author>, x: Author)
    requires AuthorsPage.UniqueAuthorIds(authors) && UniqueAuthorSlugs(authors)
    requires forall a :: a in authors ==> a.id != x.id
    requires x.slug !in ExistingSlugs(authors)
    ensures AuthorsPage.UniqueAuthorIds(authors + [x]) && UniqueAuthorSlugs(authors + [x])
  {
    var r := authors + [x];
    forall i, j | 0 <= i < j < |r| ensures r[i].id != r[j].id && r[i].slug != r[j].slug {
      if j == |authors| {
        assert r[i] in authors;
        assert ExistingSlugs(authors)[i] == r[i].slug;
      }
    }
  }

  /** A form the corrected check accepts, submitted on this page, keeps the author ids and
      slugs unique. */
  lemma SubmitKeepsAuthorsUnique(authors: seq<Author>, f: AuthorForm.Fields, now: int)
    requires AuthorsPage.UniqueAuthorIds(authors) && UniqueAuthorSlugs(authors)
    requires AuthorForm.Submit(None, ExistingSlugs(authors), f).Ok?
    ensures var r := authors + [NewAuthor(AuthorForm.Submit(None, ExistingSlugs(authors), f).value, NewId(authors), now)];
      AuthorsPage.UniqueAuthorIds(r) && UniqueAuthorSlugs(r)
  {
    var d := AuthorForm.Submit(None, ExistingSlugs(authors), f).value;
    AuthorForm.SubmitAccepted(ExistingSlugs(authors), f);
    NewIdFresh(authors);
    AppendKeepsAuthorsUnique(authors, NewAuthor(d, NewId(authors), now));
  }
}
