/** The author store (lib/stores/authorStore.ts): the `authors` list with its create,
    merge-update, soft delete and restore, the getters and the search, and the statistics
    over a list of article author ids. */
module AuthorStore {

  import opened Wrappers
  import opened Types
  import Seqs
  import Text

  // ---------------------------------------------------------------------
  // Getters
  // ---------------------------------------------------------------------

  function ById(id: string): Author -> bool
  {
    (a: Author) => a.id == id
  }

  function BySlug(slug: string): Author -> bool
  {
    (a: Author) => a.slug == slug
  }

  /** `getAuthorById(id)`: the first author with that id, deleted or not. */
  function AuthorById(authors: seq<Author>, id: string): (r: Option<Author>)
    ensures r.None? <==> forall a :: a in authors ==> a.id != id
    ensures r.Some? ==> exists i :: 0 <= i < |authors| && authors[i] == r.value && r.value.id == id
                                  && forall j :: 0 <= j < i ==> authors[j].id != id
  {
    var i := Seqs.FindIndex(authors, ById(id));
    if i < 0 then None else Some(authors[i])
  }

  /** `getAuthorBySlug(slug)`: the first author with that slug. */
  function AuthorBySlug(authors: seq<Author>, slug: string): (r: Option<Author>)
    ensures r.None? <==> forall a :: a in authors ==> a.slug != slug
    ensures r.Some? ==> exists i :: 0 <= i < |authors| && authors[i] == r.value && r.value.slug == slug
                                  && forall j :: 0 <= j < i ==> authors[j].slug != slug
  {
    var i := Seqs.FindIndex(authors, BySlug(slug));
    if i < 0 then None else Some(authors[i])
  }

  function IsActive(a: Author): bool { !a.isDeleted }
  function IsDeleted(a: Author): bool { a.isDeleted }

  /** `getActiveAuthors()`. */
  function ActiveAuthors(authors: seq<Author>): seq<Author>
  {
    Seqs.Filter(authors, IsActive)
  }

  /** `getDeletedAuthors()`. */
  function DeletedAuthors(authors: seq<Author>): seq<Author>
  {
    Seqs.Filter(authors, IsDeleted)
  }

  /** The active and the deleted authors split the list: each keeps list order, each
      holds exactly its kind, and together they hold every author as often as the list
      does. */
  lemma ActiveDeletedPartition(authors: seq<Author>)
    ensures Seqs.IsSubseq(ActiveAuthors(authors), authors)
    ensures Seqs.IsSubseq(DeletedAuthors(authors), authors)
    ensures forall a :: a in ActiveAuthors(authors) <==> a in authors && !a.isDeleted
    ensures forall a :: a in DeletedAuthors(authors) <==> a in authors && a.isDeleted
    ensures multiset(ActiveAuthors(authors)) + multiset(DeletedAuthors(authors)) == multiset(authors)
    ensures |ActiveAuthors(authors)| + |DeletedAuthors(authors)| == |authors|
  {
    forall a ensures multiset(ActiveAuthors(authors))[a] + multiset(DeletedAuthors(authors))[a] == multiset(authors)[a] {
      Seqs.FilterCount(authors, IsActive, a);
      Seqs.FilterCount(authors, IsDeleted, a);
    }
    Seqs.FilterPartition(authors, IsActive, IsDeleted);
  }

  // ---------------------------------------------------------------------
  // searchAuthors
  // ---------------------------------------------------------------------

  /** Both names, both bios and the slug, ignoring case. */
  predicate AuthorMatches(a: Author, query: string)
  {
    || Text.Matches(a.name.en, query) || Text.Matches(a.name.dv, query)
    || Text.Matches(a.bio.en, query) || Text.Matches(a.bio.dv, query)
    || Text.Matches(a.slug, query)
  }

  function MatchesQuery(query: string): Author -> bool
  {
    (a: Author) => AuthorMatches(a, query)
  }

  /** `searchAuthors(query)`, over deleted and active authors alike. */
  function SearchAuthors(authors: seq<Author>, query: string): (r: seq<Author>)
    ensures Seqs.IsSubseq(r, authors)
    ensures forall a :: a in r <==> a in authors && AuthorMatches(a, query)
  {
    Seqs.Filter(authors, MatchesQuery(query))
  }

  /** The empty query matches every author. */
  lemma SearchAuthorsEmptyQuery(authors: seq<Author>)
    ensures SearchAuthors(authors, "") == authors
  {
    forall a | a in authors ensures AuthorMatches(a, "") {
      Text.ContainsEmpty(Text.Lower(a.slug));
    }
    Seqs.FilterAll(authors, MatchesQuery(""));
  }

  // ---------------------------------------------------------------------
  // Updates
  // ---------------------------------------------------------------------

  /** `Partial<Author>`: `Some` for each key the update object carries. */
  datatype AuthorPatch = AuthorPatch(
    id: Option<string>,
    slug: Option<string>,
    name: Option<BilingualText>,
    bio: Option<BilingualText>,
    photo: Option<string>,
    socialLinks: Option<Option<SocialLinks>>,
    createdAt: Option<Option<int>>,
    isDeleted: Option<bool>)

  function Or<T>(o: Option<T>, d: T): T
  {
    if o.Some? then o.value else d
  }

  /** `{ ...author, ...updates }`. */
  function Merge(a: Author, u: AuthorPatch): Author
  {
    Author(Or(u.id, a.id), Or(u.slug, a.slug), Or(u.name, a.name), Or(u.bio, a.bio),
           Or(u.photo, a.photo), Or(u.socialLinks, a.socialLinks), Or(u.createdAt, a.createdAt),
           Or(u.isDeleted, a.isDeleted))
  }

  function MergeIf(a: Author, id: string, u: AuthorPatch): Author
  {
    if a.id == id then Merge(a, u) else a
  }

  /** The list after `updateAuthor(id, updates)`. */
  function Updated(authors: seq<Author>, id: string, u: AuthorPatch): (r: seq<Author>)
    ensures |r| == |authors|
  {
    seq(|authors|, i requires 0 <= i < |authors| => MergeIf(authors[i], id, u))
  }

  /** Only the authors with that id take the update, the others stay as they were, and
      an unknown id leaves the list unchanged. */
  lemma UpdatedSpec(authors: seq<Author>, id: string, u: AuthorPatch)
    ensures forall i :: 0 <= i < |authors| && authors[i].id == id ==> Updated(authors, id, u)[i] == Merge(authors[i], u)
    ensures forall i :: 0 <= i < |authors| && authors[i].id != id ==> Updated(authors, id, u)[i] == authors[i]
    ensures (forall a :: a in authors ==> a.id != id) ==> Updated(authors, id, u) == authors
  {
  }

  function FlagIf(a: Author, id: string, deleted: bool): Author
  {
    if a.id == id then a.(isDeleted := deleted) else a
  }

  /** The list after `softDeleteAuthor(id)` (`deleted` true) or `restoreAuthor(id)`. */
  function WithDeleted(authors: seq<Author>, id: string, deleted: bool): (r: seq<Author>)
    ensures |r| == |authors|
  {
    seq(|authors|, i requires 0 <= i < |authors| => FlagIf(authors[i], id, deleted))
  }

  /** Only the flag of the authors with that id changes; setting it twice is setting it
      once; and the last of a delete and a restore decides. */
  lemma WithDeletedSpec(authors: seq<Author>, id: string, deleted: bool)
    ensures forall i :: 0 <= i < |authors| && authors[i].id == id ==>
      WithDeleted(authors, id, deleted)[i] == authors[i].(isDeleted := deleted)
    ensures forall i :: 0 <= i < |authors| && authors[i].id != id ==> WithDeleted(authors, id, deleted)[i] == authors[i]
    ensures WithDeleted(WithDeleted(authors, id, deleted), id, deleted) == WithDeleted(authors, id, deleted)
    ensures WithDeleted(WithDeleted(authors, id, !deleted), id, deleted) == WithDeleted(authors, id, deleted)
  {
  }

  /** Restoring a deleted author gives the list back when its flag was clear before. */
  lemma DeleteThenRestore(authors: seq<Author>, id: string)
    requires forall a :: a in authors && a.id == id ==> !a.isDeleted
    ensures WithDeleted(WithDeleted(authors, id, true), id, false) == authors
  {
    WithDeletedSpec(authors, id, false);
    assert WithDeleted(authors, id, false) == authors;
  }

  /** `new Date('2024-01-01')`, the creation time the seed authors fall back on. */
  const SeedCreatedAt := 1704067200000

  function Seeded(a: Author): Author
  {
    a.(createdAt := Some(Or(a.createdAt, SeedCreatedAt)))
  }

  class AuthorStore {
    var authors: seq<Author>
    var searchQuery: string

    /** The seed authors, each with a creation time, and an empty query. */
    constructor(seed: seq<Author>)
      ensures |authors| == |seed|
      ensures forall i :: 0 <= i < |seed| ==> authors[i] == Seeded(seed[i]) && authors[i].createdAt.Some?
      ensures searchQuery == ""
    {
      authors := seq(|seed|, i requires 0 <= i < |seed| => Seeded(seed[i]));
      searchQuery := "";
    }

    /** `setSearchQuery(query)`. */
    method SetSearchQuery(query: string)
      modifies this
      ensures searchQuery == query && authors == old(authors)
    {
      searchQuery := query;
    }

    /** `createAuthor(author)`: appended, not deleted, created now, whatever the input
        carried. */
    method CreateAuthor(author: Author, now: int)
      modifies this
      ensures authors == old(authors) + [author.(createdAt := Some(now), isDeleted := false)]
      ensures searchQuery == old(searchQuery)
    {
      authors := authors + [author.(createdAt := Some(now), isDeleted := false)];
    }

    /** `updateAuthor(id, updates)`. */
    method UpdateAuthor(id: string, u: AuthorPatch)
      modifies this
      ensures authors == Updated(old(authors), id, u)
      ensures searchQuery == old(searchQuery)
    {
      authors := Updated(authors, id, u);
    }

    /** `softDeleteAuthor(id)`. */
    method SoftDeleteAuthor(id: string)
      modifies this
      ensures authors == WithDeleted(old(authors), id, true)
      ensures searchQuery == old(searchQuery)
    {
      authors := WithDeleted(authors, id, true);
    }

    /** `restoreAuthor(id)`. */
    method RestoreAuthor(id: string)
      modifies this
      ensures authors == WithDeleted(old(authors), id, false)
      ensures searchQuery == old(searchQuery)
    {
      authors := WithDeleted(authors, id, false);
    }

    /** `getAuthorStats(articlesData)`, without the clock-dependent and floating-point
        figures; `data` holds each article's author id. */
    method GetAuthorStats(data: seq<string>) returns (r: AuthorStats)
      ensures r.totalAuthors == |authors|
      ensures r.activeAuthors == |ActiveAuthors(authors)| && r.deletedAuthors == |DeletedAuthors(authors)|
      ensures r.totalAuthors == r.activeAuthors + r.deletedAuthors
      ensures data == [] ==> r.topContributor == TopContributor(None, 0)
      ensures data != [] ==> exists t :: IsTop(data, t) && r.topContributor == TopOutcome(authors, data, t)
    {
      ActiveDeletedPartition(authors);
      var top := TopContributorOf(authors, data);
      r := AuthorStats(|authors|, |ActiveAuthors(authors)|, |DeletedAuthors(authors)|, top);
    }
  }

  // ---------------------------------------------------------------------
  // Statistics
  // ---------------------------------------------------------------------

  datatype TopContributor = TopContributor(author: Option<Author>, articleCount: nat)

  datatype AuthorStats = AuthorStats(totalAuthors: nat, activeAuthors: nat, deletedAuthors: nat,
                                     topContributor: TopContributor)

  function IsId(id: string): string -> bool
  {
    (x: string) => x == id
  }

  /** `getAuthorArticleCount(authorId, articlesData)`. */
  function AuthorArticleCount(data: seq<string>, id: string): (n: nat)
    ensures n == multiset(data)[id]
  {
    FilterIdCount(data, id);
    |Seqs.Filter(data, IsId(id))|
  }

  lemma {:induction false} FilterIdCount(data: seq<string>, id: string)
    ensures |Seqs.Filter(data, IsId(id))| == multiset(data)[id]
  {
    if data != [] {
      FilterIdCount(data[1..], id);
      assert data == [data[0]] + data[1..];
    }
  }

  /** `t` is the id the source picks: it has the most entries, and every id whose first
      entry comes earlier has strictly fewer (the counting Map keeps first-entry order and
      only a strictly greater count replaces the leader). */
  predicate IsTop(data: seq<string>, t: string)
  {
    && t in data
    && (forall x :: x in data ==> multiset(data)[x] <= multiset(data)[t])
    && (forall j :: 0 <= j < Seqs.IndexOf(data, t) ==> multiset(data)[data[j]] < multiset(data)[t])
  }

  /** There is only one such id. */
  lemma TopUnique(data: seq<string>, t1: string, t2: string)
    requires IsTop(data, t1) && IsTop(data, t2)
    ensures t1 == t2
  {
    var k1, k2 := Seqs.IndexOf(data, t1), Seqs.IndexOf(data, t2);
    assert multiset(data)[t1] == multiset(data)[t2];
    assert k1 < k2 ==> multiset(data)[data[k1]] < multiset(data)[t2];
    assert k2 < k1 ==> multiset(data)[data[k2]] < multiset(data)[t1];
  }

  /** What `topContributor` is once the leading id `t` is known: nothing for the empty id
      or an id that names no author, else the first author with that id and its count. */
  function TopOutcome(authors: seq<Author>, data: seq<string>, t: string): TopContributor
  {
    if t != "" && AuthorById(authors, t).Some? then TopContributor(AuthorById(authors, t), multiset(data)[t])
    else TopContributor(None, 0)
  }

  /** The first position of `s[j]` is at most `j`. */
  lemma {:induction false} IndexOfAtMost(s: seq<string>, j: nat)
    requires j < |s|
    ensures Seqs.IndexOf(s, s[j]) <= j
  {
    if s[0] != s[j] {
      assert s[1..][j - 1] == s[j];
      IndexOfAtMost(s[1..], j - 1);
    }
  }

  /** A position whose element does not occur before it is that element's first. */
  lemma {:induction false} IndexOfFresh(s: seq<string>, j: nat)
    requires j < |s| && s[j] !in s[..j]
    ensures Seqs.IndexOf(s, s[j]) == j
  {
    if j > 0 {
      assert s[0] == s[..j][0];
      assert s[1..][j - 1] == s[j];
      assert s[1..][..j - 1] == s[1..j];
      assert forall x :: x in s[1..j] ==> x in s[..j];
      IndexOfFresh(s[1..], j - 1);
    }
  }

  /** The counting Map after `articlesData.forEach`: `counts` holds each id's number of
      entries, and `order` its keys in the order of their first entry. */
  ghost predicate Tallied(data: seq<string>, counts: map<string, nat>, order: seq<string>)
  {
    && (forall x :: x in counts <==> x in data)
    && (forall x :: x in order <==> x in data)
    && (forall x :: x in counts ==> counts[x] == multiset(data)[x])
    && (forall a, b :: 0 <= a < b < |order| ==> Seqs.IndexOf(data, order[a]) < Seqs.IndexOf(data, order[b]))
  }

  /** The counting Map after the first `i` entries. */
  ghost predicate TalliedPrefix(data: seq<string>, i: nat, counts: map<string, nat>, order: seq<string>)
    requires i <= |data|
  {
    && (forall x :: x in counts <==> x in data[..i])
    && (forall x :: x in counts ==> counts[x] == multiset(data[..i])[x])
    && OrderedFirsts(data, i, order)
  }

  /** `order` holds the ids of the first `i` entries in the order of their first entry. */
  ghost predicate OrderedFirsts(data: seq<string>, i: nat, order: seq<string>)
    requires i <= |data|
  {
    && (forall x :: x in order <==> x in data[..i])
    && (forall a, b :: 0 <= a < b < |order| ==> Seqs.IndexOf(data, order[a]) < Seqs.IndexOf(data, order[b]))
    && (forall a :: 0 <= a < |order| ==> Seqs.IndexOf(data, order[a]) < i)
  }

  /** One more entry counted. */
  lemma CountStep(data: seq<string>, i: nat, counts: map<string, nat>)
    requires i < |data|
    requires forall x :: x in counts <==> x in data[..i]
    requires forall x :: x in counts ==> counts[x] == multiset(data[..i])[x]
    ensures var c := counts[data[i] := (if data[i] in counts then counts[data[i]] else 0) + 1];
      && (forall x :: x in c <==> x in data[..i + 1])
      && (forall x :: x in c ==> c[x] == multiset(data[..i + 1])[x])
  {
    assert data[..i + 1] == data[..i] + [data[i]];
  }

  /** One more entry seen: a new id goes to the end of the order. */
  lemma OrderStep(data: seq<string>, i: nat, order: seq<string>)
    requires i < |data| && OrderedFirsts(data, i, order)
    ensures OrderedFirsts(data, i + 1, if data[i] in data[..i] then order else order + [data[i]])
  {
    assert data[..i + 1] == data[..i] + [data[i]];
    if data[i] !in data[..i] {
      IndexOfFresh(data, i);
    }
  }

  /** The first `forEach`: one pass over the entries, adding a key on its first entry. */
  method CountEntries(data: seq<string>) returns (counts: map<string, nat>, order: seq<string>)
    ensures Tallied(data, counts, order)
  {
    counts := map[];
    order := [];
    var i := 0;
    while i < |data|
      invariant 0 <= i <= |data|
      invariant TalliedPrefix(data, i, counts, order)
    {
      var id := data[i];
      var c := if id in counts then counts[id] else 0;
      OrderStep(data, i, order);
      CountStep(data, i, counts);
      if id !in counts {
        order := order + [id];
      }
      counts := counts[id := c + 1];
      i := i + 1;
    }
    assert data[..i] == data;
  }

  /** The second `forEach`: over the keys in Map order, a count replaces the leader only
      when it is strictly greater. */
  method Leader(ghost data: seq<string>, counts: map<string, nat>, order: seq<string>)
    returns (maxCount: nat, topId: string)
    requires Tallied(data, counts, order) && data != []
    ensures IsTop(data, topId) && maxCount == multiset(data)[topId]
  {
    maxCount := 0;
    topId := "";
    var k := 0;
    assert data[0] in data;
    while k < |order|
      invariant 0 <= k <= |order|
      invariant k == 0 ==> maxCount == 0
      invariant k > 0 ==> topId in order[..k] && counts[topId] == maxCount
      invariant forall j :: 0 <= j < k ==> counts[order[j]] <= maxCount
      invariant forall j :: 0 <= j < k && Seqs.IndexOf(data, order[j]) < Seqs.IndexOf(data, topId) ==>
        counts[order[j]] < maxCount
    {
      var key := order[k];
      assert key in data && multiset(data)[key] > 0;
      if counts[key] > maxCount {
        maxCount := counts[key];
        topId := key;
      }
      k := k + 1;
    }
    LeaderIsTop(data, counts, order, topId);
  }

  /** The key kept by the whole pass is the top id. */
  lemma LeaderIsTop(data: seq<string>, counts: map<string, nat>, order: seq<string>, topId: string)
    requires Tallied(data, counts, order) && order != []
    requires topId in order && forall j :: 0 <= j < |order| ==> counts[order[j]] <= counts[topId]
    requires forall j :: 0 <= j < |order| && Seqs.IndexOf(data, order[j]) < Seqs.IndexOf(data, topId) ==>
      counts[order[j]] < counts[topId]
    ensures IsTop(data, topId)
  {
    forall x | x in data ensures multiset(data)[x] <= multiset(data)[topId] {
      var j :| 0 <= j < |order| && order[j] == x;
    }
    forall j | 0 <= j < Seqs.IndexOf(data, topId) ensures multiset(data)[data[j]] < multiset(data)[topId] {
      IndexOfAtMost(data, j);
      assert data[j] in data;
      var m :| 0 <= m < |order| && order[m] == data[j];
    }
  }

  /** The top contributor: count the entries per id, find the leading id, then look the
      author up; the empty id and an id that names no author give nobody. */
  method TopContributorOf(authors: seq<Author>, data: seq<string>) returns (top: TopContributor)
    ensures data == [] ==> top == TopContributor(None, 0)
    ensures data != [] ==> exists t :: IsTop(data, t) && top == TopOutcome(authors, data, t)
  {
    top := TopContributor(None, 0);
    if |data| > 0 {
      var counts, order := CountEntries(data);
      var maxCount, topId := Leader(data, counts, order);
      if topId != "" {
        var found := AuthorById(authors, topId);
        if found.Some? {
          top := TopContributor(found, maxCount);
        }
      }
      assert IsTop(data, topId) && top == TopOutcome(authors, data, topId);
    }
  }

  /** The top contributor's count is what `getAuthorArticleCount` gives for that author,
      and no author has more entries. */
  lemma TopAgreesWithArticleCount(authors: seq<Author>, data: seq<string>, t: string)
    requires IsTop(data, t)
    ensures TopOutcome(authors, data, t).author.Some? ==>
      TopOutcome(authors, data, t).articleCount == AuthorArticleCount(data, TopOutcome(authors, data, t).author.value.id)
    ensures forall a :: a in authors ==> AuthorArticleCount(data, a.id) <= multiset(data)[t]
  {
  }
}
