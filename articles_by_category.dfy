/** The folder view of a category's articles (components/admin/ArticlesByCategory.tsx):
    the articles filed under the category, grouped by status, and the folder's expand
    state. */
module ArticlesByCategory {

  import opened Wrappers
  import opened Types
  import Seqs
  import CategoryTreeView

  function InCategory(category: Category): Article -> bool
  {
    (a: Article) => a.category.id == category.id
  }

  /** `categoryArticles`. */
  function CategoryArticles(articles: seq<Article>, category: Category): (r: seq<Article>)
    ensures Seqs.IsSubseq(r, articles)
    ensures forall a :: a in r <==> a in articles && a.category.id == category.id
  {
    Seqs.Filter(articles, InCategory(category))
  }

  datatype Groups = Groups(published: seq<Article>, scheduled: seq<Article>, draft: seq<Article>)

  function IsPublishedArticle(a: Article): bool { IsPublished(a) }
  function IsScheduled(a: Article): bool { a.status == Some(Scheduled) }
  function IsDraft(a: Article): bool { a.status == Some(Draft) }

  /** `groupedArticles`. */
  function Grouped(inCategory: seq<Article>): Groups
  {
    Groups(Seqs.Filter(inCategory, IsPublishedArticle), Seqs.Filter(inCategory, IsScheduled),
           Seqs.Filter(inCategory, IsDraft))
  }

  /** The three groups keep the category's order, share no article, and between them
      hold every article of the category (every status is one of the three). */
  lemma {:induction false} GroupedPartition(inCategory: seq<Article>)
    ensures var g := Grouped(inCategory);
      && Seqs.IsSubseq(g.published, inCategory)
      && Seqs.IsSubseq(g.scheduled, inCategory)
      && Seqs.IsSubseq(g.draft, inCategory)
      && (forall a :: a in g.published <==> a in inCategory && (a.status == Some(Published) || a.status.None?))
      && (forall a :: !(a in g.published && a in g.scheduled))
      && (forall a :: !(a in g.published && a in g.draft))
      && (forall a :: !(a in g.scheduled && a in g.draft))
      && |g.published| + |g.scheduled| + |g.draft| == |inCategory|
  {
    if inCategory != [] {
      GroupedPartition(inCategory[1..]);
      var a := inCategory[0];
      assert IsPublishedArticle(a) || IsScheduled(a) || IsDraft(a) by {
        if a.status.Some? {
          match a.status.value
          case Published =>
          case Draft =>
          case Scheduled =>
        }
      }
    }
  }

  /** What the component shows: nothing for a category without articles, otherwise the
      three groups. */
  function Shown(articles: seq<Article>, category: Category): (r: Option<Groups>)
    ensures r.None? <==> forall a :: a in articles ==> a.category.id != category.id
  {
    var inCategory := CategoryArticles(articles, category);
    if |inCategory| == 0 then None
    else
      assert inCategory[0] in inCategory;
      Some(Grouped(inCategory))
  }

  /** The folder's state. `externalExpanded` and `hasOnToggle` are the optional props. */
  class Folder {
    const externalExpanded: Option<bool>
    const hasOnToggle: bool
    var internalExpanded: bool
    var expandedStatus: set<string>

    constructor(externalExpanded: Option<bool>, hasOnToggle: bool)
      ensures this.externalExpanded == externalExpanded && this.hasOnToggle == hasOnToggle
      ensures !internalExpanded && expandedStatus == {}
    {
      this.externalExpanded := externalExpanded;
      this.hasOnToggle := hasOnToggle;
      internalExpanded := false;
      expandedStatus := {};
    }

    /** `isExpanded`: a given prop wins over the internal flag. */
    function IsExpanded(): (b: bool)
      reads this
      ensures externalExpanded.Some? ==> b == externalExpanded.value
      ensures externalExpanded.None? ==> b == internalExpanded
    {
      if externalExpanded.Some? then externalExpanded.value else internalExpanded
    }

    /** `handleToggle()`: hands the click to `onToggle` when there is one (the result
        says so), otherwise flips the internal flag. */
    method HandleToggle() returns (calledOnToggle: bool)
      modifies this
      ensures calledOnToggle == hasOnToggle
      ensures internalExpanded == if hasOnToggle then old(internalExpanded) else !old(internalExpanded)
      ensures expandedStatus == old(expandedStatus)
    {
      calledOnToggle := hasOnToggle;
      if !hasOnToggle {
        internalExpanded := !internalExpanded;
      }
    }

    /** `toggleStatusGroup(status)`: only that status changes membership. */
    method ToggleStatusGroup(status: string)
      modifies this
      ensures expandedStatus == CategoryTreeView.ToggleExpand(old(expandedStatus), status)
      ensures forall x :: x in expandedStatus <==> (if x == status then x !in old(expandedStatus) else x in old(expandedStatus))
      ensures internalExpanded == old(internalExpanded)
    {
      expandedStatus := CategoryTreeView.ToggleExpand(expandedStatus, status);
    }
  }
}
