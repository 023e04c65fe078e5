/** The admin portal's UI store (lib/stores/adminStore.ts): the article-list filters, the
    selected article ids, and the view settings. Changing a filter, or the page size, goes
    back to the first page. */
module AdminStore {

  import opened Wrappers
  import opened Types
  import Seqs

  datatype StatusFilter = AllStatuses | DraftOnly | PublishedOnly | ScheduledOnly

  /** A `{ start, end }` range of dates, as times. */
  datatype DateRange = DateRange(start: int, end: int)

  /** The store's fields, as one value. */
  datatype AdminState = AdminState(
    statusFilter: StatusFilter,
    categoryFilter: Option<string>,
    searchQuery: string,
    dateRange: Option<DateRange>,
    selectedArticleIds: seq<string>,
    viewMode: ViewMode,
    currentPage: int,
    articlesPerPage: int)

  /** The state the store starts in. */
  const Initial := AdminState(AllStatuses, None, "", None, [], ListView, 1, 20)

  function NotId(id: string): string -> bool
  {
    (x: string) => x != id
  }

  /** `toggleArticleSelection(id)`: a selected id is removed, every occurrence of it; any
      other id is appended at the end. */
  function Toggled(sel: seq<string>, id: string): (r: seq<string>)
    ensures id in r <==> id !in sel
    ensures forall x :: x != id ==> (x in r <==> x in sel)
  {
    if id in sel then Seqs.Filter(sel, NotId(id)) else sel + [id]
  }

  /** The other ids keep their order: leaving `id` aside, the selection is what it was. */
  lemma ToggledKeepsOthers(sel: seq<string>, id: string)
    ensures Seqs.Filter(Toggled(sel, id), NotId(id)) == Seqs.Filter(sel, NotId(id))
  {
    if id in sel {
      Seqs.FilterIdempotent(sel, NotId(id));
    } else {
      Seqs.FilterAppend(sel, [id], NotId(id));
      assert Seqs.Filter([id], NotId(id)) == [];
    }
  }

  /** A selection without repetitions keeps none after a toggle. */
  lemma ToggledDistinct(sel: seq<string>, id: string)
    requires Seqs.Distinct(sel)
    ensures Seqs.Distinct(Toggled(sel, id))
  {
    if id in sel {
      Seqs.FilterDistinct(sel, NotId(id));
    }
  }

  /** Toggling an unselected id twice gives the selection back; toggling a selected id
      twice puts it last, once. */
  lemma ToggledTwice(sel: seq<string>, id: string)
    ensures id !in sel ==> Toggled(Toggled(sel, id), id) == sel
    ensures id in sel ==> Toggled(Toggled(sel, id), id) == Seqs.Filter(sel, NotId(id)) + [id]
  {
    if id !in sel {
      Seqs.FilterAppend(sel, [id], NotId(id));
      assert Seqs.Filter([id], NotId(id)) == [];
      Seqs.FilterAll(sel, NotId(id));
    }
  }

  class AdminStore {
    var statusFilter: StatusFilter
    var categoryFilter: Option<string>
    var searchQuery: string
    var dateRange: Option<DateRange>
    var selectedArticleIds: seq<string>
    var viewMode: ViewMode
    var currentPage: int
    var articlesPerPage: int

    function State(): AdminState
      reads this
    {
      AdminState(statusFilter, categoryFilter, searchQuery, dateRange, selectedArticleIds,
        viewMode, currentPage, articlesPerPage)
    }

    constructor()
      ensures State() == Initial
    {
      statusFilter := AllStatuses;
      categoryFilter := None;
      searchQuery := "";
      dateRange := None;
      selectedArticleIds := [];
      viewMode := ListView;
      currentPage := 1;
      articlesPerPage := 20;
    }

    /** `setStatusFilter(status)`. */
    method SetStatusFilter(status: StatusFilter)
      modifies this
      ensures State() == old(State()).(statusFilter := status, currentPage := 1)
    {
      statusFilter := status;
      currentPage := 1;
    }

    /** `setCategoryFilter(category)`. */
    method SetCategoryFilter(category: Option<string>)
      modifies this
      ensures State() == old(State()).(categoryFilter := category, currentPage := 1)
    {
      categoryFilter := category;
      currentPage := 1;
    }

    /** `setSearchQuery(query)`. */
    method SetSearchQuery(query: string)
      modifies this
      ensures State() == old(State()).(searchQuery := query, currentPage := 1)
    {
      searchQuery := query;
      currentPage := 1;
    }

    /** `setDateRange(range)`. */
    method SetDateRange(range: Option<DateRange>)
      modifies this
      ensures State() == old(State()).(dateRange := range, currentPage := 1)
    {
      dateRange := range;
      currentPage := 1;
    }

    /** `resetFilters()`: the four filters and the page go back to their initial values;
        the selection, the view mode and the page size stay. */
    method ResetFilters()
      modifies this
      ensures State() == Initial.(selectedArticleIds := old(selectedArticleIds),
        viewMode := old(viewMode), articlesPerPage := old(articlesPerPage))
    {
      statusFilter := AllStatuses;
      categoryFilter := None;
      searchQuery := "";
      dateRange := None;
      currentPage := 1;
    }

    /** `toggleArticleSelection(id)`. */
    method ToggleArticleSelection(id: string)
      modifies this
      ensures State() == old(State()).(selectedArticleIds := Toggled(old(selectedArticleIds), id))
      ensures IsArticleSelected(id) <==> !old(IsArticleSelected(id))
      ensures Seqs.Distinct(old(selectedArticleIds)) ==> Seqs.Distinct(selectedArticleIds)
    {
      if Seqs.Distinct(selectedArticleIds) {
        ToggledDistinct(selectedArticleIds, id);
      }
      selectedArticleIds := Toggled(selectedArticleIds, id);
    }

    /** `selectAllArticles(ids)`: the selection becomes `ids`, as given. */
    method SelectAllArticles(ids: seq<string>)
      modifies this
      ensures State() == old(State()).(selectedArticleIds := ids)
    {
      selectedArticleIds := ids;
    }

    /** `clearSelection()`. */
    method ClearSelection()
      modifies this
      ensures State() == old(State()).(selectedArticleIds := [])
    {
      selectedArticleIds := [];
    }

    /** `isArticleSelected(id)`. */
    function IsArticleSelected(id: string): (b: bool)
      reads this
      ensures b <==> exists i :: 0 <= i < |selectedArticleIds| && selectedArticleIds[i] == id
    {
      id in selectedArticleIds
    }

    /** `setViewMode(mode)`: the page is kept. */
    method SetViewMode(mode: ViewMode)
      modifies this
      ensures State() == old(State()).(viewMode := mode)
    {
      viewMode := mode;
    }

    /** `setCurrentPage(page)`. */
    method SetCurrentPage(page: int)
      modifies this
      ensures State() == old(State()).(currentPage := page)
    {
      currentPage := page;
    }

    /** `setArticlesPerPage(perPage)`: back to the first page. */
    method SetArticlesPerPage(perPage: int)
      modifies this
      ensures State() == old(State()).(articlesPerPage := perPage, currentPage := 1)
    {
      articlesPerPage := perPage;
      currentPage := 1;
    }
  }
}
