/** The admin article calendar (components/admin/ArticleCalendar.tsx): one event per
    article, rescheduling by drag and drop, and the list of articles on a clicked day.
    Times are integers; the local calendar day of a time is the parameter `day`. */
module ArticleCalendar {

  import opened Wrappers
  import opened Types
  import Seqs
  import ArticleStore

  /** `scheduledFor || publishedAt`: a set schedule wins over the publication time. */
  function DisplayDate(a: Article): int
  {
    if a.scheduledFor.Some? then a.scheduledFor.value else a.publishedAt
  }

  datatype Event = Event(id: string, title: string, start: int, color: string,
                         status: Option<ArticleStatus>, category: string, slug: string)

  function EventOf(a: Article): Event
  {
    Event(a.id, a.title.en, DisplayDate(a), a.category.color, a.status, a.category.name.en, a.slug)
  }

  /** `events`: one event per article, in article order, with the article's id, starting
      at the schedule when there is one and at the publication time otherwise. */
  function Events(articles: seq<Article>): (r: seq<Event>)
    ensures |r| == |articles|
    ensures forall i :: 0 <= i < |articles| ==> r[i].id == articles[i].id
    ensures forall i :: 0 <= i < |articles| && articles[i].scheduledFor.Some? ==>
      r[i].start == articles[i].scheduledFor.value
    ensures forall i :: 0 <= i < |articles| && articles[i].scheduledFor.None? ==>
      r[i].start == articles[i].publishedAt
  {
    seq(|articles|, i requires 0 <= i < |articles| => EventOf(articles[i]))
  }

  /** `handleEventDrop`: a drop without a start, or one the user declines, reverts and
      calls nothing; a confirmed drop asks the store to schedule the article at the new
      date. Returns the store calls and whether the drop was reverted. */
  function EventDrop(articleId: string, newDate: Option<int>, confirmed: bool)
    : (r: (seq<ArticleStore.StoreCall>, bool))
    ensures r.1 <==> r.0 == []
    ensures r.0 != [] <==> newDate.Some? && confirmed
    ensures r.0 != [] ==> r.0 == [ArticleStore.UpdateArticle(articleId, newDate.value, Scheduled)]
  {
    if newDate.None? then ([], true)
    else if confirmed then ([ArticleStore.UpdateArticle(articleId, newDate.value, Scheduled)], false)
    else ([], true)
  }

  function OnDay(clicked: int, day: int -> (int, int, int)): Article -> bool
  {
    (a: Article) => day(DisplayDate(a)) == day(clicked)
  }

  /** `articlesOnDay`: the articles whose display date falls on the clicked day. */
  function ArticlesOnDay(articles: seq<Article>, clicked: int, day: int -> (int, int, int)): (r: seq<Article>)
    ensures Seqs.IsSubseq(r, articles)
    ensures forall a :: a in r <==> a in articles && day(DisplayDate(a)) == day(clicked)
  {
    Seqs.Filter(articles, OnDay(clicked, day))
  }

  function EventOnDay(clicked: int, day: int -> (int, int, int)): Event -> bool
  {
    (e: Event) => day(e.start) == day(clicked)
  }

  /** The dialog lists as many articles as the calendar shows events on that day. */
  lemma {:induction false} DayListMatchesEvents(articles: seq<Article>, clicked: int, day: int -> (int, int, int))
    ensures |ArticlesOnDay(articles, clicked, day)| == Seqs.Count(Events(articles), EventOnDay(clicked, day))
  {
    Seqs.FilterLength(articles, OnDay(clicked, day));
    CountEvents(articles, clicked, day);
  }

  lemma {:induction false} CountEvents(articles: seq<Article>, clicked: int, day: int -> (int, int, int))
    ensures Seqs.Count(articles, OnDay(clicked, day)) == Seqs.Count(Events(articles), EventOnDay(clicked, day))
  {
    if articles != [] {
      CountEvents(articles[1..], clicked, day);
      assert Events(articles)[1..] == Events(articles[1..]);
    }
  }

  /** The dialog state. */
  class DayDialog {
    var isDialogOpen: bool
    var selectedDate: Option<int>
    var selectedDayArticles: seq<Article>

    constructor()
      ensures !isDialogOpen && selectedDate.None? && selectedDayArticles == []
    {
      isDialogOpen := false;
      selectedDate := None;
      selectedDayArticles := [];
    }

    /** `handleDateClick`: records the day and its articles and opens the dialog, also
        when no article falls on that day. */
    method HandleDateClick(articles: seq<Article>, clicked: int, day: int -> (int, int, int))
      modifies this
      ensures selectedDate == Some(clicked)
      ensures selectedDayArticles == ArticlesOnDay(articles, clicked, day)
      ensures isDialogOpen
    {
      selectedDate := Some(clicked);
      selectedDayArticles := ArticlesOnDay(articles, clicked, day);
      isDialogOpen := true;
    }
  }
}
