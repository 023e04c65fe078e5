/** The article editor (components/editor/ArticleEditor.tsx): the automatic slug, the
    validation of `handleSubmit`, the article it assembles and hands to `createArticle`,
    and `resetForm` after a draft save. The `slugify` library and the clock are
    parameters. */
module ArticleEditor {

  import opened Wrappers
  import opened Types
  import Seqs
  import Text
  import JsNumber
  import ArticleStore

  /** The two option sets the editor passes to `slugify`: the automatic slug also removes
      the characters `*+~.()'"!:@`. */
  datatype SlugifyOptions = Strict | StrictWithRemove

  /** `slugify`, a library the model does not look into. */
  type Slugify = (string, SlugifyOptions) -> string

  datatype LanguageTab = EnTab | DvTab

  /** The content fields of the editor. */
  datatype Form = Form(
    titleEn: string, titleDv: string,
    subtitleEn: string, subtitleDv: string,
    summaryEn: string, summaryDv: string,
    bodyEn: string, bodyDv: string,
    slug: string, autoSlug: bool,
    authorEn: string, authorDv: string,
    selectedCategory: Option<Category>,
    coverImage: string, videoUrl: string,
    tags: seq<BilingualText>,
    featured: bool)

  /** The editor as mounted, and as `resetForm` leaves it. */
  function EmptyForm(): (f: Form)
    ensures f.autoSlug && f.selectedCategory.None? && f.tags == [] && !f.featured
  {
    Form("", "", "", "", "", "", "", "", "", true, "", "", None, "", "", [], false)
  }

  /** The auto-slug effect: while the automatic slug is on and the English title is not
      empty, the slug is the slugified title. */
  function AutoSlug(f: Form, slugify: Slugify): (r: Form)
    ensures SlugInSync(r, slugify)
    ensures r.(slug := f.slug) == f
    ensures !SlugInSync(f, slugify) ==> r.slug == slugify(f.titleEn, StrictWithRemove)
  {
    if f.autoSlug && f.titleEn != "" then f.(slug := slugify(f.titleEn, StrictWithRemove)) else f
  }

  /** What the effect maintains: with the automatic slug on and a title, the slug is the
      slugified title. */
  predicate SlugInSync(f: Form, slugify: Slugify)
  {
    f.autoSlug && f.titleEn != "" ==> f.slug == slugify(f.titleEn, StrictWithRemove)
  }

  /** The effect changes nothing on a form it already keeps in sync, so running it again
      after a render whose dependencies did not change is the same as not running it. */
  lemma AutoSlugIdempotent(f: Form, slugify: Slugify)
    ensures SlugInSync(f, slugify) ==> AutoSlug(f, slugify) == f
    ensures AutoSlug(AutoSlug(f, slugify), slugify) == AutoSlug(f, slugify)
  {
  }

  /** The alerts of `handleSubmit`, in the order the checks run. */
  datatype EditorError =
    | TitlesRequired
    | SummariesRequired
    | BodiesRequired
    | CategoryRequired
    | CoverRequired
    | AuthorsRequired

  function Message(e: EditorError): string
  {
    match e
    case TitlesRequired => "Please provide both English and Dhivehi titles"
    case SummariesRequired => "Please provide both English and Dhivehi summaries"
    case BodiesRequired => "Please provide both English and Dhivehi body content"
    case CategoryRequired => "Please select a category"
    case CoverRequired => "Please add a cover image"
    case AuthorsRequired => "Please provide both English and Dhivehi author names"
  }

  /** Every check an accepted form passes: both titles, summaries, bodies and author names
      and the cover image are non-blank once trimmed, and a category is chosen. */
  predicate Complete(f: Form)
  {
    && !Text.Blank(f.titleEn) && !Text.Blank(f.titleDv)
    && !Text.Blank(f.summaryEn) && !Text.Blank(f.summaryDv)
    && !Text.Blank(f.bodyEn) && !Text.Blank(f.bodyDv)
    && f.selectedCategory.Some?
    && !Text.Blank(f.coverImage)
    && !Text.Blank(f.authorEn) && !Text.Blank(f.authorDv)
  }

  /** The validation of `handleSubmit`: the first failing check, or `None`. */
  function Validate(f: Form): (r: Option<EditorError>)
    ensures r.None? <==> Complete(f)
    ensures r == Some(TitlesRequired) <==> Text.Blank(f.titleEn) || Text.Blank(f.titleDv)
    ensures r == Some(SummariesRequired) <==>
      && !Text.Blank(f.titleEn) && !Text.Blank(f.titleDv)
      && (Text.Blank(f.summaryEn) || Text.Blank(f.summaryDv))
    ensures r == Some(BodiesRequired) <==>
      && !Text.Blank(f.titleEn) && !Text.Blank(f.titleDv)
      && !Text.Blank(f.summaryEn) && !Text.Blank(f.summaryDv)
      && (Text.Blank(f.bodyEn) || Text.Blank(f.bodyDv))
    ensures r == Some(CategoryRequired) <==>
      && !Text.Blank(f.titleEn) && !Text.Blank(f.titleDv)
      && !Text.Blank(f.summaryEn) && !Text.Blank(f.summaryDv)
      && !Text.Blank(f.bodyEn) && !Text.Blank(f.bodyDv)
      && f.selectedCategory.None?
    ensures r == Some(CoverRequired) <==>
      && !Text.Blank(f.titleEn) && !Text.Blank(f.titleDv)
      && !Text.Blank(f.summaryEn) && !Text.Blank(f.summaryDv)
      && !Text.Blank(f.bodyEn) && !Text.Blank(f.bodyDv)
      && f.selectedCategory.Some? && Text.Blank(f.coverImage)
    ensures r == Some(AuthorsRequired) <==>
      && !Text.Blank(f.titleEn) && !Text.Blank(f.titleDv)
      && !Text.Blank(f.summaryEn) && !Text.Blank(f.summaryDv)
      && !Text.Blank(f.bodyEn) && !Text.Blank(f.bodyDv)
      && f.selectedCategory.Some? && !Text.Blank(f.coverImage)
      && (Text.Blank(f.authorEn) || Text.Blank(f.authorDv))
  {
    if Text.Blank(f.titleEn) || Text.Blank(f.titleDv) then Some(TitlesRequired)
    else if Text.Blank(f.summaryEn) || Text.Blank(f.summaryDv) then Some(SummariesRequired)
    else if Text.Blank(f.bodyEn) || Text.Blank(f.bodyDv) then Some(BodiesRequired)
    else if f.selectedCategory.None? then Some(CategoryRequired)
    else if Text.Blank(f.coverImage) then Some(CoverRequired)
    else if Text.Blank(f.authorEn) || Text.Blank(f.authorDv) then Some(AuthorsRequired)
    else None
  }

  /** A form just reset (or just mounted) is turned down for its titles. */
  lemma EmptyFormRejected()
    ensures Validate(EmptyForm()) == Some(TitlesRequired)
  {
    assert Text.Blank(EmptyForm().titleEn);
  }

  /** The photo of the temporary author. */
  const TempAuthorPhoto: string := "https://images.unsplash.com/photo-1472099645785-5658abf4ff4e?w=400"

  /** The temporary author of a new article, named by the two author fields. */
  function TempAuthor(f: Form, now: nat, slugify: Slugify): Author
  {
    Author("author-" + JsNumber.Decimal(now), slugify(f.authorEn, Strict),
      BilingualText(f.authorEn, f.authorDv), BilingualText("", ""), TempAuthorPhoto,
      None, None, false)
  }

  /** The article `handleSubmit` hands to `createArticle` at time `now`: the fields as
      typed (validated trimmed, stored untrimmed), a subtitle only when either subtitle is
      non-empty, no tag list when there are no tags, a video exactly when a video URL is
      given, the status the button chose, and the typed slug or, when that is empty, the
      slugified English title. */
  function NewArticle(f: Form, publishNow: bool, now: nat, slugify: Slugify): (a: Article)
    requires f.selectedCategory.Some?
    ensures a.id == "article-" + JsNumber.Decimal(now) && a.publishedAt == now
    ensures a.title == BilingualText(f.titleEn, f.titleDv) && a.summary == BilingualText(f.summaryEn, f.summaryDv)
    ensures a.body == BilingualText(f.bodyEn, f.bodyDv) && a.coverImage == f.coverImage
    ensures a.category == f.selectedCategory.value && a.featured == f.featured
    ensures a.author.name == BilingualText(f.authorEn, f.authorDv) && !a.author.isDeleted
    ensures a.subtitle.Some? <==> f.subtitleEn != "" || f.subtitleDv != ""
    ensures a.subtitle.Some? ==> a.subtitle.value == BilingualText(f.subtitleEn, f.subtitleDv)
    ensures a.tags.None? <==> f.tags == []
    ensures a.tags.Some? ==> a.tags.value == f.tags
    ensures a.hasVideo <==> f.videoUrl != ""
    ensures a.videoUrl.Some? <==> a.hasVideo
    ensures a.videoUrl.Some? ==> a.videoUrl.value == f.videoUrl
    ensures a.status == Some(if publishNow then Published else Draft)
    ensures f.slug != "" ==> a.slug == f.slug
    ensures f.slug == "" ==> a.slug == slugify(f.titleEn, Strict)
    ensures a.updatedAt.None? && a.relatedArticles.None? && a.scheduledFor.None? && a.lastEditedAt.None?
  {
    Article(
      "article-" + JsNumber.Decimal(now),
      if f.slug != "" then f.slug else slugify(f.titleEn, Strict),
      BilingualText(f.titleEn, f.titleDv),
      if f.subtitleEn != "" || f.subtitleDv != "" then Some(BilingualText(f.subtitleEn, f.subtitleDv)) else None,
      BilingualText(f.summaryEn, f.summaryDv),
      BilingualText(f.bodyEn, f.bodyDv),
      f.coverImage,
      f.selectedCategory.value,
      TempAuthor(f, now, slugify),
      now,
      None,
      f.featured,
      Some(if publishNow then Published else Draft),
      f.videoUrl != "",
      if f.videoUrl != "" then Some(f.videoUrl) else None,
      if |f.tags| > 0 then Some(f.tags) else None,
      None, None, None)
  }

  /** A published article lands among the store's published articles and not among its
      drafts, and a draft the other way round. */
  lemma {:induction false} NewArticleListed(articles: seq<Article>, f: Form, publishNow: bool, now: nat, slugify: Slugify)
    requires f.selectedCategory.Some?
    ensures var a := NewArticle(f, publishNow, now, slugify);
      && (a in ArticleStore.PublishedArticles(articles + [a]) <==> publishNow)
      && (a in ArticleStore.DraftArticles(articles + [a]) <==> !publishNow)
  {
    var a := NewArticle(f, publishNow, now, slugify);
    ArticleStore.DraftsAndPublished(articles + [a]);
    assert a in articles + [a];
  }

  /** The editor's state. */
  class Editor {
    const slugify: Slugify
    var activeTab: LanguageTab
    var showPreview: bool
    var status: ArticleStatus
    var form: Form

    /** The invariant the auto-slug effect keeps. */
    predicate Valid()
      reads this
    {
      SlugInSync(form, slugify) && status != Scheduled
    }

    constructor(slugify: Slugify)
      ensures Valid()
      ensures this.slugify == slugify
      ensures form == EmptyForm()
      ensures activeTab == EnTab && !showPreview && status == Draft
    {
      this.slugify := slugify;
      activeTab := EnTab;
      showPreview := false;
      status := Draft;
      form := EmptyForm();
    }

    /** `setTitleEn`, followed by the auto-slug effect. */
    method SetTitleEn(value: string)
      requires Valid()
      modifies this
      ensures Valid()
      ensures form == AutoSlug(old(form).(titleEn := value), slugify)
      ensures activeTab == old(activeTab) && showPreview == old(showPreview) && status == old(status)
    {
      form := AutoSlug(form.(titleEn := value), slugify);
    }

    /** Typing in the slug field sets the slug and turns the automatic slug off. */
    method SetSlug(value: string)
      requires Valid()
      modifies this
      ensures Valid()
      ensures form == old(form).(slug := value, autoSlug := false)
      ensures activeTab == old(activeTab) && showPreview == old(showPreview) && status == old(status)
    {
      form := form.(slug := value, autoSlug := false);
    }

    /** The "Auto-generate from title" checkbox, followed by the auto-slug effect: turning
        it on with a title present replaces the slug by the slugified title. */
    method SetAutoSlug(checked: bool)
      requires Valid()
      modifies this
      ensures Valid()
      ensures form == AutoSlug(old(form).(autoSlug := checked), slugify)
      ensures checked && form.titleEn != "" ==> form.slug == slugify(form.titleEn, StrictWithRemove)
      ensures !checked ==> form == old(form).(autoSlug := false)
      ensures activeTab == old(activeTab) && showPreview == old(showPreview) && status == old(status)
    {
      form := AutoSlug(form.(autoSlug := checked), slugify);
    }

    /** `resetForm()`: every content field back to its initial value and the automatic
        slug on again; the language tab, the preview switch and the status are kept. */
    method ResetForm()
      requires Valid()
      modifies this
      ensures Valid()
      ensures form == EmptyForm()
      ensures activeTab == old(activeTab) && showPreview == old(showPreview) && status == old(status)
    {
      form := EmptyForm();
    }

    /** The part of `handleSubmit` after a successful validation: `createArticle`, then
        `resetForm` for a draft save; a publish leaves the form as it is (the page
        navigates away). */
    method Create(publishNow: bool, now: nat, store: ArticleStore.ArticleStore)
      requires Valid() && form.selectedCategory.Some?
      modifies this, store
      ensures Valid()
      ensures store.articles == old(store.articles) + [NewArticle(old(form), publishNow, now, slugify)]
      ensures form == if publishNow then old(form) else EmptyForm()
      ensures store.categories == old(store.categories) && store.selectedCategory == old(store.selectedCategory)
      ensures store.searchQuery == old(store.searchQuery)
      ensures activeTab == old(activeTab) && showPreview == old(showPreview) && status == old(status)
    {
      var article := NewArticle(form, publishNow, now, slugify);
      store.CreateArticle(article);
      if !publishNow {
        form := EmptyForm();
      }
    }

    /** `handleSubmit(publishNow)` at time `now`: the first failing check is returned (the
        alert) and nothing changes; otherwise the new article is appended to the store and
        a draft save resets the form. */
    method HandleSubmit(publishNow: bool, now: nat, store: ArticleStore.ArticleStore) returns (err: Option<EditorError>)
      requires Valid()
      modifies this, store
      ensures Valid()
      ensures err == Validate(old(form))
      ensures err.Some? ==> form == old(form) && store.articles == old(store.articles)
      ensures err.None? ==> store.articles == old(store.articles) + [NewArticle(old(form), publishNow, now, slugify)]
      ensures err.None? ==> form == if publishNow then old(form) else EmptyForm()
      ensures store.categories == old(store.categories) && store.selectedCategory == old(store.selectedCategory)
      ensures store.searchQuery == old(store.searchQuery)
      ensures activeTab == old(activeTab) && showPreview == old(showPreview) && status == old(status)
    {
      err := Validate(form);
      if err.None? {
        Create(publishNow, now, store);
      }
    }

    /** The "Save Draft" button: `setStatus('draft')`, then `handleSubmit(false)`. The
        status shown in the badge becomes Draft even when the form is refused. */
    method SaveDraft(now: nat, store: ArticleStore.ArticleStore) returns (err: Option<EditorError>)
      requires Valid()
      modifies this, store
      ensures Valid() && status == Draft
      ensures err == Validate(old(form))
      ensures err.Some? ==> form == old(form) && store.articles == old(store.articles)
      ensures err.None? ==> store.articles == old(store.articles) + [NewArticle(old(form), false, now, slugify)]
      ensures err.None? ==> form == EmptyForm()
      ensures store.categories == old(store.categories) && store.selectedCategory == old(store.selectedCategory)
      ensures store.searchQuery == old(store.searchQuery)
      ensures activeTab == old(activeTab) && showPreview == old(showPreview)
    {
      status := Draft;
      err := HandleSubmit(false, now, store);
    }

    /** The "Publish" button: `setStatus('published')`, then `handleSubmit(true)`. */
    method Publish(now: nat, store: ArticleStore.ArticleStore) returns (err: Option<EditorError>)
      requires Valid()
      modifies this, store
      ensures Valid() && status == Published
      ensures err == Validate(old(form))
      ensures err.Some? ==> form == old(form) && store.articles == old(store.articles)
      ensures err.None? ==> store.articles == old(store.articles) + [NewArticle(old(form), true, now, slugify)]
      ensures err.None? ==> form == old(form)
      ensures store.categories == old(store.categories) && store.selectedCategory == old(store.selectedCategory)
      ensures store.searchQuery == old(store.searchQuery)
      ensures activeTab == old(activeTab) && showPreview == old(showPreview)
    {
      status := Published;
      err := HandleSubmit(true, now, store);
    }
  }
}
