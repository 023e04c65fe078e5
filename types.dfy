/** The records of the news site (lib/types.ts). Dates are milliseconds since the epoch;
    optional TypeScript fields are `Option`s, and optional booleans read only for their
    truthiness are plain booleans that default to false. */
module Types {

  import opened Wrappers

  /** Every user-visible text exists in English (`en`) and Dhivehi (`dv`). */
  datatype BilingualText = BilingualText(en: string, dv: string)

  datatype Category = Category(
    id: string,
    name: BilingualText,
    slug: string,
    color: string,
    parentId: Option<string>,            // null for a top-level category
    description: Option<BilingualText>,
    icon: Option<string>,
    order: int,
    isActive: bool,
    isSpecial: bool,
    specialPageRoute: Option<string>,     // absent and null are both None
    createdAt: int,
    updatedAt: int,
    createdBy: Option<string>,
    articleCount: Option<int>)           // set only by `updateArticleCount`

  datatype SocialLinks = SocialLinks(
    twitter: Option<string>,
    linkedin: Option<string>,
    facebook: Option<string>,
    email: Option<string>)

  /** An author as the author store keeps it: the record of lib/types.ts plus the
      store's `createdAt` and `isDeleted` bookkeeping. */
  datatype Author = Author(
    id: string,
    slug: string,
    name: BilingualText,
    bio: BilingualText,
    photo: string,
    socialLinks: Option<SocialLinks>,
    createdAt: Option<int>,
    isDeleted: bool)

  datatype ArticleStatus = Draft | Published | Scheduled

  datatype Article = Article(
    id: string,
    slug: string,
    title: BilingualText,
    subtitle: Option<BilingualText>,
    summary: BilingualText,
    body: BilingualText,
    coverImage: string,
    category: Category,
    author: Author,
    publishedAt: int,
    updatedAt: Option<int>,
    featured: bool,
    status: Option<ArticleStatus>,
    hasVideo: bool,
    videoUrl: Option<string>,
    tags: Option<seq<BilingualText>>,
    relatedArticles: Option<seq<string>>,
    scheduledFor: Option<int>,
    lastEditedAt: Option<int>)

  /** Anything without a status counts as published, everywhere the admin pages look. */
  predicate IsPublished(a: Article)
  {
    a.status == Some(Published) || a.status == None
  }

  /** The ids of a list of articles, in order. */
  function ArticleIds(articles: seq<Article>): (r: seq<string>)
    ensures |r| == |articles| && forall i :: 0 <= i < |articles| ==> r[i] == articles[i].id
  {
    seq(|articles|, i requires 0 <= i < |articles| => articles[i].id)
  }

  datatype LanguageCode = En | Dv
  datatype Direction = Ltr | Rtl
  datatype Language = Language(code: LanguageCode, name: string, direction: Direction)

  datatype RaceType = Presidential | Parliamentary | Local
  datatype RaceStatus = Live | Final | Upcoming

  datatype Candidate = Candidate(
    id: string,
    name: BilingualText,
    party: BilingualText,
    partyColor: string,
    photo: string,
    votes: int,
    percentage: int,
    isWinner: bool)

  datatype ElectionRace = ElectionRace(
    id: string,
    name: BilingualText,
    raceType: RaceType,
    candidates: seq<Candidate>,
    totalVotes: int,
    reportingPercentage: int,
    status: RaceStatus,
    lastUpdated: int)

  /** A region's vote table, in key order: candidate id and count (null when unknown). */
  datatype Region = Region(
    id: string,
    name: BilingualText,
    winnerId: Option<string>,
    votes: seq<(string, Option<nat>)>,
    reportingPercentage: int)

  datatype ElectoralMap = ElectoralMap(raceId: string, regions: seq<Region>)

  datatype ViewMode = ListView | CalendarView | GridView
}
