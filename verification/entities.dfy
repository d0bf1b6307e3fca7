/**
 * The rows of the social-news database and the validations their models
 * declare.  Each row carries its primary key as `id`; times are integer
 * seconds.
 */
module Entities {
  import opened Wrappers
  import opened Text
  import CommentPath

  type Time = int

  /** 24.hours, in seconds. */
  const Day: int := 24 * 60 * 60

  /** A polymorphic association (`reportable`, `entity`): a kind and an id. */
  datatype EntityRef = ArticleRef(id: nat) | CommentRef(id: nat) | UserRef(id: nat)

  datatype User = User(
    id: nat, username: string, email: string, karmaScore: int,
    isActive: bool, isVerified: bool,
    bio: Option<string>, websiteUrl: Option<string>, avatarUrl: Option<string>,
    createdAt: Time)

  datatype Article = Article(
    id: nat, userId: nat, categoryId: nat,
    title: string, url: string, domain: Option<string>,
    description: Option<string>, thumbnailUrl: Option<string>,
    status: string, voteCount: int, commentCount: int, viewCount: int,
    hotnessScore: real, createdAt: Time)

  datatype Comment = Comment(
    id: nat, articleId: nat, userId: nat, parentId: Option<nat>,
    content: string, path: CommentPath.Path, depth: int,
    voteCount: int, isDeleted: bool, createdAt: Time)

  /** An `ArticleVote` (subject = article) or a `CommentVote` (subject = comment). */
  datatype Vote = Vote(id: nat, subjectId: nat, userId: nat, voteType: int)

  /** A `UserActivity`: one entry of a user's karma log. */
  datatype Activity = Activity(userId: nat, activityType: string, entity: EntityRef, points: int)

  datatype Tag = Tag(id: nat, name: string, slug: string, usageCount: int)

  datatype ArticleTag = ArticleTag(id: nat, articleId: nat, tagId: nat)

  datatype Category = Category(id: nat, name: string, slug: string, parentId: Option<nat>, displayOrder: int)

  datatype Subscription = Subscription(id: nat, userId: nat, categoryId: nat)

  datatype SavedArticle = SavedArticle(id: nat, userId: nat, articleId: nat, createdAt: Time)

  datatype Report = Report(
    id: nat, reporterId: nat, reportable: EntityRef, reason: string, status: string,
    resolverId: Option<nat>, resolvedAt: Option<Time>, createdAt: Time)

  /** A `UserFollow`: follower follows followed. */
  datatype Follow = Follow(followerId: nat, followedId: nat)

  /**
   * Library code the models call but do not define: the http/https URI
   * regexp, `URI.parse(url).host`, `String#parameterize` and the e-mail
   * regexp.
   */
  datatype Library = Library(
    isHttpUrl: string -> bool,
    hostOf: string -> Option<string>,
    parameterize: string -> string,
    isEmail: string -> bool)

  /** `presence: true, length: { minimum: lo, maximum: hi }`. */
  predicate PresentWithLength(s: string, lo: nat, hi: nat) {
    !IsBlank(s) && lo <= |s| <= hi
  }

  const ArticleStatuses: set<string> := {"pending", "approved", "published"}
  const ReportStatuses: set<string> := {"pending", "resolved", "dismissed"}
  const ActivityTypes: set<string> := {"submit", "upvote", "downvote", "comment"}

  /** The `Article` validations: title, url (presence and format) and status. */
  predicate ArticleValid(a: Article, lib: Library) {
    ArticleFieldsValid(a.title, a.url, a.status, lib)
  }

  /** The validated columns of an article, apart from the rest of the row. */
  predicate ArticleFieldsValid(title: string, url: string, status: string, lib: Library) {
    && PresentWithLength(title, 10, 200)
    && !IsBlank(url) && lib.isHttpUrl(url)
    && status in ArticleStatuses
  }

  /** The `Comment` validation on content. */
  predicate ContentValid(content: string) {
    PresentWithLength(content, 1, 10000)
  }

  /** The `ArticleVote`/`CommentVote` validation on vote_type. */
  predicate VoteTypeValid(t: int) {
    t == 1 || t == -1
  }

  /** The `Report` validations. */
  predicate ReportValid(r: Report) {
    PresentWithLength(r.reason, 10, 500) && r.status in ReportStatuses
  }

  /** The `UserActivity` validation. */
  predicate ActivityValid(a: Activity) {
    a.activityType in ActivityTypes
  }

  /** The `User` validations, except the e-mail format (a library regexp). */
  predicate UserFieldsValid(u: User) {
    PresentWithLength(u.username, 3, 30) && !IsBlank(u.email) && u.karmaScore >= 0
  }
}
