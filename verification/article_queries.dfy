/**
 * The article listings: the `published`, `hot`, `trending` and `recent`
 * scopes and the controller queries built from them -- the index with its
 * filters and sort orders, the trending and hot lists, the feed, a user's
 * articles and a category's article count.
 */
module ArticleQueries {
  import opened Wrappers
  import opened Tables
  import opened Ordering
  import opened Entities

  /** `scope :published`. */
  predicate Published(a: Article) { a.status == "published" }

  /** The `hot` scope's condition. */
  predicate IsHot(a: Article) { a.hotnessScore > 0.0 }

  /** The `trending` scope's condition: created strictly after `24.hours.ago`. */
  predicate IsRecent(a: Article, now: Time) { a.createdAt > now - Day }

  predicate InTable(articles: map<nat, Article>, a: Article) {
    exists k :: k in articles && articles[k] == a
  }

  /** `order(created_at: :desc)`, the `recent` scope. */
  function NewestFirst(): (Article, Article) -> bool {
    Descending((a: Article) => a.createdAt)
  }

  /** `order(vote_count: :desc)`. */
  function MostVotedFirst(): (Article, Article) -> bool {
    Descending((a: Article) => a.voteCount)
  }

  lemma MostVotedFirstIsPreorder()
    ensures TotalPreorder(MostVotedFirst())
    ensures forall a, b :: MostVotedFirst()(a, b) <==> b.voteCount <= a.voteCount
  {
    DescendingIsPreorder((a: Article) => a.voteCount);
  }

  /** `order(hotness_score: :desc)`. */
  function HottestFirst(): (Article, Article) -> bool {
    (a: Article, b: Article) => a.hotnessScore >= b.hotnessScore
  }

  lemma HottestFirstIsPreorder()
    ensures TotalPreorder(HottestFirst())
  {
  }

  /** `limit(20)` of the trending and hot actions. */
  const ListLimit: nat := 20

  /** The keys of the articles the trending scopes admit. */
  ghost function RecentKeys(articles: map<nat, Article>, now: Time): set<nat> {
    set k | k in articles && Published(articles[k]) && IsRecent(articles[k], now)
  }

  /** The keys of the articles the hot scopes admit. */
  ghost function HotKeys(articles: map<nat, Article>): set<nat> {
    set k | k in articles && Published(articles[k]) && IsHot(articles[k])
  }

  lemma RecentKeysWhere(articles: map<nat, Article>, now: Time, p: Article -> bool)
    requires forall a :: p(a) == (Published(a) && IsRecent(a, now))
    ensures KeysWhere(articles, p) == RecentKeys(articles, now)
  {
  }

  lemma HotKeysWhere(articles: map<nat, Article>, p: Article -> bool)
    requires forall a :: p(a) == (Published(a) && IsHot(a))
    ensures KeysWhere(articles, p) == HotKeys(articles)
  {
  }

  /**
   * `ArticlesController#trending`: published articles of the last 24 hours,
   * most voted first, 20 of them (all when fewer), each as often as the
   * table holds it; none left out has more votes than one kept.
   */
  function Trending(articles: map<nat, Article>, now: Time): (r: seq<Article>)
    ensures |r| == if |RecentKeys(articles, now)| < ListLimit then |RecentKeys(articles, now)| else ListLimit
    ensures Sorted(r, MostVotedFirst())
    ensures forall a :: a in r ==> InTable(articles, a) && Published(a) && IsRecent(a, now)
    ensures forall a :: multiset(r)[a] <= Occurrences(articles, a)
    ensures |RecentKeys(articles, now)| <= ListLimit ==>
      forall a :: multiset(r)[a] == if Published(a) && IsRecent(a, now) then Occurrences(articles, a) else 0
    ensures forall a, b ::
      (a in r && InTable(articles, b) && Published(b) && IsRecent(b, now) && b !in r) ==> b.voteCount <= a.voteCount
  {
    MostVotedFirstIsPreorder();
    var p := (a: Article) => Published(a) && IsRecent(a, now);
    var r := TopOfTable(articles, p, MostVotedFirst(), ListLimit);
    RecentKeysWhere(articles, now, p);
    forall a, b | a in r && InTable(articles, b) && Published(b) && IsRecent(b, now) && b !in r
      ensures b.voteCount <= a.voteCount
    {
      assert p(b) && MostVotedFirst()(a, b);
    }
    r
  }

  /**
   * `ArticlesController#hot`: published articles with a positive stored
   * score, hottest first, 20 of them (all when fewer), each as often as the
   * table holds it; none left out is hotter than one kept.
   */
  function Hot(articles: map<nat, Article>): (r: seq<Article>)
    ensures |r| == if |HotKeys(articles)| < ListLimit then |HotKeys(articles)| else ListLimit
    ensures Sorted(r, HottestFirst())
    ensures forall a :: a in r ==> InTable(articles, a) && Published(a) && IsHot(a)
    ensures forall a :: multiset(r)[a] <= Occurrences(articles, a)
    ensures |HotKeys(articles)| <= ListLimit ==>
      forall a :: multiset(r)[a] == if Published(a) && IsHot(a) then Occurrences(articles, a) else 0
    ensures forall a, b ::
      (a in r && InTable(articles, b) && Published(b) && IsHot(b) && b !in r) ==> b.hotnessScore <= a.hotnessScore
  {
    HottestFirstIsPreorder();
    var p := (a: Article) => Published(a) && IsHot(a);
    var r := TopOfTable(articles, p, HottestFirst(), ListLimit);
    HotKeysWhere(articles, p);
    forall a, b | a in r && InTable(articles, b) && Published(b) && IsHot(b) && b !in r
      ensures b.hotnessScore <= a.hotnessScore
    {
      assert p(b) && HottestFirst()(a, b);
    }
    r
  }

  /** The `category_id`, `user_id` and `tag_id` parameters of the index. */
  datatype ArticleFilter = ArticleFilter(categoryId: Option<nat>, userId: Option<nat>, tagId: Option<nat>)

  predicate Tagged(joins: map<nat, ArticleTag>, article: nat, tag: nat) {
    exists k :: k in joins && joins[k].articleId == article && joins[k].tagId == tag
  }

  /** `filter_articles`: each filter applies only when its parameter is given. */
  predicate MatchesFilter(a: Article, f: ArticleFilter, joins: map<nat, ArticleTag>) {
    && (f.categoryId.Some? ==> a.categoryId == f.categoryId.value)
    && (f.userId.Some? ==> a.userId == f.userId.value)
    && (f.tagId.Some? ==> Tagged(joins, a.id, f.tagId.value))
  }

  /** The order `sort_articles` picks for the `sort` parameter. */
  function SortOrder(sort: Option<string>): (Article, Article) -> bool {
    if sort == Some("hot") then HottestFirst()
    else if sort == Some("votes") then MostVotedFirst()
    else NewestFirst()
  }

  lemma SortOrderIsPreorder(sort: Option<string>)
    ensures TotalPreorder(SortOrder(sort))
  {
    HottestFirstIsPreorder();
    DescendingIsPreorder((a: Article) => a.voteCount);
    DescendingIsPreorder((a: Article) => a.createdAt);
  }

  /** `sort_articles` with 'hot' also applies the `hot` scope's condition. */
  predicate SortKeeps(sort: Option<string>, a: Article) {
    sort == Some("hot") ==> IsHot(a)
  }

  /** `ArticlesController#index`: published, filtered, then sorted. */
  function Index(articles: map<nat, Article>, joins: map<nat, ArticleTag>, f: ArticleFilter, sort: Option<string>)
    : (r: seq<Article>)
    ensures forall a :: a in r <==>
      InTable(articles, a) && Published(a) && MatchesFilter(a, f, joins) && SortKeeps(sort, a)
    ensures Sorted(r, SortOrder(sort))
    ensures sort == Some("votes") ==> Sorted(r, MostVotedFirst())
    ensures sort == Some("hot") ==> Sorted(r, HottestFirst())
    ensures sort != Some("hot") && sort != Some("votes") ==> Sorted(r, NewestFirst())
    ensures forall a ::
      multiset(r)[a] == if Published(a) && MatchesFilter(a, f, joins) && SortKeeps(sort, a) then Occurrences(articles, a) else 0
  {
    SortOrderIsPreorder(sort);
    var p := (a: Article) => Published(a) && MatchesFilter(a, f, joins) && SortKeeps(sort, a);
    SelectFromTable(articles, p, SortOrder(sort))
  }

  /** The categories a user subscribes to: `subscribed_categories.pluck(:id)`. */
  function SubscribedCategories(subscriptions: map<nat, Subscription>, user: nat): set<nat> {
    set k | k in subscriptions && subscriptions[k].userId == user :: subscriptions[k].categoryId
  }

  /** The users a user follows: `following.pluck(:id)`. */
  function Followed(follows: seq<Follow>, user: nat): set<nat> {
    set f | f in follows && f.followerId == user :: f.followedId
  }

  /**
   * `FeedController#index`: the published articles in a subscribed category
   * or by a followed author, newest first.
   */
  function Feed(articles: map<nat, Article>, subscribed: set<nat>, followed: set<nat>): (r: seq<Article>)
    ensures forall a :: a in r <==>
      InTable(articles, a) && Published(a) && (a.categoryId in subscribed || a.userId in followed)
    ensures Sorted(r, NewestFirst())
    ensures forall a ::
      multiset(r)[a] == if Published(a) && (a.categoryId in subscribed || a.userId in followed) then Occurrences(articles, a) else 0
  {
    DescendingIsPreorder((a: Article) => a.createdAt);
    var p := (a: Article) => Published(a) && (a.categoryId in subscribed || a.userId in followed);
    SelectFromTable(articles, p, NewestFirst())
  }

  /** `UsersController#articles`: the user's published articles, newest first. */
  function UserArticles(articles: map<nat, Article>, user: nat): (r: seq<Article>)
    ensures forall a :: a in r <==> InTable(articles, a) && Published(a) && a.userId == user
    ensures Sorted(r, NewestFirst())
    ensures forall a :: multiset(r)[a] == if Published(a) && a.userId == user then Occurrences(articles, a) else 0
  {
    DescendingIsPreorder((a: Article) => a.createdAt);
    var p := (a: Article) => Published(a) && a.userId == user;
    SelectFromTable(articles, p, NewestFirst())
  }

  /**
   * `Category#article_count`: the published articles in the category --
   * as many as the index lists for that category.
   */
  function CategoryArticleCount(articles: map<nat, Article>, category: nat): (n: nat)
    ensures n == |Index(articles, map[], ArticleFilter(Some(category), None, None), None)|
    ensures n <= |articles|
  {
    var p := (a: Article) => a.categoryId == category && Published(a);
    var q := (a: Article) => Published(a) && MatchesFilter(a, ArticleFilter(Some(category), None, None), map[])
      && SortKeeps(None, a);
    FilterCongruent(Rows(articles), p, q);
    |Filter(Rows(articles), p)|
  }
}
