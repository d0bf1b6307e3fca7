# A verified model of a social-news API

This project models the core of a Rails social-news service in Dafny. Users submit articles (links) into categories and tag them. They vote articles and comments up or down, and reply in threaded comments. They save articles, subscribe to categories, follow other users and report content. A karma log records submissions, comments and votes.

The model has three layers:

- **The database** is a `Store` class (module `Persistence`). It holds one field per table:
  - users, articles, comments, article and comment votes, tags and their join rows, categories, subscriptions, saves and reports;
  - an append-only activity log.

  Each table is a `Table<T>`: rows keyed by id, plus the next auto-increment id. The ActiveRecord model methods that write rows become `Store` methods. Each one:
  - names the tables it may change in its `modifies` clause;
  - states the new contents of those tables;
  - keeps their invariants. These are the row validations, the uniqueness rules, and the cached counters. `vote_count` and `comment_count` always equal what `update_vote_count` and `update_comment_count` would recompute.
- **The pure model logic** lives in modules per model:
  - the vote ledger and its tallies;
  - the comment path encoding and tree;
  - the karma log;
  - tag name handling and `find_or_create_by`;
  - category slugs and subscriptions;
  - saved articles;
  - report transitions.

  Each module has lemmas that relate its operations to each other: round trips, idempotence, what is kept and what changes.
- **The controllers** are modules whose methods take the `Store` and the current user and return the HTTP status. The guards run in the order the before-actions declare them. Each status is tied to the input that causes it, and the change to the store to the model operation it performs. The list endpoints are pure functions over the tables. Their contracts say which rows are returned, how many times each, and in what order. A row is returned as often as the table holds it, and a stored table holds each row once, because every row carries its own key (`Tables.KeyedRowOccursOnce`). SQL `ORDER BY` is modelled as "some permutation of the selected rows that is sorted by the comparator", because SQL leaves the order of ties open.

The current user is an input to every action. Integers are unbounded, as Ruby's are. Times are integer seconds.

## Model

| member | source | states |
|---|---|---|
| VoteLedger.FindVote | api/app/models/article.rb:27 | `find_by(user:)` among a subject's votes: finds a row of that subject and user exactly when one exists |
| VoteLedger.CastKeepsLedger | api/app/models/article_vote.rb:5-6 | casting a ±1 vote keeps one row per (subject, user), each ±1, and leaves the user's current vote equal to the value cast |
| VoteLedger.CastTouchesOnlyPair | api/app/models/article.rb:27-29 | `find_or_initialize_by` + `save!` changes no row other than the (subject, user) row |
| VoteLedger.TallyAfterCast | api/app/models/article.rb:48-50 | after a cast, the subject's `sum(:vote_type)` moves by (new vote − previous vote) and every other subject's sum is unchanged |
| VoteLedger.TallyAfterRetract | api/app/models/article.rb:42-46 | `unvote!` leaves no vote for the pair, keeps the ledger valid and takes the user's vote out of the subject's sum only |
| VoteLedger.RetractMissingIsNoOp | api/app/models/article.rb:43-44 | `vote&.destroy` with no vote leaves the ledger exactly as it was |
| VoteLedger.CastIdempotent | api/app/models/article.rb:26-29 | voting the same way twice is the same as voting once: no duplicate row |
| VoteLedger.UpThenUnvoteRestores | api/app/models/article.rb:26-46 | an up-vote followed by an unvote restores the rows and the tally for a user who had not voted |
| VoteLedger.OpposingVotesCancel | api/app/models/article.rb:26-40 | +1 from one new voter and −1 from another leave the subject's tally as it was |
| Persistence.Store.RecountArticleVotes | api/app/models/article.rb:48-50 | `update_vote_count` writes the sum of the article's votes, or changes nothing when the row fails its validations |
| Persistence.Store.RecountArticleComments | api/app/models/article.rb:52-54 | `update_comment_count` writes the number of the article's comments that are not deleted, or changes nothing when the row fails validation |
| Persistence.Store.SaveArticleVote | api/app/models/article_vote.rb:5-15 | the vote is cast and the `after_save` callback recounts: the vote count moves by (new − previous) and the articles stay valid |
| Persistence.Store.DestroyArticleVote | api/app/models/article_vote.rb:9-15 | the vote is removed and the `after_destroy` callback recounts: the count loses the voter's vote |
| Persistence.Store.RecountCountedArticle | api/app/models/article.rb:30 | the second recount in `vote_up!` (after the callback's) changes nothing |
| Persistence.Store.VoteArticle | api/app/models/article.rb:26-40 | `vote_up!`/`vote_down!`: the ledger becomes Cast(old, article, voter, ±1), only this article's count changes (by new − previous), and one 0-point upvote/downvote activity is appended |
| Persistence.Store.UnvoteArticle | api/app/models/article.rb:42-46 | `unvote!`: the ledger becomes Retract(old, …), the count loses the voter's vote, and nothing is logged |
| Persistence.Store.IncrementViews | api/app/models/article.rb:56-58 | `increment!(:view_count)` raises exactly this article's view count by one |
| Persistence.Store.CreateArticle | api/app/controllers/api/v1/articles_controller.rb:41-45 | the built article is inserted and a 1-point 'submit' logged when it validates and its category exists; otherwise nothing changes |
| Persistence.Store.UpdateArticle | api/app/controllers/api/v1/articles_controller.rb:56 | the permitted attributes change when no required column is sent as null, the result validates and its category exists; otherwise nothing does |
| Persistence.Store.DestroyArticle | api/app/controllers/api/v1/articles_controller.rb:66 | the article row is deleted and the articles stay valid |
| Persistence.Store.RecountCommentVotes | api/app/models/comment.rb:39-41 | `update_vote_count` on a comment writes the sum of its votes, or changes nothing when the content fails validation |
| Persistence.Store.SaveCommentVote | api/app/models/comment_vote.rb:5-15 | the comment vote is cast and the callback recounts; the articles' comment counts are untouched |
| Persistence.Store.DestroyCommentVote | api/app/models/comment_vote.rb:9-15 | the comment vote is removed and the callback recounts |
| Persistence.Store.RecountCountedComment | api/app/models/comment.rb:23 | the second recount in the comment's `vote_up!` changes nothing |
| Persistence.Store.VoteComment | api/app/models/comment.rb:19-31 | the comment's ledger becomes Cast(old, comment, voter, ±1) and its count moves by (new − previous); no activity is logged |
| Persistence.Store.UnvoteComment | api/app/models/comment.rb:33-37 | the comment's ledger becomes Retract(old, …) and its count loses the voter's vote |
| Persistence.Store.InsertComment | api/app/models/comment.rb:10-13 | a comment with valid content is inserted where `set_path_and_depth` places it, and the article's live count gains one; invalid content changes nothing |
| Persistence.Store.CreateComment | api/app/models/comment.rb:12-13 | the insert, then a 1-point 'comment' activity for the author; the articles table is the old one with only this article's comment count raised by one |
| Persistence.Store.SoftDeleteComment | api/app/models/comment.rb:43-46 | only this comment is flagged deleted (its row and its replies stay), and its article's count loses one if it was live |
| Persistence.Store.UpdateComment | api/app/controllers/api/v1/comments_controller.rb:65 | with no `content` key it succeeds and changes nothing; a null `content` fails and changes nothing; a given `content` is stored exactly when it validates; no other column or row changes |
| Persistence.Store.IncrementTagUsage | api/app/models/tag.rb:14-16 | `increment!(:usage_count)` raises this tag's count by one and keeps the tag invariants |
| Persistence.Store.DecrementTagUsage | api/app/models/tag.rb:18-20 | the count drops by one only while it is positive, so it never becomes negative |
| Persistence.Store.AddTags | api/app/controllers/api/v1/articles_controller.rb:150-156 | the loop over the names leaves exactly the tags and join rows AddTagsSpec describes, keeping the tag invariants |
| Persistence.Store.CreateReport | api/app/controllers/api/v1/reports_controller.rb:30-33 | the report is inserted as 'pending' when its reason validates; otherwise nothing changes |
| Persistence.Store.ResolveReport | api/app/models/report.rb:16-18 | `resolve!` rewrites only this report, keeping the reports valid |
| Persistence.Store.DismissReport | api/app/models/report.rb:20-22 | `dismiss!` rewrites only this report, keeping the reports valid |
| Persistence.Store.CreateCategory | api/app/models/category.rb:9-12 | the slug is generated when blank, and the category is inserted when the validations pass |
| Persistence.Store.Subscribe | api/app/controllers/api/v1/categories_controller.rb:32-33 | `find_or_create_by` always leaves the subscription persisted, and the pair is then found |
| Persistence.Store.Unsubscribe | api/app/controllers/api/v1/categories_controller.rb:41-43 | reports whether the subscription existed and leaves none for the pair |
| Persistence.Store.SaveArticle | api/app/controllers/api/v1/saved_articles_controller.rb:32-34 | the save succeeds exactly when the pair is not yet saved |
| Persistence.Store.RemoveSave | api/app/controllers/api/v1/saved_articles_controller.rb:42-43 | the row goes only when it is one of the user's own saves |
| Persistence.Store.CreateUser | api/app/models/user.rb:21-25 | a user with the defaults is inserted when the validations pass, so usernames and e-mails stay unique ignoring case |
| Persistence.Store.UpdateProfile | api/app/controllers/api/v1/users_controller.rb:28 | the update always succeeds and rewrites only this user, applying the permitted fields |
| ArticleRows.NewArticle | api/app/models/article.rb:69-75 | a new article is 'pending' with zero votes, comments and views and a hotness of 0.0 |
| ArticleRows.ApplyArticleChanges | api/app/controllers/api/v1/articles_controller.rb:116-122 | a null title or category gives no row that could save; otherwise only title, description, thumbnail and category change: a given value is written, a null description or thumbnail is cleared, an absent parameter is kept; url, domain, author, status and counters are kept |
| ArticleRows.RowOf | api/app/models/article.rb:48-54 | a stored article validates and its counters equal the recomputed vote sum and live comment count |
| ArticleRows.PutKeeps | api/app/models/article.rb:12-14 | rewriting an article with a row that is valid for it keeps the table valid |
| ArticleRows.VotesRecountKeeps | api/app/models/article.rb:48-50 | after votes change on one article only, recounting that article restores the invariant |
| ArticleRows.CastKeeps | api/app/models/article.rb:26-40 | a cast plus recount keeps the table valid and moves the count by (new − previous) |
| ArticleRows.RetractKeeps | api/app/models/article.rb:42-46 | a retract plus recount keeps the table valid and removes the voter's vote from the count |
| ArticleRows.CommentsRecountKeeps | api/app/models/article.rb:52-54 | after comments change on one article only, recounting it restores the invariant |
| ArticleRows.CommentsChangeKeeps | api/app/models/article.rb:53 | comment changes that move no live count need no recount |
| ArticleRows.InsertKeeps | api/app/models/article.rb:12-16 | inserting a valid article with zero counters keeps the table valid |
| ArticleRows.DeleteKeeps | api/app/controllers/api/v1/articles_controller.rb:66 | deleting an article keeps the table valid |
| ArticleQueries.MostVotedFirstIsPreorder | api/app/models/article.rb:23 | `order(vote_count: :desc)` is a total preorder ranking a above b exactly when b has no more votes |
| ArticleQueries.HottestFirstIsPreorder | api/app/models/article.rb:22 | `order(hotness_score: :desc)` is a total preorder |
| ArticleQueries.Trending | api/app/controllers/api/v1/articles_controller.rb:88-89 | the first 20 published articles of the last 24 hours by votes, or all of them when fewer, each no more often than the table holds it; most voted first, none left out with more votes than one kept |
| ArticleQueries.Hot | api/app/controllers/api/v1/articles_controller.rb:99-100 | the first 20 published articles with positive hotness, or all of them when fewer, each no more often than the table holds it; hottest first, none left out hotter than one kept |
| ArticleQueries.Index | api/app/controllers/api/v1/articles_controller.rb:7-14 | exactly the published articles passing every given filter ('hot' also requires positive hotness), each as often as the table holds it, in the order the `sort` parameter picks (votes, hot, else newest first) |
| ArticleQueries.Feed | api/app/controllers/api/v1/feed_controller.rb:6-15 | a published article appears exactly when its category is subscribed or its author followed, as often as the table holds it; newest first |
| ArticleQueries.UserArticles | api/app/controllers/api/v1/users_controller.rb:35-40 | exactly the user's published articles, newest first; each as often as the table holds it |
| ArticleQueries.CategoryArticleCount | api/app/models/category.rb:21-23 | the number of published articles in the category, equal to the length of the index filtered by that category |
| CommentPath.Encode | api/app/models/comment.rb:59-66 | the `path` text is empty exactly for a root and otherwise starts with '.' |
| CommentPath.EncodeAppend | api/app/models/comment.rb:61 | a reply's path text is its parent's path text, '.', and the parent's id |
| CommentPath.DotsCountIds | api/app/models/comment.rb:61-62 | the path text has one '.' per ancestor |
| CommentPath.DecodeEncode | api/app/models/comment.rb:61 | the path text can be read back to the ancestor list |
| CommentPath.EncodeInjective | api/app/models/comment.rb:61 | different ancestor lists give different path texts |
| CommentPath.BoundaryMatchIffPrefix | api/app/models/comment.rb:49 | `path = P OR path LIKE 'P.%'` selects exactly the paths that extend P |
| CommentPath.ChildrenConditionIffProperPrefix | api/app/models/comment.rb:48-50 | the written `path LIKE 'own.%'` selects exactly the paths strictly extending the comment's own path |
| CommentPath.DescendantConditionIffBelow | api/app/models/comment.rb:48-50 | the corrected condition, keyed on path + "." + id, selects exactly the comments below this one |
| CommentPath.ChildrenConditionSelectsSiblingsReply | api/app/models/comment.rb:49 | the written condition selects a sibling's reply that the corrected one rejects |
| CommentTree.PlacementText | api/app/models/comment.rb:59-66 | a root gets path "" and depth 0; a reply gets the parent's path, '.', the parent's id, and the parent's depth + 1 |
| CommentTree.PlacementKeepsDepth | api/app/models/comment.rb:59-66 | under a well-formed parent, the new comment's depth equals the number of ids in its path |
| CommentTree.ArticleIndex | api/app/controllers/api/v1/comments_controller.rb:8-15 | exactly the article's live root comments, oldest first; each as often as the table holds it |
| CommentTree.Replies | api/app/models/comment.rb:6 | exactly the comments whose parent is this one, deleted ones included; each as often as the table holds it |
| CommentTree.UserComments | api/app/controllers/api/v1/users_controller.rb:51-56 | exactly the user's live comments, newest first; each as often as the table holds it |
| CommentTree.Children | api/app/models/comment.rb:48-50 | as written: every comment, of any article, whose path strictly extends this comment's path; each as often as the table holds it |
| CommentTree.Descendants | api/app/models/comment.rb:48-50 | as intended: exactly the comments below this one; each as often as the table holds it |
| CommentRows.NewComment | api/app/models/comment.rb:54-67 | a new comment has zero votes, is live, has the given author and content, and gets the resolved parent's id, path and depth |
| CommentRows.RowOf | api/app/models/comment.rb:39-41 | a stored comment validates, sits under its key, and its count equals the sum of its votes |
| CommentRows.PutKeeps | api/app/models/comment.rb:10 | rewriting a comment in place with valid content and a recounted vote total keeps the table valid |
| CommentRows.VotesRecountKeeps | api/app/models/comment.rb:39-41 | after votes change on one comment only, recounting it restores the invariant |
| CommentRows.CastKeeps | api/app/models/comment.rb:19-31 | a cast plus recount keeps the comments valid and moves the count by (new − previous) |
| CommentRows.RetractKeeps | api/app/models/comment.rb:33-37 | a retract plus recount keeps the comments valid and removes the voter's vote |
| CommentRows.InsertKeeps | api/app/models/comment.rb:10-13 | inserting a valid, placed comment with zero votes keeps the table valid |
| CommentRows.PathListsAncestors | api/app/models/comment.rb:59-66 | every stored path lists earlier comments of the same article, one per level of depth, with one '.' per ancestor |
| CommentRows.LiveCountAfterPut | api/app/models/article.rb:53 | rewriting one comment changes its article's live count by the change in its own term |
| CommentRows.LiveCountsKept | api/app/models/article.rb:53 | a rewrite that keeps the article and the deleted flag moves no live count |
| CommentRows.VoteCountKeepsArticles | api/app/models/comment.rb:39-41 | a comment's vote recount leaves the articles valid |
| CommentRows.CreateKeeps | api/app/models/comment.rb:69-71 | creating a comment keeps both tables valid and raises the article's comment count by one |
| CommentRows.SoftDeleteKeeps | api/app/models/comment.rb:43-46 | flagging a comment deleted keeps both tables valid and lowers its article's count by one if it was live |
| Karma.SubmitActivity | api/app/models/article.rb:77-83 | a submission logs a valid 1-point entry for the author |
| Karma.VoteActivity | api/app/models/article.rb:85-91 | a vote logs 'upvote' for a positive vote and 'downvote' otherwise, worth 0 points |
| Karma.CommentActivity | api/app/models/comment.rb:73-79 | a comment logs a valid 1-point entry for the author |
| Karma.LogAppend | api/app/models/user_activity.rb:6 | appending a valid entry keeps the log valid and leaves the old entries untouched |
| Karma.KarmaAppend | api/app/models/user.rb:30-32 | an entry adds its points to its own user's karma and to no one else's |
| Karma.VotingEarnsNothing | api/app/models/article.rb:85-91 | an article vote changes nobody's karma |
| Karma.KarmaCountsSubmissionsAndComments | api/app/models/user.rb:30-32 | on a log the callbacks wrote, karma is the number of the user's submissions and comments, so never negative |
| Pagination.PerPage | api/app/controllers/concerns/paginatable.rb:6-8 | 20 when absent, the given value when at most 100, else 100 |
| Pagination.RequestedPerPage | api/app/controllers/api/v1/articles_controller.rb:11 | `params[:per_page] \|\| default` takes the given value unchanged |
| Pagination.PerPageNoLowerBound | api/app/controllers/concerns/paginatable.rb:7 | zero and negative sizes pass through |
| Pagination.ClampOnlyAboveMax | api/app/controllers/concerns/paginatable.rb:7 | the clamped and unclamped sizes agree exactly up to 100 |
| TagNames.RawNames | api/app/controllers/api/v1/articles_controller.rb:151 | a string is split on ',' and each piece stripped; a list is taken as given |
| TagNames.LookupName | api/app/controllers/api/v1/articles_controller.rb:153 | the lookup name has the raw name's length and none of the capitals `Text.Downcase` lowers |
| TagNames.LookupNameIdempotent | api/app/controllers/api/v1/articles_controller.rb:153 | downcasing a lookup name changes nothing |
| TagNames.StringNamesAreClean | api/app/controllers/api/v1/articles_controller.rb:151 | names from a string contain no comma and no surrounding whitespace |
| TagTable.FindByName | api/app/controllers/api/v1/articles_controller.rb:153 | finds a tag with exactly that name when one exists |
| TagTable.FindOrCreate | api/app/controllers/api/v1/articles_controller.rb:153 | returns the existing tag with that name; else inserts a tag with that name, the generated slug and usage 0 at the next id when it validates; else returns nothing and changes nothing; no stored tag changes and the invariants hold |
| TagTable.RefusalStays | api/app/controllers/api/v1/articles_controller.rb:153 | a name `find_or_create_by` cannot find or create stays so after any other lookup |
| TagTable.RefusalStaysThroughAddTags | api/app/controllers/api/v1/articles_controller.rb:152-155 | a name refused before the `add_tags` loop is refused after it |
| TagTable.InsertKeepsTagsValid | api/app/models/tag.rb:5-9 | inserting a validated tag with usage 0 keeps names unique ignoring case and slugs unique |
| TagTable.FindOrCreateAgain | api/app/controllers/api/v1/articles_controller.rb:153 | looking the same name up again finds the same tag and creates nothing |
| TagTable.CaseVariantsShareTag | api/app/controllers/api/v1/articles_controller.rb:153 | names that differ only in letter case resolve to one tag |
| TagTable.AddTagsKeeps | api/app/controllers/api/v1/articles_controller.rb:150-156 | `add_tags` keeps the tag and join invariants and every existing tag and join row |
| TagTable.AddTagsLinksNamedTags | api/app/controllers/api/v1/articles_controller.rb:150-156 | every join row added links this article to a stored tag named by the downcased form of one of the names |
| TagTable.FirstNameLinked | api/app/controllers/api/v1/articles_controller.rb:153-154 | the tag left under the first name is the one its step found or created, and that step's join row links it |
| TagTable.AddTagsLinksEveryNamedTag | api/app/controllers/api/v1/articles_controller.rb:150-156 | the converse: every tag left under the downcased form of one of the names is linked to the article by a join row the loop added |
| TagTable.DecrementedUsage | api/app/models/tag.rb:18-20 | one less only when positive, so a count that is not negative stays so |
| TagTable.SameNamesKeep | api/app/models/tag.rb:5-6 | changing only usage counts (to values that are not negative) keeps the tags valid |
| TagTable.UsageChangeKeeps | api/app/models/tag.rb:14-20 | setting a tag's usage count to a value that is not negative keeps the tags valid |
| TagQueries.Popular | api/app/models/tag.rb:11 | exactly the tags with positive usage, most used first; each as often as the table holds it |
| TagQueries.Trending | api/app/models/tag.rb:12 | the 20 most used tags, or all of them when there are fewer, each no more often than the table holds it; none left out used more than one kept |
| Text.Strip | api/app/controllers/api/v1/articles_controller.rb:151 | the result is the input minus ASCII whitespace and NUL at both ends |
| Text.StripIdempotent | api/app/controllers/api/v1/articles_controller.rb:151 | stripping twice is stripping once |
| Text.Downcase | api/app/controllers/api/v1/articles_controller.rb:153 | the result has the input's length and holds each character lowered by `Text.DowncaseChar`: the capitals A–Z, U+00C0–U+00DE (but U+00D7), U+0386–U+03AB (the modern Greek capitals, with tonos or dialytika) and U+0400–U+042F go to their small letters; everything else is kept |
| Text.DowncaseCharLowers | api/app/controllers/api/v1/articles_controller.rb:153 | a lowered character is no longer a capital, and a character that is not a capital is kept |
| Text.DowncaseIdempotent | api/app/controllers/api/v1/articles_controller.rb:153 | downcasing twice is downcasing once |
| Text.Split | api/app/controllers/api/v1/articles_controller.rb:151 | no field contains the separator and the last field is not empty |
| Text.JoinSplitFields | api/app/controllers/api/v1/articles_controller.rb:151 | joining all the fields back with the separator gives the string |
| Text.SplitLosesOnlyTrailingEmptyFields | api/app/controllers/api/v1/articles_controller.rb:151 | `split` returns the fields minus trailing empty ones, and those fields join back to the input |
| Text.Digits | api/app/models/comment.rb:61 | `to_s` of an id is a non-empty run of decimal digits |
| Text.ParseDigitsOfDigits | api/app/models/comment.rb:61 | the digits read back to the id |
| Text.DigitsInjective | api/app/models/comment.rb:61 | distinct ids have distinct decimal strings |
| Text.StrLeTotal | api/app/models/category.rb:15 | the name ordering is total |
| Text.StrLeTransitive | api/app/models/category.rb:15 | the name ordering is transitive |
| Text.StrLeAntisymmetric | api/app/models/category.rb:15 | names ordered both ways are equal |
| CategoryQueries.DisplayOrderIsPreorder | api/app/models/category.rb:15 | `order(display_order: :asc, name: :asc)` is a total preorder |
| CategoryQueries.DisplayOrderTieIsName | api/app/models/category.rb:15 | categories tied in that order have the same display order and the same name |
| CategoryQueries.Index | api/app/controllers/api/v1/categories_controller.rb:7-10 | exactly the root categories, in display order; each as often as the table holds it |
| CategoryQueries.Subcategories | api/app/models/category.rb:17-19 | exactly the categories whose parent is this one; each as often as the table holds it |
| CategoryQueries.GrandchildrenExcluded | api/app/models/category.rb:17-19 | a grandchild is not returned by `descendants` |
| Categories.SlugFor | api/app/models/category.rb:31-33 | a present slug is kept; a blank one becomes the parameterized name when the name is present |
| Categories.InsertKeeps | api/app/models/category.rb:9-10 | inserting a category that passes validation keeps names unique among siblings and slugs unique |
| Categories.FindBySlug | api/app/controllers/api/v1/categories_controller.rb:53 | finds a category with that slug when one exists |
| Categories.FindBySlugExact | api/app/models/category.rb:10 | in a valid table, a category's slug finds that category |
| Categories.FindSubscription | api/app/controllers/api/v1/categories_controller.rb:41 | finds the user's subscription to the category when one exists |
| Categories.Subscribe | api/app/controllers/api/v1/categories_controller.rb:32 | keeps an existing subscription, else inserts one |
| Categories.Unsubscribe | api/app/controllers/api/v1/categories_controller.rb:41-43 | deletes the found subscription, else changes nothing |
| Categories.SubscribeIdempotent | api/app/controllers/api/v1/categories_controller.rb:31-38 | after subscribing there is exactly one subscription for the pair, and subscribing again changes nothing |
| Categories.UnsubscribeRemovesPair | api/app/controllers/api/v1/categories_controller.rb:40-48 | afterwards the pair has no subscription, and every other subscription is kept |
| Categories.SubscribeThenUnsubscribe | api/app/controllers/api/v1/categories_controller.rb:31-48 | subscribing then unsubscribing leaves no subscription for the pair |
| SavedArticles.FindSave | api/app/models/saved_article.rb:5 | finds the user's save of the article when one exists |
| SavedArticles.Save | api/app/controllers/api/v1/saved_articles_controller.rb:32-34 | succeeds, inserting the row, exactly when the pair is not yet saved |
| SavedArticles.Unsave | api/app/controllers/api/v1/saved_articles_controller.rb:42-43 | deletes the row exactly when it is one of the user's own saves |
| SavedArticles.SaveTwiceRefused | api/app/models/saved_article.rb:5 | saving keeps one save per pair and leaves the pair saved, and a second save is refused with no change |
| SavedArticles.UnsaveKeepsOthers | api/app/controllers/api/v1/saved_articles_controller.rb:42-43 | removing never touches another user's save and keeps the table valid |
| SavedQueries.Index | api/app/controllers/api/v1/saved_articles_controller.rb:7-11 | exactly the current user's saves, newest first; each as often as the table holds it |
| Reports.NewReport | api/app/models/report.rb:26-28 | a new report is 'pending', unresolved, and valid exactly when its reason has 10 to 500 characters |
| Reports.Close | api/app/models/report.rb:16-22 | writes the status, resolver and time and keeps every other field and the validity |
| Reports.Resolve | api/app/models/report.rb:16-18 | status 'resolved' with the resolver and the time |
| Reports.Dismiss | api/app/models/report.rb:20-22 | status 'dismissed' with the resolver and the time |
| Reports.LastCloseWins | api/app/models/report.rb:16-22 | closing twice leaves what the second call wrote, whatever the first was |
| Reports.NoGuardOnPriorStatus | api/app/models/report.rb:16-22 | a dismissed report can be resolved, a resolved one dismissed, and either keeps it valid |
| Reports.CloseKeeps | api/app/models/report.rb:6-7 | closing a stored report keeps the reports valid |
| Reports.InsertKeeps | api/app/models/report.rb:6-9 | inserting a report whose reason validates keeps the reports valid |
| ReportQueries.Index | api/app/controllers/api/v1/reports_controller.rb:7-12 | all reports, or exactly those with the given status when one is present; newest first; each as often as the table holds it |
| UserQueries.Index | api/app/controllers/api/v1/users_controller.rb:9-12 | exactly the active users, highest karma first; each as often as the table holds it |
| UserQueries.FollowCounts | api/app/models/user.rb:34-40 | a new follow raises the followed user's follower count and the follower's following count by one, and no other |
| Users.NewUser | api/app/models/user.rb:44-48 | a new user has karma 0, is active and is not verified |
| Users.InsertKeeps | api/app/models/user.rb:21-23 | inserting a user that passes validation keeps usernames and e-mails unique ignoring case |
| Users.ApplyProfile | api/app/controllers/api/v1/users_controller.rb:101-103 | only bio, website and avatar change: a given value is written, a null clears the column, an absent parameter keeps it |
| Users.SameAccountsKeep | api/app/models/user.rb:21-23 | rows whose validated columns are unchanged stay valid |
| Users.ProfileUpdateKeeps | api/app/controllers/api/v1/users_controller.rb:28 | a profile update always passes validation and keeps the users valid |
| ArticlesController.Show | api/app/controllers/api/v1/articles_controller.rb:29-39 | 404 with no change for a missing article; otherwise 200, and the articles table is the old one with only this article's view count raised by one |
| ArticlesController.Create | api/app/controllers/api/v1/articles_controller.rb:41-51 | 401 without a user; 422 with no change unless the article saves; otherwise 201, the article inserted, a 'submit' logged, and the tags added when the parameter is present |
| ArticlesController.TagsAfter | api/app/controllers/api/v1/articles_controller.rb:46 | with no `tags` parameter (or a blank one), tags and join rows are unchanged |
| ArticlesController.Update | api/app/controllers/api/v1/articles_controller.rb:53-61 | 401, 404, then 403 with no change unless the user wrote the article; otherwise 200 with the permitted changes, or 422 with none when a required column is sent as null or the result does not validate |
| ArticlesController.Destroy | api/app/controllers/api/v1/articles_controller.rb:63-68 | 401, 404, 403 with no change unless the user wrote the article; otherwise 204 and the row is gone |
| ArticlesController.Vote | api/app/controllers/api/v1/articles_controller.rb:70-81 | a vote type of 1 or −1 casts that vote and logs it; the articles table is the old one with only this article's count moved by (new − previous); the answer carries it; any other type answers 400 with no change |
| ArticlesController.Unvote | api/app/controllers/api/v1/articles_controller.rb:83-86 | the user's vote goes; the articles table is the old one with only this article's count lowered by that vote, which leaves it equal to the tally; the answer carries it |
| CommentsController.Create | api/app/controllers/api/v1/comments_controller.rb:46-60 | 404 for a missing article or a parent from another article; otherwise 201 with the comment by the current user under the resolved parent, the articles table changed only in this article's comment count (one more) and a 'comment' logged; or 422 with no change |
| CommentsController.Update | api/app/controllers/api/v1/comments_controller.rb:62-70 | 403 with no change unless the user wrote the comment; for its author, 200 with no change when `content` is not sent, 422 with no change when it is null or does not validate, otherwise 200 with only the content changed |
| CommentsController.Destroy | api/app/controllers/api/v1/comments_controller.rb:72-77 | 403 with no change unless the user wrote the comment; otherwise the row stays, flagged deleted, and the articles table changes only in its article's comment count (one less if it was live) |
| CommentsController.Vote | api/app/controllers/api/v1/comments_controller.rb:79-90 | a vote type of 1 or −1 casts that vote; the comments table is the old one with only this comment's count moved by (new − previous); any other type answers 400 with no change |
| CommentsController.Unvote | api/app/controllers/api/v1/comments_controller.rb:92-95 | the user's vote goes; the comments table changes only in this comment's count, lowered by that vote and equal to the tally |
| CategoriesController.SetCategory | api/app/controllers/api/v1/categories_controller.rb:52-54 | resolves by slug only; no category with the slug means 404 |
| CategoriesController.Subscribe | api/app/controllers/api/v1/categories_controller.rb:31-38 | 401, 404 for an unknown slug, otherwise 200 and the pair is subscribed |
| CategoriesController.Unsubscribe | api/app/controllers/api/v1/categories_controller.rb:40-48 | 200 exactly when a subscription existed; 404 with no change otherwise; afterwards none remains |
| SavedArticlesController.Create | api/app/controllers/api/v1/saved_articles_controller.rb:30-39 | 404 for a missing article; 201 exactly when the pair was not saved; 422 with no change otherwise |
| SavedArticlesController.Destroy | api/app/controllers/api/v1/saved_articles_controller.rb:41-45 | 404 with no change unless the id is one of the user's own saves; otherwise the row goes |
| ReportsController.FindReportable | api/app/controllers/api/v1/reports_controller.rb:46-55 | 'Article', 'Comment' and 'User' find that kind with the id when it exists; any other type finds nothing |
| ReportsController.Create | api/app/controllers/api/v1/reports_controller.rb:26-38 | 404 with no report for a missing reportable; otherwise a 'pending' report by the current user against it (201), or 422 |
| UsersController.Update | api/app/controllers/api/v1/users_controller.rb:27-33 | 404, then 401, then 403 unless the user is the current user; otherwise 200 with only bio, website and avatar changed (a null clears one) |

## Left out

- `Article#calculate_hotness` uses floating-point division and `** 1.5`. `hotness_score` is a stored value that the queries only filter and sort.
- JWT encoding and decoding, token expiry, `current_user` and the auth controller rely on an external library. The current user is an input to every action.
- `has_secure_password` and the password columns are not modelled.
- Library-backed checks are fields of a `Library` value given to the store, so they stay uninterpreted:
  - the http/https URL regexp;
  - `URI.parse(url).host`;
  - the e-mail regexp;
  - `String#parameterize`.
- JSON rendering and the `as_json` field allow-lists are not modelled; an action's answer is its status plus the values that decide it.
- Pagination internals are not modelled: Kaminari's `page`, `total_pages` and the meta envelopes. The page size rules are modelled, and list functions return the whole ordered list.
- `dependent: :destroy` cascades are not modelled. `DestroyArticle` removes the article row only, and comment votes, saves and reports keep dangling ids. When a comment's article is gone, `SoftDeleteComment` skips the recount.
- `String#to_i` on `vote_type` is not modelled: the vote type arrives as an integer.
- The nested comments route is not modelled: `set_article` with only `params[:id]`.
- The `show`/`index` renderings of users, categories and tags, other than the selection and order of their lists, are not modelled.
- The `CategorySubscription` and `UserFollow` model files are not part of this model. Subscriptions are modelled as the controller uses them. Follows are a fixed relation given to the store, because no core action creates one.
- Database collation is not modelled. Text ORDER BY is binary: code point by code point.
- Database atomicity and concurrent requests are not modelled; each action runs alone.
- ArticleQueries.Trending, ArticleQueries.Hot, TagQueries.Trending: they state how many rows are kept, which rows may be kept and their order, not which of several tied rows SQL would pick at the limit.
- CommentsController.Update: `params.require(:comment)` answers 400 when the request has no `comment` object. Requests are modelled after parameter parsing, so the model has no such request. The same holds for the `article`, `user` and `report` objects of ArticlesController.Create, ArticlesController.Update, UsersController.Update and ReportsController.Create.
- Text.Downcase: Ruby's `downcase` uses the full Unicode case mapping. The model lowers the ASCII, Latin-1, modern Greek (U+0386–U+03AB) and basic Cyrillic (U+0400–U+042F) capitals only, because the full mapping table (with mappings that change the length, such as U+0130) is outside this model. Other capitals, such as U+0100, the archaic Greek U+03D8 or the Cyrillic U+0460, are kept.
- TagNames.LookupName: it inherits the `Text.Downcase` gap, so a capital outside those ranges survives into the lookup name.
- TagTable.CaseVariantsShareTag: it covers names whose case differs only in capitals that `Text.Downcase` lowers. The tag uniqueness and the user uniqueness (`SameIgnoringCase`) have the same reach.
- Persistence.Store.AddTags: a tag name that fails validation gives no tag, and then no join row. The model does not reproduce the error the Rails join would record.
- Behaviours of the code that a reader might not expect:
  - The `per_page` clamp to 100 is only in `Paginatable`. The articles, comments, saved-articles, reports, feed and tags indexes pass `params[:per_page] || default` unclamped (`Pagination.RequestedPerPage`).
  - `set_category` resolves by slug only. `find_by!` raises on a miss, so the numeric-id fallback never runs.
  - `add_tags` never increments `usage_count`. A tag it creates keeps usage 0 and is not `popular`. `increment_usage`/`decrement_usage` are modelled but no action calls them.
  - An article vote logs an activity on every vote, not just the first.
  - `karma_score` is a stored column that no action writes. `calculate_karma` sums the log (`Karma.KarmaOf`), and `UserQueries.Index` orders by the stored column.
  - Rails validates before `before_create` runs `set_defaults`. The model applies the defaults first, which gives the same result because they equal the column defaults.
  - `Comment#children` keys on the comment's own path, not on path + id (see Findings).

## Findings

| source | as written | input that shows it | evidently intended | confidence | as-written member | corrected member |
|---|---|---|---|---|---|---|
| api/app/models/comment.rb:48-50 | `children` selects `path LIKE '<own path>.%'`: every comment whose path strictly extends the comment's own path | comment 9 replying to root 5 has path ".5"; its sibling 7's reply has path ".5.7", which matches ".5.%" although it is not below comment 9 | the comments below this one: path "<own path>.<own id>" or starting with it followed by '.' | not executed | CommentTree.Children, CommentPath.ChildrenConditionSelectsSiblingsReply | CommentTree.Descendants, CommentPath.DescendantConditionIffBelow |
