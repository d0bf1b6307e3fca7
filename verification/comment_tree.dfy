/**
 * Comments as a tree stored in one table: where a new comment is placed,
 * how many live comments an article has, and the comment queries.
 */
module CommentTree {
  import opened Wrappers
  import opened Text
  import opened Tables
  import opened Ordering
  import opened CommentPath
  import opened Entities

  /** `set_path_and_depth`: the path and depth a new comment receives. */
  function Placement(parent: Option<Comment>): (Path, int) {
    match parent
    case None => ([], 0)
    case Some(p) => (p.path + [p.id], p.depth + 1)
  }

  /**
   * In the stored text: a root comment gets the empty path and depth 0; a
   * reply gets its parent's path text, a '.', and the parent's id, one
   * level deeper.
   */
  lemma PlacementText(parent: Option<Comment>)
    ensures var r := Placement(parent);
      && (parent.None? ==> Encode(r.0) == "" && r.1 == 0)
      && (parent.Some? ==>
            Encode(r.0) == Encode(parent.value.path) + "." + Digits(parent.value.id)
            && r.1 == parent.value.depth + 1)
  {
    if parent.Some? {
      EncodeAppend(parent.value.path, parent.value.id);
    }
  }

  /** A comment's depth is the number of '.'-separated ids in its stored path. */
  predicate DepthMatchesPath(c: Comment) {
    CountChar(Encode(c.path), '.') == c.depth
  }

  /** Placing under a well-formed parent (or at the root) yields a well-formed comment. */
  lemma PlacementKeepsDepth(parent: Option<Comment>, c: Comment)
    requires parent.Some? ==> DepthMatchesPath(parent.value)
    requires (c.path, c.depth) == Placement(parent)
    ensures DepthMatchesPath(c)
  {
    DotsCountIds(c.path);
    if parent.Some? {
      DotsCountIds(parent.value.path);
    }
  }

  /** The term a comment contributes to `comments.where(is_deleted: false).count`. */
  function LiveWeight(article: nat): Comment -> int {
    (c: Comment) => if c.articleId == article && !c.isDeleted then 1 else 0
  }

  /** The number of the article's comments that are not soft-deleted. */
  function LiveCount(comments: map<nat, Comment>, article: nat): int {
    SumMap(comments, LiveWeight(article))
  }

  /** `scope :active`. */
  predicate Active(c: Comment) { !c.isDeleted }

  /** `scope :root_comments`. */
  predicate IsRoot(c: Comment) { c.parentId.None? }

  predicate InTable(comments: map<nat, Comment>, c: Comment) {
    exists k :: k in comments && comments[k] == c
  }

  /** ORDER BY created_at ASC. */
  function OldestFirst(): (Comment, Comment) -> bool {
    Ascending((c: Comment) => c.createdAt)
  }

  /** ORDER BY created_at DESC. */
  function NewestFirst(): (Comment, Comment) -> bool {
    Descending((c: Comment) => c.createdAt)
  }

  /** `CommentsController#index`: the article's live root comments, oldest first. */
  function ArticleIndex(comments: map<nat, Comment>, article: nat): (r: seq<Comment>)
    ensures forall c :: c in r <==> InTable(comments, c) && c.articleId == article && Active(c) && IsRoot(c)
    ensures Sorted(r, OldestFirst())
    ensures forall c ::
      multiset(r)[c] == if c.articleId == article && Active(c) && IsRoot(c) then Occurrences(comments, c) else 0
  {
    AscendingIsPreorder((c: Comment) => c.createdAt);
    var p := (c: Comment) => c.articleId == article && Active(c) && IsRoot(c);
    SelectFromTable(comments, p, OldestFirst())
  }

  /** `has_many :replies`: the direct replies, deleted ones included. */
  function Replies(comments: map<nat, Comment>, c: Comment): (r: seq<Comment>)
    ensures forall x :: x in r <==> InTable(comments, x) && x.parentId == Some(c.id)
    ensures forall x :: multiset(r)[x] == if x.parentId == Some(c.id) then Occurrences(comments, x) else 0
  {
    var p := (x: Comment) => x.parentId == Some(c.id);
    FilterRowsCounts(comments, p);
    Filter(Rows(comments), p)
  }

  /** `UsersController#comments`: the user's live comments, newest first. */
  function UserComments(comments: map<nat, Comment>, user: nat): (r: seq<Comment>)
    ensures forall c :: c in r <==> InTable(comments, c) && c.userId == user && Active(c)
    ensures Sorted(r, NewestFirst())
    ensures forall c :: multiset(r)[c] == if c.userId == user && Active(c) then Occurrences(comments, c) else 0
  {
    DescendingIsPreorder((c: Comment) => c.createdAt);
    var p := (c: Comment) => c.userId == user && Active(c);
    SelectFromTable(comments, p, NewestFirst())
  }

  /**
   * `Comment#children` as written: every comment, of any article, whose
   * path text starts with this comment's own path text and a '.'.  That is
   * every comment whose path strictly extends this comment's path.
   */
  function Children(comments: map<nat, Comment>, c: Comment): (r: seq<Comment>)
    ensures forall x :: x in r <==>
      InTable(comments, x) && IsPrefix(c.path, x.path) && |c.path| < |x.path|
    ensures forall x ::
      multiset(r)[x] == if IsPrefix(c.path, x.path) && |c.path| < |x.path| then Occurrences(comments, x) else 0
  {
    forall x: Comment ensures ChildrenCondition(c.path, x.path) <==> IsPrefix(c.path, x.path) && |c.path| < |x.path| {
      ChildrenConditionIffProperPrefix(c.path, x.path);
    }
    var p := (x: Comment) => ChildrenCondition(c.path, x.path);
    FilterRowsCounts(comments, p);
    Filter(Rows(comments), p)
  }

  /**
   * The evidently intended query: the comments below this one, found by the
   * path text `path + "." + id` at a '.' boundary.
   */
  function Descendants(comments: map<nat, Comment>, c: Comment): (r: seq<Comment>)
    ensures forall x :: x in r <==> InTable(comments, x) && IsPrefix(c.path + [c.id], x.path)
    ensures forall x :: multiset(r)[x] == if IsPrefix(c.path + [c.id], x.path) then Occurrences(comments, x) else 0
  {
    forall x: Comment ensures DescendantCondition(c.path, c.id, x.path) <==> IsPrefix(c.path + [c.id], x.path) {
      DescendantConditionIffBelow(c.path, c.id, x.path);
    }
    var p := (x: Comment) => DescendantCondition(c.path, c.id, x.path);
    FilterRowsCounts(comments, p);
    Filter(Rows(comments), p)
  }
}
