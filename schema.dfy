/** The relational schema of the blog: the two enums, one row type per table,
    the whole database as a value, and the constraints the schema declares
    (primary keys from serial sequences, unique columns, foreign keys). */
module Schema {
  import opened Wrappers

  /** `reaction_type` enum: 'upvote' | 'downvote'. */
  datatype ReactionType = Upvote | Downvote

  /** `target_type` enum: 'post' | 'comment' | 'reply'. */
  datatype TargetType = PostTarget | CommentTarget | ReplyTarget

  function ReactionTypeLabel(t: ReactionType): string
  {
    match t
    case Upvote => "upvote"
    case Downvote => "downvote"
  }

  function TargetTypeLabel(t: TargetType): string
  {
    match t
    case PostTarget => "post"
    case CommentTarget => "comment"
    case ReplyTarget => "reply"
  }

  /** The enum accepts exactly its two labels. */
  function ParseReactionType(s: string): (r: Option<ReactionType>)
    ensures r.Some? <==> (s == "upvote" || s == "downvote")
    ensures r.Some? ==> ReactionTypeLabel(r.value) == s
  {
    if s == "upvote" then Some(Upvote)
    else if s == "downvote" then Some(Downvote)
    else None
  }

  /** The enum accepts exactly its three labels. */
  function ParseTargetType(s: string): (r: Option<TargetType>)
    ensures r.Some? <==> (s == "post" || s == "comment" || s == "reply")
    ensures r.Some? ==> TargetTypeLabel(r.value) == s
  {
    if s == "post" then Some(PostTarget)
    else if s == "comment" then Some(CommentTarget)
    else if s == "reply" then Some(ReplyTarget)
    else None
  }

  lemma ReactionTypeLabelRoundTrip(t: ReactionType)
    ensures ParseReactionType(ReactionTypeLabel(t)) == Some(t)
  {
  }

  lemma TargetTypeLabelRoundTrip(t: TargetType)
    ensures ParseTargetType(TargetTypeLabel(t)) == Some(t)
  {
  }

  /** Timestamps are milliseconds since the epoch; nullable columns are Options. */
  type Time = int

  datatype User = User(id: int, clerkId: string, firstName: Option<string>,
                       lastName: Option<string>, email: string,
                       createdAt: Option<Time>, updatedAt: Option<Time>)

  datatype Post = Post(id: int, title: string, slug: string, content: string,
                       userId: int, createdAt: Option<Time>, updatedAt: Option<Time>)

  datatype Comment = Comment(id: int, content: string, userId: int, postId: int,
                             createdAt: Option<Time>, updatedAt: Option<Time>)

  datatype Reply = Reply(id: int, content: string, userId: int, commentId: int,
                         createdAt: Option<Time>, updatedAt: Option<Time>)

  /** A polymorphic reaction: `targetId` names a post, comment or reply
      according to `targetType`, without a foreign key. */
  datatype Reaction = Reaction(id: int, rtype: ReactionType, userId: int,
                               targetType: TargetType, targetId: int,
                               createdAt: Option<Time>)

  datatype PostImage = PostImage(id: int, postId: int, imageUrl: string,
                                 createdAt: Option<Time>)

  /** The whole database: every table's rows in storage order, and the next
      value of every table's serial id sequence. */
  datatype Tables = Tables(
    users: seq<User>, posts: seq<Post>, comments: seq<Comment>,
    replies: seq<Reply>, reactions: seq<Reaction>, postImages: seq<PostImage>,
    nextUserId: nat, nextPostId: nat, nextCommentId: nat,
    nextReplyId: nat, nextReactionId: nat, nextImageId: nat)

  /** A fresh database: empty tables, sequences starting at 1. */
  function EmptyTables(): Tables
  {
    Tables([], [], [], [], [], [], 1, 1, 1, 1, 1, 1)
  }

  /** One column of a table. */
  function Column<T, K>(rows: seq<T>, f: T -> K): (c: seq<K>)
    ensures |c| == |rows| && forall i :: 0 <= i < |rows| ==> c[i] == f(rows[i])
  {
    seq(|rows|, i requires 0 <= i < |rows| => f(rows[i]))
  }

  function UserId(u: User): int { u.id }
  function UserClerkId(u: User): string { u.clerkId }
  function UserEmail(u: User): string { u.email }
  function PostId(p: Post): int { p.id }
  function PostSlug(p: Post): string { p.slug }
  function CommentId(c: Comment): int { c.id }
  function ReplyId(r: Reply): int { r.id }
  function ReactionId(r: Reaction): int { r.id }
  function ImageId(i: PostImage): int { i.id }

  predicate Distinct<K(==)>(ks: seq<K>)
  {
    forall i, j :: 0 <= i < j < |ks| ==> ks[i] != ks[j]
  }

  /** A `serial` primary key: values drawn from a sequence that starts at 1
      and has handed out everything below `next`. */
  predicate SerialKey(ids: seq<int>, next: nat)
  {
    next >= 1 && Distinct(ids) && forall i :: 0 <= i < |ids| ==> 1 <= ids[i] < next
  }

  function UserIds(t: Tables): seq<int> { Column(t.users, UserId) }
  function PostIds(t: Tables): seq<int> { Column(t.posts, PostId) }
  function CommentIds(t: Tables): seq<int> { Column(t.comments, CommentId) }

  predicate KeysValid(t: Tables)
  {
    && SerialKey(UserIds(t), t.nextUserId)
    && SerialKey(PostIds(t), t.nextPostId)
    && SerialKey(CommentIds(t), t.nextCommentId)
    && SerialKey(Column(t.replies, ReplyId), t.nextReplyId)
    && SerialKey(Column(t.reactions, ReactionId), t.nextReactionId)
    && SerialKey(Column(t.postImages, ImageId), t.nextImageId)
  }

  /** `users.clerk_id`, `users.email` and `posts.slug` are `unique()`. */
  predicate UniquesValid(t: Tables)
  {
    && Distinct(Column(t.users, UserClerkId))
    && Distinct(Column(t.users, UserEmail))
    && Distinct(Column(t.posts, PostSlug))
  }

  /** Every `references(...)` column points at an existing row; the
      reactions table's `target_id` has no foreign key. */
  predicate ForeignKeysValid(t: Tables)
  {
    && (forall p :: p in t.posts ==> p.userId in UserIds(t))
    && (forall c :: c in t.comments ==> c.userId in UserIds(t) && c.postId in PostIds(t))
    && (forall r :: r in t.replies ==> r.userId in UserIds(t) && r.commentId in CommentIds(t))
    && (forall r :: r in t.reactions ==> r.userId in UserIds(t))
    && (forall i :: i in t.postImages ==> i.postId in PostIds(t))
  }

  /** Everything the schema's declarations guarantee of a database. */
  predicate Consistent(t: Tables)
  {
    KeysValid(t) && UniquesValid(t) && ForeignKeysValid(t)
  }

  /** The key of the `idx_reactions_user_target` index. */
  datatype ReactionKey = ReactionKey(userId: int, targetType: TargetType, targetId: int)

  function KeyOf(r: Reaction): ReactionKey
  {
    ReactionKey(r.userId, r.targetType, r.targetId)
  }

  /** At most one reaction row per (user, target type, target id). */
  predicate AtMostOnePerKey(rows: seq<Reaction>)
  {
    Distinct(Column(rows, KeyOf))
  }

  lemma EmptyConsistent()
    ensures Consistent(EmptyTables())
  {
  }

  /** `idx_reactions_user_target` is a plain index, not a unique one: a
      database holding two reactions of one user on one target satisfies
      every declared constraint. */
  lemma {:induction false} SchemaAllowsDuplicateReactions()
    ensures exists t :: Consistent(t) && !AtMostOnePerKey(t.reactions)
  {
    var u := User(1, "clerk_1", None, None, "a@example.com", None, None);
    var r1 := Reaction(1, Upvote, 1, PostTarget, 7, None);
    var r2 := Reaction(2, Downvote, 1, PostTarget, 7, None);
    var t := EmptyTables().(users := [u], reactions := [r1, r2],
                            nextUserId := 2, nextReactionId := 3);
    assert UserIds(t) == [1];
    assert Column(t.reactions, ReactionId) == [1, 2];
    assert Column(t.reactions, KeyOf)[0] == Column(t.reactions, KeyOf)[1];
    assert Consistent(t);
  }
}
