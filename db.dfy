/** The database connection the server actions share. */
module Db {
  import opened Wrappers
  import opened Schema
  import Store

  /** The connection the server actions share: the tables it holds change
      in place, one statement at a time. */
  class Database {
    var users: seq<User>
    var posts: seq<Post>
    var comments: seq<Comment>
    var replies: seq<Reply>
    var reactions: seq<Reaction>
    var postImages: seq<PostImage>
    var nextUserId: nat
    var nextPostId: nat
    var nextCommentId: nat
    var nextReplyId: nat
    var nextReactionId: nat
    var nextImageId: nat

    /** Everything the database holds, as one value. */
    function State(): Tables
      reads this
    {
      Tables(users, posts, comments, replies, reactions, postImages,
             nextUserId, nextPostId, nextCommentId, nextReplyId, nextReactionId, nextImageId)
    }

    ghost predicate Valid()
      reads this
    {
      Consistent(State())
    }

    /** A freshly migrated database. */
    constructor()
      ensures State() == EmptyTables() && Valid()
    {
      users, posts, comments, replies, reactions, postImages := [], [], [], [], [], [];
      nextUserId, nextPostId, nextCommentId, nextReplyId, nextReactionId, nextImageId := 1, 1, 1, 1, 1, 1;
    }

    /** Replace the contents with `t` (the commit of one statement). */
    method Commit(t: Tables)
      modifies this
      ensures State() == t
    {
      users := t.users;
      posts := t.posts;
      comments := t.comments;
      replies := t.replies;
      reactions := t.reactions;
      postImages := t.postImages;
      nextUserId := t.nextUserId;
      nextPostId := t.nextPostId;
      nextCommentId := t.nextCommentId;
      nextReplyId := t.nextReplyId;
      nextReactionId := t.nextReactionId;
      nextImageId := t.nextImageId;
    }

    method InsertUser(clerkId: string, firstName: Option<string>, lastName: Option<string>,
                      email: string, now: Time) returns (r: Result<User, Store.DbError>)
      modifies this
      ensures Store.Stmt(State(), r) == Store.InsertUser(old(State()), clerkId, firstName, lastName, email, now)
      ensures old(Valid()) ==> Valid()
    {
      var s := Store.InsertUser(State(), clerkId, firstName, lastName, email, now);
      Commit(s.tables);
      r := s.result;
    }

    method InsertPost(title: string, slug: string, content: string, userId: int, now: Time)
      returns (r: Result<Post, Store.DbError>)
      modifies this
      ensures Store.Stmt(State(), r) == Store.InsertPost(old(State()), title, slug, content, userId, now)
      ensures old(Valid()) ==> Valid()
    {
      var s := Store.InsertPost(State(), title, slug, content, userId, now);
      Commit(s.tables);
      r := s.result;
    }

    method UpdatePostWhereId(id: int, title: string, slug: string, content: string)
      returns (r: Result<nat, Store.DbError>)
      modifies this
      ensures Store.Stmt(State(), r) == Store.UpdatePostWhereId(old(State()), id, title, slug, content)
      ensures old(Valid()) ==> Valid()
    {
      var s := Store.UpdatePostWhereId(State(), id, title, slug, content);
      Commit(s.tables);
      r := s.result;
    }

    method DeletePostWhereId(id: int) returns (r: Result<nat, Store.DbError>)
      modifies this
      ensures Store.Stmt(State(), r) == Store.DeletePostWhereId(old(State()), id)
      ensures old(Valid()) ==> Valid()
    {
      var s := Store.DeletePostWhereId(State(), id);
      Commit(s.tables);
      r := s.result;
    }

    method DeleteImagesWherePostId(postId: int) returns (r: Result<nat, Store.DbError>)
      modifies this
      ensures Store.Stmt(State(), r) == Store.DeleteImagesWherePostId(old(State()), postId)
      ensures old(Valid()) ==> Valid()
    {
      var s := Store.DeleteImagesWherePostId(State(), postId);
      Commit(s.tables);
      r := s.result;
    }

    method InsertPostImages(postId: int, urls: seq<string>, now: Time)
      returns (r: Result<seq<PostImage>, Store.DbError>)
      requires |urls| > 0
      modifies this
      ensures Store.Stmt(State(), r) == Store.InsertPostImages(old(State()), postId, urls, now)
      ensures old(Valid()) ==> Valid()
    {
      var s := Store.InsertPostImages(State(), postId, urls, now);
      Commit(s.tables);
      r := s.result;
    }

    method InsertComment(content: string, userId: int, postId: int, now: Time)
      returns (r: Result<Comment, Store.DbError>)
      modifies this
      ensures Store.Stmt(State(), r) == Store.InsertComment(old(State()), content, userId, postId, now)
      ensures old(Valid()) ==> Valid()
    {
      var s := Store.InsertComment(State(), content, userId, postId, now);
      Commit(s.tables);
      r := s.result;
    }

    method InsertReply(content: string, userId: int, commentId: int, now: Time)
      returns (r: Result<Reply, Store.DbError>)
      modifies this
      ensures Store.Stmt(State(), r) == Store.InsertReply(old(State()), content, userId, commentId, now)
      ensures old(Valid()) ==> Valid()
    {
      var s := Store.InsertReply(State(), content, userId, commentId, now);
      Commit(s.tables);
      r := s.result;
    }

    method DeleteCommentWhereId(id: int) returns (r: Result<nat, Store.DbError>)
      modifies this
      ensures Store.Stmt(State(), r) == Store.DeleteCommentWhereId(old(State()), id)
      ensures old(Valid()) ==> Valid()
    {
      var s := Store.DeleteCommentWhereId(State(), id);
      Commit(s.tables);
      r := s.result;
    }

    method InsertReaction(rtype: ReactionType, userId: int, targetType: TargetType,
                          targetId: int, now: Time) returns (r: Result<Reaction, Store.DbError>)
      modifies this
      ensures Store.Stmt(State(), r) == Store.InsertReaction(old(State()), rtype, userId, targetType, targetId, now)
      ensures old(Valid()) ==> Valid()
    {
      var s := Store.InsertReaction(State(), rtype, userId, targetType, targetId, now);
      Commit(s.tables);
      r := s.result;
    }

    method UpdateReactionTypeWhereId(id: int, rtype: ReactionType)
      returns (r: Result<seq<Reaction>, Store.DbError>)
      modifies this
      ensures Store.Stmt(State(), r) == Store.UpdateReactionTypeWhereId(old(State()), id, rtype)
      ensures old(Valid()) ==> Valid()
    {
      var s := Store.UpdateReactionTypeWhereId(State(), id, rtype);
      Commit(s.tables);
      r := s.result;
    }

    method DeleteReactionWhereId(id: int) returns (r: Result<nat, Store.DbError>)
      modifies this
      ensures Store.Stmt(State(), r) == Store.DeleteReactionWhereId(old(State()), id)
      ensures old(Valid()) ==> Valid()
    {
      var s := Store.DeleteReactionWhereId(State(), id);
      Commit(s.tables);
      r := s.result;
    }
  }
}
