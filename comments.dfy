/** The comment server actions: create a comment on a post, create a reply
    to a comment, and list a post's comments or a comment's replies newest
    first. Content is stored exactly as given. */
module Comments {
  import opened Wrappers
  import opened Schema
  import opened Store
  import opened Db

  /* ---------------- ORDER BY created_at DESC ---------------- */

  /** `a` may come before `b` under `ORDER BY created_at DESC`: PostgreSQL
      puts NULLs first in a descending order, then the later times. */
  predicate NewerOrEqual(a: Option<Time>, b: Option<Time>): (r: bool)
    ensures a == b ==> r
    ensures a.None? ==> r
  {
    a.None? || (b.Some? && a.value >= b.value)
  }

  /** Every row comes before every later row in the descending order. */
  predicate NewestFirst<T>(s: seq<T>, created: T -> Option<Time>)
  {
    forall i, j :: 0 <= i < j < |s| ==> NewerOrEqual(created(s[i]), created(s[j]))
  }

  lemma NewerOrEqualTotal(a: Option<Time>, b: Option<Time>)
    ensures NewerOrEqual(a, b) || NewerOrEqual(b, a)
  {
  }

  lemma NewerOrEqualTransitive(a: Option<Time>, b: Option<Time>, c: Option<Time>)
    requires NewerOrEqual(a, b) && NewerOrEqual(b, c)
    ensures NewerOrEqual(a, c)
  {
  }

  /** Put `x` in front of the first row it is at least as new as. */
  function InsertByDate<T(==)>(x: T, s: seq<T>, created: T -> Option<Time>): (r: seq<T>)
    ensures multiset(r) == multiset(s) + multiset{x}
    ensures NewestFirst(s, created) ==> NewestFirst(r, created)
  {
    if s == [] then [x]
    else if NewerOrEqual(created(x), created(s[0])) then
      var r := [x] + s;
      assert NewestFirst(s, created) ==> NewestFirst(r, created) by {
        if NewestFirst(s, created) {
          forall i, j | 0 <= i < j < |r| ensures NewerOrEqual(created(r[i]), created(r[j])) {
            if i == 0 && j > 1 {
              NewerOrEqualTransitive(created(x), created(s[0]), created(s[j - 1]));
            }
          }
        }
      }
      r
    else
      var rest := InsertByDate(x, s[1..], created);
      var r := [s[0]] + rest;
      assert s == [s[0]] + s[1..];
      assert NewestFirst(s, created) ==> NewestFirst(r, created) by {
        if NewestFirst(s, created) {
          assert NewestFirst(s[1..], created);
          forall i, j | 0 <= i < j < |r| ensures NewerOrEqual(created(r[i]), created(r[j])) {
            if i == 0 {
              assert r[j] in multiset(rest);
              if r[j] == x {
                NewerOrEqualTotal(created(x), created(s[0]));
              } else {
                assert r[j] in multiset(s[1..]);
                var k :| 0 <= k < |s[1..]| && s[1..][k] == r[j];
                assert s[k + 1] == r[j];
              }
            }
          }
        }
      }
      r
  }

  /** The rows of `s` in `ORDER BY created_at DESC` order: the same rows,
      newest first. PostgreSQL leaves the order of equal times open; this
      one keeps storage order among them. */
  function SortNewestFirst<T(==)>(s: seq<T>, created: T -> Option<Time>): (r: seq<T>)
    ensures multiset(r) == multiset(s)
    ensures NewestFirst(r, created)
  {
    if s == [] then []
    else
      assert s == [s[0]] + s[1..];
      InsertByDate(s[0], SortNewestFirst(s[1..], created), created)
  }

  /* ---------------- comments ---------------- */

  const CommentFailed: string := "Failed to create comment"
  const ReplyFailed: string := "Failed to create reply"

  function CommentCreated(c: Comment): Option<Time> { c.createdAt }
  function ReplyCreated(r: Reply): Option<Time> { r.createdAt }

  function OnPost(postId: int): Comment -> bool
  {
    (c: Comment) => c.postId == postId
  }

  function UnderComment(commentId: int): Reply -> bool
  {
    (r: Reply) => r.commentId == commentId
  }

  /** `getCommentsByPostId(postId)`: exactly the post's comments, newest
      first. */
  function GetCommentsByPostId(t: Tables, postId: int): (r: seq<Comment>)
    ensures forall c :: c in r <==> c in t.comments && c.postId == postId
    ensures multiset(r) == multiset(Filter(t.comments, OnPost(postId)))
    ensures NewestFirst(r, CommentCreated)
  {
    var rows := Filter(t.comments, OnPost(postId));
    var r := SortNewestFirst(rows, CommentCreated);
    forall c ensures c in r <==> c in t.comments && c.postId == postId {
      FilterMemberOf(t.comments, OnPost(postId), c);
      assert c in r <==> c in multiset(r);
      assert c in rows <==> c in multiset(rows);
    }
    r
  }

  /** `getRepliesByCommentId(commentId)`: exactly the comment's replies,
      newest first. */
  function GetRepliesByCommentId(t: Tables, commentId: int): (r: seq<Reply>)
    ensures forall x :: x in r <==> x in t.replies && x.commentId == commentId
    ensures multiset(r) == multiset(Filter(t.replies, UnderComment(commentId)))
    ensures NewestFirst(r, ReplyCreated)
  {
    var rows := Filter(t.replies, UnderComment(commentId));
    var r := SortNewestFirst(rows, ReplyCreated);
    forall x ensures x in r <==> x in t.replies && x.commentId == commentId {
      FilterMemberOf(t.replies, UnderComment(commentId), x);
      assert x in r <==> x in multiset(r);
      assert x in rows <==> x in multiset(rows);
    }
    r
  }

  /** `createComment(postId, content, userId)`: one comment row with the
      content as given; any database error becomes "Failed to create
      comment" and changes nothing. */
  function NewComment(t: Tables, postId: int, content: string, userId: int, now: Time): (o: Outcome<Comment>)
    ensures o.result.Ok? <==> userId in UserIds(t) && postId in PostIds(t)
    ensures o.result.Err? ==> o == Outcome(t, Err(CommentFailed))
    ensures o.result.Ok? ==>
              && o.result.value == Comment(t.nextCommentId, content, userId, postId, Some(now), Some(now))
              && o.tables == t.(comments := t.comments + [o.result.value], nextCommentId := t.nextCommentId + 1)
    ensures Consistent(t) ==> Consistent(o.tables)
  {
    var s := InsertComment(t, content, userId, postId, now);
    if s.result.Err? then Outcome(t, Err(CommentFailed)) else Outcome(s.tables, Ok(s.result.value))
  }

  method CreateComment(db: Database, postId: int, content: string, userId: int, now: Time)
    returns (r: Result<Comment, string>)
    modifies db
    ensures Outcome(db.State(), r) == NewComment(old(db.State()), postId, content, userId, now)
    ensures old(db.Valid()) ==> db.Valid()
  {
    var inserted := db.InsertComment(content, userId, postId, now);
    if inserted.Err? {
      return Err(CommentFailed);
    }
    r := Ok(inserted.value);
  }

  /** `createReply(commentId, content, userId)`: one reply row with the
      content as given; any database error becomes "Failed to create
      reply" and changes nothing. */
  function NewReply(t: Tables, commentId: int, content: string, userId: int, now: Time): (o: Outcome<Reply>)
    ensures o.result.Ok? <==> userId in UserIds(t) && commentId in CommentIds(t)
    ensures o.result.Err? ==> o == Outcome(t, Err(ReplyFailed))
    ensures o.result.Ok? ==>
              && o.result.value == Reply(t.nextReplyId, content, userId, commentId, Some(now), Some(now))
              && o.tables == t.(replies := t.replies + [o.result.value], nextReplyId := t.nextReplyId + 1)
    ensures Consistent(t) ==> Consistent(o.tables)
  {
    var s := InsertReply(t, content, userId, commentId, now);
    if s.result.Err? then Outcome(t, Err(ReplyFailed)) else Outcome(s.tables, Ok(s.result.value))
  }

  method CreateReply(db: Database, commentId: int, content: string, userId: int, now: Time)
    returns (r: Result<Reply, string>)
    modifies db
    ensures Outcome(db.State(), r) == NewReply(old(db.State()), commentId, content, userId, now)
    ensures old(db.Valid()) ==> db.Valid()
  {
    var inserted := db.InsertReply(content, userId, commentId, now);
    if inserted.Err? {
      return Err(ReplyFailed);
    }
    r := Ok(inserted.value);
  }

  /** A created comment is listed under its post, together with the
      comments that were there before, and no other post's list changes. */
  lemma {:induction false} NewCommentListed(t: Tables, postId: int, content: string, userId: int, now: Time, other: int)
    requires NewComment(t, postId, content, userId, now).result.Ok?
    ensures var o := NewComment(t, postId, content, userId, now);
            && multiset(GetCommentsByPostId(o.tables, postId))
               == multiset(GetCommentsByPostId(t, postId)) + multiset{o.result.value}
            && (other != postId ==> GetCommentsByPostId(o.tables, other) == GetCommentsByPostId(t, other))
  {
    var o := NewComment(t, postId, content, userId, now);
    var c := o.result.value;
    FilterAppend(t.comments, [c], OnPost(postId));
    FilterOne(c, OnPost(postId));
    FilterAppend(t.comments, [c], OnPost(other));
    FilterOne(c, OnPost(other));
    assert Filter(t.comments, OnPost(other)) + [] == Filter(t.comments, OnPost(other));
  }

  /** A created reply is listed under its comment, together with the
      replies that were there before, and no other comment's list changes. */
  lemma {:induction false} NewReplyListed(t: Tables, commentId: int, content: string, userId: int, now: Time, other: int)
    requires NewReply(t, commentId, content, userId, now).result.Ok?
    ensures var o := NewReply(t, commentId, content, userId, now);
            && multiset(GetRepliesByCommentId(o.tables, commentId))
               == multiset(GetRepliesByCommentId(t, commentId)) + multiset{o.result.value}
            && (other != commentId ==> GetRepliesByCommentId(o.tables, other) == GetRepliesByCommentId(t, other))
  {
    var o := NewReply(t, commentId, content, userId, now);
    var x := o.result.value;
    FilterAppend(t.replies, [x], UnderComment(commentId));
    FilterOne(x, UnderComment(commentId));
    FilterAppend(t.replies, [x], UnderComment(other));
    FilterOne(x, UnderComment(other));
    assert Filter(t.replies, UnderComment(other)) + [] == Filter(t.replies, UnderComment(other));
  }
}
