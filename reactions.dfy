/** The reaction server actions: toggling a user's vote on a post, comment
    or reply, and counting the votes on a target. */
module Reactions {
  import opened Wrappers
  import opened Schema
  import opened Store
  import opened Db
  import Comments

  /** The message `toggleReaction` throws when a statement fails. */
  const ToggleFailed: string := "Failed to toggle reaction"

  /** `SELECT ... WHERE user_id = ... AND target_type = ... AND target_id = ...
      LIMIT 1`: the position of the first row with that key. */
  function FindReaction(rows: seq<Reaction>, key: ReactionKey): (r: Option<nat>)
    ensures r.Some? ==> r.value < |rows| && KeyOf(rows[r.value]) == key
    ensures r.Some? ==> forall k :: 0 <= k < r.value ==> KeyOf(rows[k]) != key
    ensures r.None? <==> key !in Column(rows, KeyOf)
  {
    if rows == [] then None
    else if KeyOf(rows[0]) == key then Some(0)
    else
      var r := FindReaction(rows[1..], key);
      assert Column(rows[1..], KeyOf) == Column(rows, KeyOf)[1..];
      if r.None? then None else Some(r.value + 1)
  }

  /** A row appended under a new key is where the lookup finds that key. */
  lemma {:induction false} FindAfterAppend(rows: seq<Reaction>, row: Reaction)
    requires KeyOf(row) !in Column(rows, KeyOf)
    ensures FindReaction(rows + [row], KeyOf(row)) == Some(|rows|)
  {
    if rows != [] {
      assert Column(rows, KeyOf)[0] == KeyOf(rows[0]);
      assert Column(rows[1..], KeyOf) == Column(rows, KeyOf)[1..];
      assert (rows + [row])[1..] == rows[1..] + [row];
      FindAfterAppend(rows[1..], row);
    }
  }

  /** Rewriting the found row without changing its key keeps it found. */
  lemma {:induction false} FindAfterUpdate(rows: seq<Reaction>, key: ReactionKey, i: nat, row: Reaction)
    requires FindReaction(rows, key) == Some(i) && KeyOf(row) == key
    ensures FindReaction(rows[i := row], key) == Some(i)
  {
    if i > 0 {
      assert KeyOf(rows[0]) != key;
      assert FindReaction(rows[1..], key) == Some(i - 1);
      assert rows[i := row][1..] == rows[1..][i - 1 := row];
      FindAfterUpdate(rows[1..], key, i - 1, row);
    }
  }

  /** Rows carrying the key `key`. */
  function WithKey(key: ReactionKey): Reaction -> bool
  {
    (r: Reaction) => KeyOf(r) == key
  }

  /** `toggleReaction(userId, targetType, targetId, reactionType)`: look up
      the user's reaction on the target; the same type is deleted (result
      `null`), the other type is switched (result the updated row), no row
      means a new one is inserted (result the new row). Any failing
      statement is rethrown as "Failed to toggle reaction". */
  function Toggle(t: Tables, userId: int, targetType: TargetType, targetId: int,
                  rtype: ReactionType, now: Time): (o: Outcome<Option<Reaction>>)
    ensures o.result.Err? ==> o.tables == t && o.result.error == ToggleFailed
    ensures Consistent(t) ==> Consistent(o.tables)
  {
    match FindReaction(t.reactions, ReactionKey(userId, targetType, targetId))
    case Some(i) =>
      var existing := t.reactions[i];
      if existing.rtype == rtype then
        var s := DeleteReactionWhereId(t, existing.id);
        Outcome(s.tables, Ok(None))
      else
        var s := UpdateReactionTypeWhereId(t, existing.id, rtype);
        var rows := s.result.value;
        FilterMemberOf(s.tables.reactions, ReactionHasId(existing.id), s.tables.reactions[i]);
        Outcome(s.tables, Ok(Some(rows[0])))
    case None =>
      var s := InsertReaction(t, rtype, userId, targetType, targetId, now);
      if s.result.Err? then Outcome(t, Err(ToggleFailed))
      else Outcome(s.tables, Ok(Some(s.result.value)))
  }

  /** The server action itself, against the shared connection. */
  method ToggleReaction(db: Database, userId: int, targetType: TargetType, targetId: int,
                        rtype: ReactionType, now: Time) returns (r: Result<Option<Reaction>, string>)
    modifies db
    ensures Outcome(db.State(), r) == Toggle(old(db.State()), userId, targetType, targetId, rtype, now)
    ensures old(db.Valid()) ==> db.Valid()
  {
    var existing := FindReaction(db.reactions, ReactionKey(userId, targetType, targetId));
    var result: Option<Reaction> := None;
    if existing.Some? {
      var row := db.reactions[existing.value];
      if row.rtype == rtype {
        var _ := db.DeleteReactionWhereId(row.id);
        result := None;
      } else {
        var updated := db.UpdateReactionTypeWhereId(row.id, rtype);
        FilterMemberOf(db.reactions, ReactionHasId(row.id), db.reactions[existing.value]);
        result := Some(updated.value[0]);
      }
    } else {
      var inserted := db.InsertReaction(rtype, userId, targetType, targetId, now);
      if inserted.Err? {
        return Err(ToggleFailed);
      }
      result := Some(inserted.value);
    }
    r := Ok(result);
  }

  /* ---------------- the three outcomes of a toggle ---------------- */

  /** No row for the key: exactly one row is appended, carrying the
      requested type, the user and the target, and it is returned. */
  lemma ToggleInsertsWhenAbsent(t: Tables, userId: int, targetType: TargetType, targetId: int,
                                rtype: ReactionType, now: Time)
    requires ReactionKey(userId, targetType, targetId) !in Column(t.reactions, KeyOf)
    requires userId in UserIds(t)
    ensures var o := Toggle(t, userId, targetType, targetId, rtype, now);
            var row := Reaction(t.nextReactionId, rtype, userId, targetType, targetId, Some(now));
            && o.result == Ok(Some(row))
            && o.tables == t.(reactions := t.reactions + [row], nextReactionId := t.nextReactionId + 1)
  {
  }

  /** An unknown user cannot get a first reaction: the insert violates the
      foreign key and the action throws, changing nothing. */
  lemma ToggleUnknownUserFails(t: Tables, userId: int, targetType: TargetType, targetId: int,
                               rtype: ReactionType, now: Time)
    requires ReactionKey(userId, targetType, targetId) !in Column(t.reactions, KeyOf)
    requires userId !in UserIds(t)
    ensures Toggle(t, userId, targetType, targetId, rtype, now) == Outcome(t, Err(ToggleFailed))
  {
  }

  /** With a serial key, no other row shares the id of the row at `i`. */
  lemma {:induction false} IdUniqueAt(rows: seq<Reaction>, i: nat, next: nat)
    requires SerialKey(Column(rows, ReactionId), next) && i < |rows|
    ensures forall k :: 0 <= k < |rows| && k != i ==> rows[k].id != rows[i].id
  {
    var ids := Column(rows, ReactionId);
    forall k | 0 <= k < |rows| && k != i ensures rows[k].id != rows[i].id {
      assert ids[k] == rows[k].id && ids[i] == rows[i].id;
    }
  }

  /** Removing the rows with a unique id removes exactly the row at its position. */
  lemma {:induction false} RemoveById(rows: seq<Reaction>, i: nat)
    requires i < |rows| && forall k :: 0 <= k < |rows| && k != i ==> rows[k].id != rows[i].id
    ensures Filter(rows, ReactionNotId(rows[i].id)) == rows[..i] + rows[i + 1..]
  {
    FilterAllBut(rows, i, ReactionNotId(rows[i].id));
  }

  /** Rewriting the type of the row with a unique id changes that row only,
      and `RETURNING` yields that row alone. */
  lemma {:induction false} SwitchById(rows: seq<Reaction>, i: nat, rtype: ReactionType)
    requires i < |rows| && forall k :: 0 <= k < |rows| && k != i ==> rows[k].id != rows[i].id
    ensures SetReactionType(rows, rows[i].id, rtype) == rows[i := rows[i].(rtype := rtype)]
    ensures Filter(rows[i := rows[i].(rtype := rtype)], ReactionHasId(rows[i].id))
            == [rows[i].(rtype := rtype)]
  {
    var rows' := rows[i := rows[i].(rtype := rtype)];
    assert forall k :: 0 <= k < |rows| && k != i ==> rows'[k] == rows[k];
    FilterOnly(rows', i, ReactionHasId(rows[i].id));
  }

  /** A row of the requested type is deleted and `null` is returned. */
  lemma {:induction false} ToggleRemovesSameType(t: Tables, userId: int, targetType: TargetType, targetId: int,
                              rtype: ReactionType, now: Time, i: nat)
    requires SerialKey(Column(t.reactions, ReactionId), t.nextReactionId)
    requires FindReaction(t.reactions, ReactionKey(userId, targetType, targetId)) == Some(i)
    requires t.reactions[i].rtype == rtype
    ensures var o := Toggle(t, userId, targetType, targetId, rtype, now);
            && o.result == Ok(None)
            && o.tables == t.(reactions := t.reactions[..i] + t.reactions[i + 1..])
  {
    IdUniqueAt(t.reactions, i, t.nextReactionId);
    RemoveById(t.reactions, i);
  }

  /** A row of the other type gets the requested type, keeps its id, user
      and target, stays in place, and is returned. */
  lemma {:induction false} ToggleSwitchesOtherType(t: Tables, userId: int, targetType: TargetType, targetId: int,
                                rtype: ReactionType, now: Time, i: nat)
    requires SerialKey(Column(t.reactions, ReactionId), t.nextReactionId)
    requires FindReaction(t.reactions, ReactionKey(userId, targetType, targetId)) == Some(i)
    requires t.reactions[i].rtype != rtype
    ensures var o := Toggle(t, userId, targetType, targetId, rtype, now);
            var row := t.reactions[i].(rtype := rtype);
            && o.result == Ok(Some(row))
            && o.tables == t.(reactions := t.reactions[i := row])
  {
    IdUniqueAt(t.reactions, i, t.nextReactionId);
    SwitchById(t.reactions, i, rtype);
  }

  /* ---------------- what a toggle preserves ---------------- */

  /** The rows of every other (user, target type, target id) key are left as
      they were, in the same order. */
  lemma {:induction false} ToggleLeavesOtherKeys(t: Tables, userId: int, targetType: TargetType, targetId: int,
                              rtype: ReactionType, now: Time, other: ReactionKey)
    requires SerialKey(Column(t.reactions, ReactionId), t.nextReactionId)
    requires other != ReactionKey(userId, targetType, targetId)
    ensures Filter(Toggle(t, userId, targetType, targetId, rtype, now).tables.reactions, WithKey(other))
            == Filter(t.reactions, WithKey(other))
  {
    var o := Toggle(t, userId, targetType, targetId, rtype, now);
    var rows := t.reactions;
    match FindReaction(rows, ReactionKey(userId, targetType, targetId))
    case None =>
      if o.result.Ok? {
        ToggleInsertsWhenAbsentCase(t, userId, targetType, targetId, rtype, now);
        var row := Reaction(t.nextReactionId, rtype, userId, targetType, targetId, Some(now));
        FilterAppend(rows, [row], WithKey(other));
        FilterOne(row, WithKey(other));
      }
    case Some(i) =>
      if rows[i].rtype == rtype {
        ToggleRemovesSameType(t, userId, targetType, targetId, rtype, now, i);
        FilterRemoveAt(rows, i, WithKey(other));
        FilterOne(rows[i], WithKey(other));
      } else {
        ToggleSwitchesOtherType(t, userId, targetType, targetId, rtype, now, i);
        FilterUpdateAt(rows, i, rows[i].(rtype := rtype), WithKey(other));
        FilterOne(rows[i], WithKey(other));
        FilterOne(rows[i].(rtype := rtype), WithKey(other));
      }
  }

  /** The insert branch whenever the row is absent and the insert succeeds. */
  lemma ToggleInsertsWhenAbsentCase(t: Tables, userId: int, targetType: TargetType, targetId: int,
                                    rtype: ReactionType, now: Time)
    requires FindReaction(t.reactions, ReactionKey(userId, targetType, targetId)).None?
    requires Toggle(t, userId, targetType, targetId, rtype, now).result.Ok?
    ensures userId in UserIds(t)
    ensures Toggle(t, userId, targetType, targetId, rtype, now).tables.reactions
            == t.reactions + [Reaction(t.nextReactionId, rtype, userId, targetType, targetId, Some(now))]
  {
  }

  /** The toggle keeps at most one reaction per user and target: the
      invariant the non-unique index leaves to the application. */
  lemma {:induction false} TogglePreservesAtMostOnePerKey(t: Tables, userId: int, targetType: TargetType, targetId: int,
                                       rtype: ReactionType, now: Time)
    requires Consistent(t) && AtMostOnePerKey(t.reactions)
    ensures AtMostOnePerKey(Toggle(t, userId, targetType, targetId, rtype, now).tables.reactions)
  {
    var key := ReactionKey(userId, targetType, targetId);
    var o := Toggle(t, userId, targetType, targetId, rtype, now);
    match FindReaction(t.reactions, key)
    case None =>
      if o.result.Ok? {
        ToggleInsertsWhenAbsentCase(t, userId, targetType, targetId, rtype, now);
        AppendDistinct(t.reactions, KeyOf,
                       Reaction(t.nextReactionId, rtype, userId, targetType, targetId, Some(now)));
      }
    case Some(i) =>
      if t.reactions[i].rtype == rtype {
        FilterKeepsDistinct(t.reactions, ReactionNotId(t.reactions[i].id), KeyOf);
      } else {
        ToggleSwitchesOtherType(t, userId, targetType, targetId, rtype, now, i);
        assert Column(o.tables.reactions, KeyOf) == Column(t.reactions, KeyOf);
      }
  }

  /** Toggling one type twice, starting from no reaction, gives back the
      reactions table (the id sequence has moved on by one). */
  lemma {:induction false} ToggleTwiceRestores(t: Tables, userId: int, targetType: TargetType, targetId: int,
                            rtype: ReactionType, now1: Time, now2: Time)
    requires Consistent(t)
    requires ReactionKey(userId, targetType, targetId) !in Column(t.reactions, KeyOf)
    ensures var o1 := Toggle(t, userId, targetType, targetId, rtype, now1);
            var o2 := Toggle(o1.tables, userId, targetType, targetId, rtype, now2);
            o2.result.Ok? ==> o2.tables.reactions == t.reactions
                              && o2.tables == t.(nextReactionId := o2.tables.nextReactionId)
  {
    var o1 := Toggle(t, userId, targetType, targetId, rtype, now1);
    if o1.result.Ok? {
      var row := Reaction(t.nextReactionId, rtype, userId, targetType, targetId, Some(now1));
      var rows := t.reactions + [row];
      ToggleInsertsWhenAbsentCase(t, userId, targetType, targetId, rtype, now1);
      ToggleInsertsWhenAbsent(t, userId, targetType, targetId, rtype, now1);
      var t1 := t.(reactions := rows, nextReactionId := t.nextReactionId + 1);
      assert o1.tables == t1;
      FindAfterAppend(t.reactions, row);
      ToggleRemovesSameType(t1, userId, targetType, targetId, rtype, now2, |t.reactions|);
      assert rows[..|t.reactions|] + rows[|t.reactions| + 1..] == t.reactions;
    }
  }

  /* ---------------- counting ---------------- */

  /** The result of `getReactionCounts`. */
  datatype Counts = Counts(upvotes: nat, downvotes: nat)

  /** Rows that count as a vote of `rtype` on the target. */
  function IsVote(targetType: TargetType, targetId: int, rtype: ReactionType): Reaction -> bool
  {
    (r: Reaction) => r.targetType == targetType && r.targetId == targetId && r.rtype == rtype
  }

  /** Rows on the target, of either type. */
  function OnTarget(targetType: TargetType, targetId: int): Reaction -> bool
  {
    (r: Reaction) => r.targetType == targetType && r.targetId == targetId
  }

  /** `COUNT(CASE WHEN type = ... THEN 1 END)` over the target's rows. */
  function CountVotes(rows: seq<Reaction>, targetType: TargetType, targetId: int,
                      rtype: ReactionType): (n: nat)
    ensures n <= |rows|
  {
    |Filter(rows, IsVote(targetType, targetId, rtype))|
  }

  /** `getReactionCounts(targetType, targetId)`; `db` is `None` when the
      query fails, and then both counts are 0. */
  function GetReactionCounts(db: Option<Tables>, targetType: TargetType, targetId: int): (c: Counts)
    ensures db.None? ==> c == Counts(0, 0)
    ensures db.Some? ==> c.upvotes + c.downvotes == |Filter(db.value.reactions, OnTarget(targetType, targetId))|
  {
    match db
    case None => Counts(0, 0)
    case Some(t) =>
      VotesSplit(t.reactions, targetType, targetId);
      Counts(CountVotes(t.reactions, targetType, targetId, Upvote),
             CountVotes(t.reactions, targetType, targetId, Downvote))
  }

  /** Every reaction on a target is an upvote or a downvote. */
  lemma {:induction false} VotesSplit(rows: seq<Reaction>, targetType: TargetType, targetId: int)
    ensures CountVotes(rows, targetType, targetId, Upvote) + CountVotes(rows, targetType, targetId, Downvote)
            == |Filter(rows, OnTarget(targetType, targetId))|
  {
    if rows != [] {
      VotesSplit(rows[1..], targetType, targetId);
    }
  }

  /** The count change a toggle makes on its own target: +1 of the type on
      insert, -1 on delete, and on a switch +1 of the new type and -1 of the
      old, so that the total stays the same. */
  lemma {:induction false} ToggleCounts(t: Tables, userId: int, targetType: TargetType, targetId: int,
                     rtype: ReactionType, now: Time)
    requires SerialKey(Column(t.reactions, ReactionId), t.nextReactionId)
    ensures var o := Toggle(t, userId, targetType, targetId, rtype, now);
            var before := GetReactionCounts(Some(t), targetType, targetId);
            var after := GetReactionCounts(Some(o.tables), targetType, targetId);
            var up := if rtype == Upvote then 1 else 0;
            var down := 1 - up;
            o.result.Ok? ==>
              match FindReaction(t.reactions, ReactionKey(userId, targetType, targetId))
              case None =>
                after.upvotes == before.upvotes + up && after.downvotes == before.downvotes + down
              case Some(i) =>
                if t.reactions[i].rtype == rtype then
                  after.upvotes == before.upvotes - up && after.downvotes == before.downvotes - down
                else
                  && after.upvotes == before.upvotes + up - down
                  && after.downvotes == before.downvotes + down - up
                  && after.upvotes + after.downvotes == before.upvotes + before.downvotes
  {
    var o := Toggle(t, userId, targetType, targetId, rtype, now);
    if o.result.Ok? {
      match FindReaction(t.reactions, ReactionKey(userId, targetType, targetId))
      case None =>
        ToggleCountsInsert(t, userId, targetType, targetId, rtype, now);
      case Some(i) =>
        if t.reactions[i].rtype == rtype {
          ToggleCountsRemove(t, userId, targetType, targetId, rtype, now, i);
        } else {
          ToggleCountsSwitch(t, userId, targetType, targetId, rtype, now, i);
        }
    }
  }

  /** The insert case of `ToggleCounts`. */
  lemma {:induction false} ToggleCountsInsert(t: Tables, userId: int, targetType: TargetType, targetId: int,
                           rtype: ReactionType, now: Time)
    requires FindReaction(t.reactions, ReactionKey(userId, targetType, targetId)).None?
    requires Toggle(t, userId, targetType, targetId, rtype, now).result.Ok?
    ensures var rows := Toggle(t, userId, targetType, targetId, rtype, now).tables.reactions;
            var up := if rtype == Upvote then 1 else 0;
            && CountVotes(rows, targetType, targetId, Upvote) == CountVotes(t.reactions, targetType, targetId, Upvote) + up
            && CountVotes(rows, targetType, targetId, Downvote) == CountVotes(t.reactions, targetType, targetId, Downvote) + 1 - up
  {
    ToggleInsertsWhenAbsentCase(t, userId, targetType, targetId, rtype, now);
    var row := Reaction(t.nextReactionId, rtype, userId, targetType, targetId, Some(now));
    var isUp, isDown := IsVote(targetType, targetId, Upvote), IsVote(targetType, targetId, Downvote);
    FilterAppend(t.reactions, [row], isUp);
    FilterAppend(t.reactions, [row], isDown);
    FilterOne(row, isUp);
    FilterOne(row, isDown);
  }

  /** The delete case of `ToggleCounts`. */
  lemma {:induction false} ToggleCountsRemove(t: Tables, userId: int, targetType: TargetType, targetId: int,
                           rtype: ReactionType, now: Time, i: nat)
    requires SerialKey(Column(t.reactions, ReactionId), t.nextReactionId)
    requires FindReaction(t.reactions, ReactionKey(userId, targetType, targetId)) == Some(i)
    requires t.reactions[i].rtype == rtype
    ensures var rows := Toggle(t, userId, targetType, targetId, rtype, now).tables.reactions;
            var up := if rtype == Upvote then 1 else 0;
            && CountVotes(rows, targetType, targetId, Upvote) + up == CountVotes(t.reactions, targetType, targetId, Upvote)
            && CountVotes(rows, targetType, targetId, Downvote) + 1 - up == CountVotes(t.reactions, targetType, targetId, Downvote)
  {
    var rows := t.reactions;
    var isUp, isDown := IsVote(targetType, targetId, Upvote), IsVote(targetType, targetId, Downvote);
    ToggleRemovesSameType(t, userId, targetType, targetId, rtype, now, i);
    FilterOne(rows[i], isUp);
    FilterOne(rows[i], isDown);
    FilterRemoveAt(rows, i, isUp);
    FilterRemoveAt(rows, i, isDown);
  }

  /** The switch case of `ToggleCounts`. */
  lemma {:induction false} ToggleCountsSwitch(t: Tables, userId: int, targetType: TargetType, targetId: int,
                           rtype: ReactionType, now: Time, i: nat)
    requires SerialKey(Column(t.reactions, ReactionId), t.nextReactionId)
    requires FindReaction(t.reactions, ReactionKey(userId, targetType, targetId)) == Some(i)
    requires t.reactions[i].rtype != rtype
    ensures var rows := Toggle(t, userId, targetType, targetId, rtype, now).tables.reactions;
            var up := if rtype == Upvote then 1 else 0;
            && CountVotes(rows, targetType, targetId, Upvote) + 1 - up == CountVotes(t.reactions, targetType, targetId, Upvote) + up
            && CountVotes(rows, targetType, targetId, Downvote) + up == CountVotes(t.reactions, targetType, targetId, Downvote) + 1 - up
  {
    var rows := t.reactions;
    var isUp, isDown := IsVote(targetType, targetId, Upvote), IsVote(targetType, targetId, Downvote);
    ToggleSwitchesOtherType(t, userId, targetType, targetId, rtype, now, i);
    var row := rows[i].(rtype := rtype);
    FilterOne(rows[i], isUp);
    FilterOne(rows[i], isDown);
    FilterUpdateAt(rows, i, row, isUp);
    FilterUpdateAt(rows, i, row, isDown);
    FilterOne(row, isUp);
    FilterOne(row, isDown);
  }

  /** `getUserReaction(userId, targetType, targetId)`: the first row with
      that key, or `null` when there is none or the query fails. */
  function GetUserReaction(db: Option<Tables>, userId: int, targetType: TargetType,
                           targetId: int): (r: Option<Reaction>)
    ensures r.Some? ==> db.Some? && r.value in db.value.reactions
                        && KeyOf(r.value) == ReactionKey(userId, targetType, targetId)
    ensures db.Some? && r.None? ==>
              ReactionKey(userId, targetType, targetId) !in Column(db.value.reactions, KeyOf)
  {
    match db
    case None => None
    case Some(t) =>
      match FindReaction(t.reactions, ReactionKey(userId, targetType, targetId))
      case None => None
      case Some(i) => Some(t.reactions[i])
  }

  /** The result of `getPostStats`. */
  datatype PostStats = PostStats(upvotes: nat, downvotes: nat, comments: nat)

  /** `getPostStats(postId)`: the post's vote counts and its number of
      comments (replies are not counted); all zero when a query fails. */
  function GetPostStats(db: Option<Tables>, postId: int): (s: PostStats)
    ensures db.None? ==> s == PostStats(0, 0, 0)
    ensures db.Some? ==> s.comments == |Filter(db.value.comments, Comments.OnPost(postId))|
  {
    match db
    case None => PostStats(0, 0, 0)
    case Some(t) =>
      PostStats(CountVotes(t.reactions, PostTarget, postId, Upvote),
                CountVotes(t.reactions, PostTarget, postId, Downvote),
                |Filter(t.comments, Comments.OnPost(postId))|)
  }

  /** The post statistics carry the same vote counts as `getReactionCounts`
      on the post. */
  lemma PostStatsAgreeWithCounts(db: Option<Tables>, postId: int)
    ensures var s := GetPostStats(db, postId);
            var c := GetReactionCounts(db, PostTarget, postId);
            s.upvotes == c.upvotes && s.downvotes == c.downvotes
  {
  }
}
