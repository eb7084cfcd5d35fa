/** The vote buttons shown under a post, comment or reply: a local copy of
    the counts and of the user's own reaction, updated optimistically after
    each successful server toggle. */
module ReactionButtonUi {
  import opened Wrappers
  import opened Schema
  import opened Store
  import opened Db
  import opened Reactions
  import opened Toasts

  /** The button's state: `currentReaction`, `upvotes`, `downvotes`. */
  datatype LocalState = LocalState(current: Option<ReactionType>, upvotes: int, downvotes: int)

  /** What a click does, both locally and on the server. */
  datatype Change = Added | Removed | Switched

  /** The case `handleReaction` takes for a click on `rtype`. */
  function ClickKind(current: Option<ReactionType>, rtype: ReactionType): Change
  {
    if current == Some(rtype) then Removed
    else if current.None? then Added
    else Switched
  }

  /** The branch `toggleReaction` takes on the database. */
  function ServerKind(t: Tables, key: ReactionKey, rtype: ReactionType): Change
  {
    match FindReaction(t.reactions, key)
    case None => Added
    case Some(i) => if t.reactions[i].rtype == rtype then Removed else Switched
  }

  /** The local update after the toggle returned. */
  function Step(s: LocalState, rtype: ReactionType): (s': LocalState)
    ensures ClickKind(s.current, rtype) == Removed ==> s'.current.None?
    ensures ClickKind(s.current, rtype) != Removed ==> s'.current == Some(rtype)
  {
    var up := if rtype == Upvote then 1 else 0;
    var down := 1 - up;
    match ClickKind(s.current, rtype)
    case Removed => LocalState(None, s.upvotes - up, s.downvotes - down)
    case Added => LocalState(Some(rtype), s.upvotes + up, s.downvotes + down)
    case Switched => LocalState(Some(rtype), s.upvotes + up - down, s.downvotes + down - up)
  }

  /** Clicking the current reaction clears it and takes one off its counter. */
  lemma StepRemoves(s: LocalState, rtype: ReactionType)
    requires s.current == Some(rtype)
    ensures var s' := Step(s, rtype);
            && s'.current.None?
            && (rtype == Upvote ==> s'.upvotes == s.upvotes - 1 && s'.downvotes == s.downvotes)
            && (rtype == Downvote ==> s'.downvotes == s.downvotes - 1 && s'.upvotes == s.upvotes)
  {
  }

  /** With no reaction, a click sets it and adds one to its counter. */
  lemma StepAdds(s: LocalState, rtype: ReactionType)
    requires s.current.None?
    ensures var s' := Step(s, rtype);
            && s'.current == Some(rtype)
            && (rtype == Upvote ==> s'.upvotes == s.upvotes + 1 && s'.downvotes == s.downvotes)
            && (rtype == Downvote ==> s'.downvotes == s.downvotes + 1 && s'.upvotes == s.upvotes)
  {
  }

  /** Switching moves one vote from the old counter to the new one. */
  lemma StepSwitches(s: LocalState, rtype: ReactionType)
    requires s.current.Some? && s.current != Some(rtype)
    ensures var s' := Step(s, rtype);
            && s'.current == Some(rtype)
            && (rtype == Upvote ==> s'.upvotes == s.upvotes + 1 && s'.downvotes == s.downvotes - 1)
            && (rtype == Downvote ==> s'.downvotes == s.downvotes + 1 && s'.upvotes == s.upvotes - 1)
            && s'.upvotes + s'.downvotes == s.upvotes + s.downvotes
  {
  }

  /** Clicking one button twice, from no reaction or from that reaction,
      gives back the state. */
  lemma StepTwiceRestores(s: LocalState, rtype: ReactionType)
    requires s.current.None? || s.current == Some(rtype)
    ensures Step(Step(s, rtype), rtype) == s
  {
  }

  /** The local state agrees with the database: the user's own reaction
      on the target and the target's two counts. */
  ghost predicate InSync(t: Tables, userId: int, targetType: TargetType, targetId: int, s: LocalState)
  {
    var own := GetUserReaction(Some(t), userId, targetType, targetId);
    var counts := GetReactionCounts(Some(t), targetType, targetId);
    && s.current == (if own.Some? then Some(own.value.rtype) else None)
    && s.upvotes == counts.upvotes
    && s.downvotes == counts.downvotes
  }

  /** A key that occurs once disappears with the row that carries it. */
  lemma {:induction false} RemovedKeyGone(rows: seq<Reaction>, i: nat)
    requires i < |rows| && AtMostOnePerKey(rows)
    ensures KeyOf(rows[i]) !in Column(rows[..i] + rows[i + 1..], KeyOf)
  {
    var rest := rows[..i] + rows[i + 1..];
    var keys := Column(rows, KeyOf);
    forall k | 0 <= k < |rest| ensures KeyOf(rest[k]) != KeyOf(rows[i]) {
      if k < i {
        assert rest[k] == rows[k] && keys[k] != keys[i];
      } else {
        assert rest[k] == rows[k + 1] && keys[i] != keys[k + 1];
      }
    }
  }

  /** The local case always matches the server's: add with insert, remove
      with delete, switch with update. */
  lemma ClickMatchesServer(t: Tables, userId: int, targetType: TargetType, targetId: int,
                           s: LocalState, rtype: ReactionType)
    requires InSync(t, userId, targetType, targetId, s)
    ensures ClickKind(s.current, rtype) == ServerKind(t, ReactionKey(userId, targetType, targetId), rtype)
  {
  }

  /** After a successful toggle, the updated local state agrees with the
      database again: the button moves in step with the server. */
  lemma {:induction false} StepMatchesToggle(t: Tables, userId: int, targetType: TargetType, targetId: int,
                          s: LocalState, rtype: ReactionType, now: Time)
    requires Consistent(t) && AtMostOnePerKey(t.reactions)
    requires InSync(t, userId, targetType, targetId, s)
    requires Toggle(t, userId, targetType, targetId, rtype, now).result.Ok?
    ensures InSync(Toggle(t, userId, targetType, targetId, rtype, now).tables,
                   userId, targetType, targetId, Step(s, rtype))
  {
    match FindReaction(t.reactions, ReactionKey(userId, targetType, targetId))
    case None =>
      InsertMatchesStep(t, userId, targetType, targetId, s, rtype, now);
    case Some(i) =>
      if t.reactions[i].rtype == rtype {
        RemoveMatchesStep(t, userId, targetType, targetId, s, rtype, now, i);
      } else {
        SwitchMatchesStep(t, userId, targetType, targetId, s, rtype, now, i);
      }
  }

  /** The insert case of `StepMatchesToggle`. */
  lemma {:induction false} InsertMatchesStep(t: Tables, userId: int, targetType: TargetType, targetId: int,
                          s: LocalState, rtype: ReactionType, now: Time)
    requires InSync(t, userId, targetType, targetId, s)
    requires FindReaction(t.reactions, ReactionKey(userId, targetType, targetId)).None?
    requires Toggle(t, userId, targetType, targetId, rtype, now).result.Ok?
    ensures InSync(Toggle(t, userId, targetType, targetId, rtype, now).tables,
                   userId, targetType, targetId, Step(s, rtype))
  {
    ToggleCountsInsert(t, userId, targetType, targetId, rtype, now);
    ToggleInsertsWhenAbsentCase(t, userId, targetType, targetId, rtype, now);
    FindAfterAppend(t.reactions, Reaction(t.nextReactionId, rtype, userId, targetType, targetId, Some(now)));
  }

  /** The delete case of `StepMatchesToggle`. */
  lemma {:induction false} RemoveMatchesStep(t: Tables, userId: int, targetType: TargetType, targetId: int,
                          s: LocalState, rtype: ReactionType, now: Time, i: nat)
    requires Consistent(t) && AtMostOnePerKey(t.reactions)
    requires InSync(t, userId, targetType, targetId, s)
    requires FindReaction(t.reactions, ReactionKey(userId, targetType, targetId)) == Some(i)
    requires t.reactions[i].rtype == rtype
    ensures InSync(Toggle(t, userId, targetType, targetId, rtype, now).tables,
                   userId, targetType, targetId, Step(s, rtype))
  {
    ToggleCountsRemove(t, userId, targetType, targetId, rtype, now, i);
    ToggleRemovesSameType(t, userId, targetType, targetId, rtype, now, i);
    RemovedKeyGone(t.reactions, i);
  }

  /** The switch case of `StepMatchesToggle`. */
  lemma {:induction false} SwitchMatchesStep(t: Tables, userId: int, targetType: TargetType, targetId: int,
                          s: LocalState, rtype: ReactionType, now: Time, i: nat)
    requires Consistent(t)
    requires InSync(t, userId, targetType, targetId, s)
    requires FindReaction(t.reactions, ReactionKey(userId, targetType, targetId)) == Some(i)
    requires t.reactions[i].rtype != rtype
    ensures InSync(Toggle(t, userId, targetType, targetId, rtype, now).tables,
                   userId, targetType, targetId, Step(s, rtype))
  {
    ToggleCountsSwitch(t, userId, targetType, targetId, rtype, now, i);
    ToggleSwitchesOtherType(t, userId, targetType, targetId, rtype, now, i);
    FindAfterUpdate(t.reactions, ReactionKey(userId, targetType, targetId), i, t.reactions[i].(rtype := rtype));
  }

  const LoginMessage: string := "Please log in to react to posts"

  /** One `ReactionButton` component instance. */
  class ReactionButton {
    const targetType: TargetType
    const targetId: int
    const userId: Option<int>
    var upvotes: int
    var downvotes: int
    var currentReaction: Option<ReactionType>

    function Local(): LocalState
      reads this
    {
      LocalState(currentReaction, upvotes, downvotes)
    }

    /** The component's props become its initial state. */
    constructor(targetType: TargetType, targetId: int, userId: Option<int>,
                initialUpvotes: int, initialDownvotes: int, userReaction: Option<ReactionType>)
      ensures this.targetType == targetType && this.targetId == targetId && this.userId == userId
      ensures Local() == LocalState(userReaction, initialUpvotes, initialDownvotes)
    {
      this.targetType, this.targetId, this.userId := targetType, targetId, userId;
      upvotes, downvotes, currentReaction := initialUpvotes, initialDownvotes, userReaction;
    }

    /** `!userId`: `null` and `0` both count as logged out. */
    function LoggedIn(): (r: bool)
      reads this
      ensures r ==> userId.Some?
      ensures userId == None || userId == Some(0) ==> !r
    {
      userId.Some? && userId.value != 0
    }

    /** The state setters `handleReaction` calls once the toggle returned. */
    method ApplyClick(rtype: ReactionType)
      modifies this
      ensures Local() == Step(old(Local()), rtype)
    {
      var up := if rtype == Upvote then 1 else 0;
      var down := 1 - up;
      if currentReaction == Some(rtype) {
        currentReaction := None;
        upvotes, downvotes := upvotes - up, downvotes - down;
      } else if currentReaction.None? {
        currentReaction := Some(rtype);
        upvotes, downvotes := upvotes + up, downvotes + down;
      } else {
        currentReaction := Some(rtype);
        upvotes, downvotes := upvotes + up - down, downvotes + down - up;
      }
    }

    /** `handleReaction(type)`. A logged-out click only shows the login toast
        (`toastId` is the id the toast hook draws). Otherwise the toggle runs
        on the server; if it throws, only the log sees it, and if it returns,
        the local state takes the step for the case it had before the click. */
    method HandleReaction(rtype: ReactionType, db: Database, toasts: ToastStore, toastId: string, now: Time)
      modifies this, db, toasts
      ensures !LoggedIn() ==>
                && unchanged(this) && unchanged(db)
                && toasts.toasts == old(toasts.toasts) + [Toast(toastId, LoginMessage, Info, DefaultDuration)]
      ensures LoggedIn() ==>
                var o := Toggle(old(db.State()), userId.value, targetType, targetId, rtype, now);
                && db.State() == o.tables
                && Local() == (if o.result.Ok? then Step(old(Local()), rtype) else old(Local()))
                && unchanged(toasts)
      ensures old(db.Valid()) ==> db.Valid()
    {
      if !(userId.Some? && userId.value != 0) {
        var _ := toasts.ShowToast(LoginMessage, Info, toastId);
        return;
      }
      var r := ToggleReaction(db, userId.value, targetType, targetId, rtype, now);
      if r.Ok? {
        ApplyClick(rtype);
      }
    }
  }
}
