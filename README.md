# Blog core: a Dafny model

This project models the core behaviour of a small blogging application
(Next.js server actions over a PostgreSQL database). Its parts are:

- **Schema** (`schema.dfy`):
  - the database schema as values: users, posts, comments, replies, reactions and post images;
  - the two enums;
  - the constraints the schema declares: serial primary keys, unique columns and foreign keys.
- **Statements** (`store.dfy`): every SQL statement the actions issue, as a function from the database before to the database after and the returned rows or PostgreSQL error. A failing statement changes nothing. The declared `varchar` lengths, unique columns, foreign keys and `ON DELETE CASCADE` clauses are modelled.
- **Connection** (`db.dfy`): the shared database connection, as a class whose tables change in place, one statement at a time.
- **Server actions**, each as a pure specification and as a method that drives the connection statement by statement, with no transaction between statements:
  - the reaction toggle and the vote counts (`reactions.dfy`);
  - post create, read, update and delete, with their error messages (`posts.dfy`);
  - comments and replies, listed newest first (`comments.dfy`).
- **Reaction button** (`reaction_button.dfy`): the client-side reaction counter, and the proof that it moves in step with the server toggle.
- **Toasts** (`toasts.dfy`): the toast list behind `useToast`. The components take `showToast` from `useToastContext` in `@/providers/ToastProvider`, which is not part of this model. The model takes that provider to hand out the `useToast` list.
- **HTML text helpers** (`helper.dfy`, `blogs_page.dfy`):
  - tag stripping, `&nbsp;` replacement, trimming, truncation with `"..."`;
  - `<img src>` extraction;
  - the newest-first in-place sort of the blog listing.
- **Structured data** (`structured_data.dfy`): the schema.org `BlogPosting` JSON-LD record of a post page.
- **Shared definitions** (`jsstring.dfy`, `wrappers.dfy`): the JavaScript string operations used (`trim`, `includes`, number-to-decimal) and the Option/Result types.

The model takes these as parameters, because they are foreign to the code:
- the clock (`Date.now()` and the database's `now()`, as one `now` value);
- `slugify`;
- the random toast ids;
- `toISOString`;
- the `NEXT_PUBLIC_APP_URL` setting;
- the callbacks passed to the structured-data builder.

Two behaviours of the code are worth stating up front:
- **Deleting a post.** `deletePost` (src/lib/actions/posts.ts:201-219) deletes the post's images and then the post, with no transaction. So a post that has comments is refused by the `comments.post_id` foreign key, and it loses its images anyway.
- **Reactions per user.** src/lib/schema.ts:139-144 declares a plain index on (user, target type, target id), not a unique one. So "at most one reaction per key" rests on the toggle logic, and that is what is proved.

## Model

| member | source | states |
|---|---|---|
| Schema.ParseReactionType | src/lib/schema.ts:15 | the reaction enum accepts exactly "upvote" and "downvote", and each accepted label is the label of its value |
| Schema.ReactionTypeLabelRoundTrip | src/lib/schema.ts:15 | a reaction type's label parses back to the same type |
| Schema.ParseTargetType | src/lib/schema.ts:18-22 | the target enum accepts exactly "post", "comment" and "reply" |
| Schema.TargetTypeLabelRoundTrip | src/lib/schema.ts:18-22 | a target type's label parses back to the same type |
| Schema.EmptyConsistent | src/lib/schema.ts:28-171 | an empty database meets every declared key, unique and foreign-key constraint |
| Schema.SchemaAllowsDuplicateReactions | src/lib/schema.ts:139-144 | there is a database meeting every declared constraint with two reactions of one user on one target: the user/target index is not unique |
| Store.DbError.Message | src/lib/actions/posts.ts:66-91 | each kind of database error has a non-empty message; which of the catch's phrases each one holds is proved by the `Posts.*Message` lemmas, and a delete blocked by a reference has its own "update or delete" wording |
| Store.InsertUser | src/lib/schema.ts:28-47 | a user insert fails exactly when a field has a non-space character past 255, or when the clerk id or email, as the column stores them, is already in use (unique violation). A failure changes nothing. Otherwise it appends one user with the next id and the stored (space-cut) values, and keeps the schema's constraints |
| Store.Fit | src/lib/schema.ts:32-35 | the stored value is the given one when it fits; otherwise it is its first n characters, and for a value the column accepts what was cut is all spaces |
| Store.OverflowsIsLength | src/lib/schema.ts:52-53 | for a value not ending in a space, the column refuses it exactly when it is longer than the column |
| Store.InsertPost | src/lib/actions/posts.ts:32-40 | a post insert fails with a value-too-long error on an over-long title or slug, then with a unique violation on a slug in use, then with a foreign-key violation on an unknown user; on success it appends the row with the next serial id and both timestamps set, and keeps the constraints |
| Store.SetPostFields | src/lib/actions/posts.ts:164-171 | the update rewrites title, slug and content of exactly the rows with that id and leaves every other field and row as it was |
| Store.UpdatePostWhereId | src/lib/actions/posts.ts:164-171 | an over-long title or slug fails with value-too-long whether or not a row matches. Otherwise a missing id changes nothing and reports 0 rows, and an existing row gets the new title, slug and content, or the statement fails with a unique violation when another post has the slug. A failure changes nothing; constraints are kept |
| Store.UpdateSlugClash | src/lib/schema.ts:53 | giving a post another post's slug breaks the uniqueness of `posts.slug` |
| Store.DeleteImagesWherePostId | src/lib/actions/posts.ts:204 | deleting a post's images always succeeds, removes exactly the rows with that post id and keeps the constraints |
| Store.ImageRows | src/lib/actions/posts.ts:53-56 | one image row per URL, in order, with consecutive ids, the post id and the URL as the `varchar(512)` column stores it |
| Store.InsertPostImages | src/lib/actions/posts.ts:53-58 | a batch image insert fails as a whole, changing nothing, on any URL with a non-space character past 512 or on an unknown post; otherwise it appends one row per URL in order and returns them |
| Store.DeletePostWhereId | src/lib/schema.ts:71-73 | deleting a post that comments still reference fails with a foreign-key violation; a missing id deletes nothing; otherwise the post and (by the cascade) its images go; constraints are kept |
| Store.InsertComment | src/lib/actions/comments.ts:44-51 | a comment insert fails with a foreign-key violation on an unknown user or post, else appends the row with the content as given and the next id |
| Store.InsertReply | src/lib/actions/comments.ts:71-78 | a reply insert fails with a foreign-key violation on an unknown user or comment, else appends the row with the content as given and the next id |
| Store.DeleteCommentWhereId | src/lib/schema.ts:99-101 | deleting a comment removes it and, by the cascade, every reply whose comment id points to it, and keeps the constraints |
| Store.InsertReaction | src/lib/actions/reactions.ts:60-68 | a reaction insert fails with a foreign-key violation on an unknown user (the target id has no foreign key), else appends one row |
| Store.SetReactionType | src/lib/actions/reactions.ts:51-55 | the update changes the type of exactly the rows with that id |
| Store.UpdateReactionTypeWhereId | src/lib/actions/reactions.ts:51-55 | the type update rewrites the rows with that id and `RETURNING` yields exactly them |
| Store.DeleteReactionWhereId | src/lib/actions/reactions.ts:46 | deleting a reaction by id removes exactly the rows with that id |
| Db.Database.constructor | src/lib/schema.ts:28-171 | a fresh connection holds the empty, consistent database |
| Db.Database.InsertUser | src/lib/schema.ts:28-47 | the connection's state after the call is the user insert's result, and consistency is kept |
| Db.Database.InsertPost | src/lib/actions/posts.ts:32-40 | the state after the call is the post insert's result, and consistency is kept |
| Db.Database.UpdatePostWhereId | src/lib/actions/posts.ts:164-171 | the state after the call is the post update's result, and consistency is kept |
| Db.Database.DeletePostWhereId | src/lib/actions/posts.ts:207 | the state after the call is the post delete's result, and consistency is kept |
| Db.Database.DeleteImagesWherePostId | src/lib/actions/posts.ts:204 | the state after the call is the image delete's result, and consistency is kept |
| Db.Database.InsertPostImages | src/lib/actions/posts.ts:53-58 | the state after the call is the image insert's result, and consistency is kept |
| Db.Database.InsertComment | src/lib/actions/comments.ts:44-51 | the state after the call is the comment insert's result, and consistency is kept |
| Db.Database.InsertReply | src/lib/actions/comments.ts:71-78 | the state after the call is the reply insert's result, and consistency is kept |
| Db.Database.DeleteCommentWhereId | src/lib/schema.ts:99-101 | the state after the call is the cascading comment delete's result, and consistency is kept |
| Db.Database.InsertReaction | src/lib/actions/reactions.ts:60-68 | the state after the call is the reaction insert's result, and consistency is kept |
| Db.Database.UpdateReactionTypeWhereId | src/lib/actions/reactions.ts:51-55 | the state after the call is the type update's result, and consistency is kept |
| Db.Database.DeleteReactionWhereId | src/lib/actions/reactions.ts:46 | the state after the call is the reaction delete's result, and consistency is kept |
| Reactions.FindReaction | src/lib/actions/reactions.ts:27-37 | the lookup with `LIMIT 1` finds a row with the (user, target type, target id) key, and finds none exactly when no row has that key |
| Reactions.Toggle | src/lib/actions/reactions.ts:18-89 | a failing toggle changes nothing and throws "Failed to toggle reaction"; every toggle keeps the schema's constraints |
| Reactions.ToggleReaction | src/lib/actions/reactions.ts:18-89 | the action's statements leave the connection and result exactly as the toggle specifies, and keep consistency |
| Reactions.ToggleInsertsWhenAbsent | src/lib/actions/reactions.ts:58-70 | with no row for the key, exactly one row with the requested type, user and target is appended and returned |
| Reactions.ToggleUnknownUserFails | src/lib/actions/reactions.ts:85-88 | a first reaction by an unknown user fails the insert, changes nothing and throws "Failed to toggle reaction" |
| Reactions.IdUniqueAt | src/lib/schema.ts:122 | under a serial key, no other reaction row shares a row's id |
| Reactions.RemoveById | src/lib/actions/reactions.ts:46 | deleting by a unique id removes exactly the row at its position |
| Reactions.SwitchById | src/lib/actions/reactions.ts:51-55 | updating by a unique id changes that row only and returns it alone |
| Reactions.ToggleRemovesSameType | src/lib/actions/reactions.ts:44-47 | a row of the requested type is deleted and `null` is returned; nothing else changes |
| Reactions.ToggleSwitchesOtherType | src/lib/actions/reactions.ts:48-56 | a row of the other type gets the requested type in place, keeping its id, user and target, and is returned |
| Reactions.ToggleLeavesOtherKeys | src/lib/actions/reactions.ts:41-70 | the rows of every other (user, target) key are unchanged, in order |
| Reactions.TogglePreservesAtMostOnePerKey | src/lib/actions/reactions.ts:27-70 | if at most one reaction exists per (user, target type, target id) before a toggle, the same holds after |
| Reactions.ToggleTwiceRestores | src/lib/actions/reactions.ts:41-70 | toggling the same type twice from no reaction gives back the reactions table, with only the id sequence advanced |
| Reactions.CountVotes | src/lib/actions/reactions.ts:107-109 | a conditional count counts rows of the table, never more; `Reactions.VotesSplit` shows the two counts partition the target's rows |
| Reactions.GetReactionCounts | src/lib/actions/reactions.ts:98-128 | a failed query gives zero counts; otherwise upvotes plus downvotes is the number of reactions on the target |
| Reactions.VotesSplit | src/lib/actions/reactions.ts:104-117 | every reaction on a target is counted as exactly one of upvote or downvote |
| Reactions.ToggleCounts | src/lib/actions/reactions.ts:104-122 | a toggle changes its target's counts by +1 of the type on insert and -1 on delete; a switch moves one vote between the counters and keeps their total |
| Reactions.GetUserReaction | src/lib/actions/reactions.ts:138-162 | the user's reaction is a row of the table with that key; `null` from a working query means no row has the key |
| Reactions.GetPostStats | src/lib/actions/reactions.ts:170-201 | a failed query gives all zeros; otherwise the comment count is the number of comments with that post id |
| Reactions.PostStatsAgreeWithCounts | src/lib/actions/reactions.ts:173-181 | the post statistics carry the same vote counts as the reaction counts for target type "post" |
| ReactionButtonUi.Step | src/components/ui/ReactionButton.tsx:43-70 | after a click, the current reaction is cleared when it was the clicked type and becomes the clicked type otherwise |
| ReactionButtonUi.StepRemoves | src/components/ui/ReactionButton.tsx:44-51 | clicking the current reaction clears it and takes one from that counter only |
| ReactionButtonUi.StepAdds | src/components/ui/ReactionButton.tsx:52-59 | with no reaction, a click sets it and adds one to that counter only |
| ReactionButtonUi.StepSwitches | src/components/ui/ReactionButton.tsx:60-70 | switching adds one to the chosen counter, takes one from the other and keeps the total |
| ReactionButtonUi.StepTwiceRestores | src/components/ui/ReactionButton.tsx:44-59 | clicking one button twice, from none or from that reaction, restores both counters and the current reaction |
| ReactionButtonUi.RemovedKeyGone | src/lib/actions/reactions.ts:46 | when keys are unique, deleting a row removes its key from the table |
| ReactionButtonUi.ClickMatchesServer | src/components/ui/ReactionButton.tsx:41-70 | when the button agrees with the database, the local case (add, remove, switch) is the server's case (insert, delete, update) |
| Reactions.FindAfterAppend | src/lib/actions/reactions.ts:27-37 | a row appended under a new key is the one the lookup then finds |
| Reactions.FindAfterUpdate | src/lib/actions/reactions.ts:27-37 | rewriting the found row without changing its key keeps it the one found |
| ReactionButtonUi.StepMatchesToggle | src/components/ui/ReactionButton.tsx:39-74 | after a successful toggle, the button's updated state again agrees with the database's own reaction and counts |
| ReactionButtonUi.ReactionButton.constructor | src/components/ui/ReactionButton.tsx:17-27 | the props become the initial counters and current reaction |
| ReactionButtonUi.ReactionButton.ApplyClick | src/components/ui/ReactionButton.tsx:43-70 | the state setters move the button's state by exactly one step |
| ReactionButtonUi.ReactionButton.LoggedIn | src/components/ui/ReactionButton.tsx:32 | `!userId` treats both a missing user id and 0 as logged out |
| ReactionButtonUi.ReactionButton.HandleReaction | src/components/ui/ReactionButton.tsx:31-75 | logged out (`null` or 0 user id): only a login toast is appended, with no toggle call. Logged in: the database takes the toggle's outcome; the local state steps only if the toggle succeeded and is unchanged if it threw |
| Toasts.WithoutId | src/hooks/useToast.ts:39 | the filter keeps only toasts of the list, none with the id, and every toast without the id |
| Toasts.WithoutIdAppend | src/hooks/useToast.ts:39 | filtering a concatenation filters each part and keeps their order |
| Toasts.WithoutAbsentId | src/hooks/useToast.ts:39 | hiding an id no toast carries leaves the list unchanged |
| Toasts.WithoutIdIdempotent | src/hooks/useToast.ts:38-40 | hiding an id twice is the same as hiding it once |
| Toasts.ShowThenHide | src/hooks/useToast.ts:21-40 | showing a toast under a fresh id, then hiding that id, restores the list |
| Toasts.ToastStore.constructor | src/hooks/useToast.ts:19 | the list starts empty |
| Toasts.ToastStore.ShowToast | src/hooks/useToast.ts:21-36 | exactly one toast with the given message, type and duration (4000 by default) is appended, the rest unchanged in order; a removal timer is scheduled exactly when the duration is positive |
| Toasts.ToastStore.HideToast | src/hooks/useToast.ts:38-40 | the list becomes the filter without that id |
| Toasts.ToastStore.Expire | src/hooks/useToast.ts:29-33 | a timer going off applies the same filter as hiding |
| Toasts.ToastStore.ClearAllToasts | src/hooks/useToast.ts:42-44 | the list becomes empty |
| JsString.SpaceRun | src/lib/utils/helper.ts:6 | the front scan of `trim` passes only whitespace and stops at the first character that is not whitespace |
| JsString.TextEnd | src/lib/utils/helper.ts:6 | the back scan of `trim` passes only whitespace and stops after the last character that is not whitespace |
| JsString.Trim | src/lib/utils/helper.ts:6 | the trimmed text has no whitespace at either end and is no longer than the input |
| JsString.TrimIsMiddle | src/lib/utils/helper.ts:6 | the trimmed text is the slice of the input right after its leading whitespace, and only whitespace follows it |
| JsString.TrimTrimmed | src/lib/utils/helper.ts:6 | trimmed text has no leading or trailing whitespace |
| JsString.TrimIdempotent | src/lib/utils/helper.ts:6 | trimming twice is trimming once |
| JsString.NatToDecimal | src/lib/actions/posts.ts:27 | the decimal text of a number is non-empty, made of digits, with no leading zero |
| JsString.DecimalRoundTrip | src/lib/actions/posts.ts:27 | reading a timestamp's decimal text gives back the timestamp |
| JsString.DecimalInjective | src/lib/actions/posts.ts:27 | distinct timestamps have distinct decimal texts |
| Posts.SlugFor | src/lib/actions/posts.ts:26-27 | a slug is the slugified title followed by a dash; `Posts.SlugEndsWithTimestamp` states what follows the dash (the same two lines recur at src/lib/actions/posts.ts:161-162) |
| Posts.AfterLastDash | src/lib/actions/posts.ts:27 | the text after the last dash is a dash-free suffix |
| Posts.SlugEndsWithTimestamp | src/lib/actions/posts.ts:26-27 | a slug's text after its last dash is the decimal timestamp |
| Posts.DistinctTimesDistinctSlugs | src/lib/actions/posts.ts:26-27 | two creates at distinct timestamps give distinct slugs, whatever the titles |
| Posts.CreateFailure | src/lib/actions/posts.ts:66-91 | the catch gives the duplicate-title, missing-fields or invalid-user message, or wraps the error's own message as "Failed to create post: ..." |
| Posts.DuplicateKeyMessage | src/lib/actions/posts.ts:71-75 | a unique violation becomes the duplicate-title message |
| Posts.NotNullMessage | src/lib/actions/posts.ts:76-80 | a not-null violation becomes the missing-fields message |
| Posts.ForeignKeyMessage | src/lib/actions/posts.ts:81-83 | a foreign-key violation becomes the invalid-user message |
| Posts.StillReferencedMessage | src/lib/actions/posts.ts:81-83 | a delete-side foreign-key error also holds "violates foreign key constraint", so the catch would read it as an invalid user |
| Posts.TooLongMessage | src/lib/actions/posts.ts:86-90 | a value-too-long error is wrapped as "Failed to create post: " and the message |
| JsString.IncludesIsContains | src/lib/actions/posts.ts:71-83 | the left-to-right `includes` scan finds a pattern exactly when it occurs somewhere in the text |
| JsString.Includes | src/lib/actions/posts.ts:71-83 | `String.prototype.includes` answers true only when the pattern fits in the text |
| JsString.IsWhitespace | src/lib/utils/helper.ts:6 | the characters `trim` removes include space, tab, newline, no-break space and the byte-order mark, and exclude digits, `-`, `<` and `&` |
| Posts.CreateFailureOf | src/lib/actions/posts.ts:66-91 | the catch's `includes` tests, applied to each database error's message, give that kind's own message: duplicate title, missing fields, invalid user, or the wrapped too-long message |
| Posts.NoIdMessage | src/lib/actions/posts.ts:43-45 | the thrown no-id error matches none of the three phrases and is wrapped as "Failed to create post: " and its message |
| Posts.Create | src/lib/actions/posts.ts:12-92 | a successful create returns a positive id |
| Posts.CreateKeepsConsistent | src/lib/actions/posts.ts:12-92 | every create, whatever its outcome, keeps the schema's constraints |
| Posts.InsertPostWithImages | src/lib/actions/posts.ts:12-92 | the action's statements leave the connection and result exactly as the create specifies, and keep consistency |
| Posts.CreateStoresPost | src/lib/actions/posts.ts:32-65 | a successful create appends one post with the trimmed title, the new slug, the content and user as given, and one image row per URL, in order, pointing at it (none for no URLs), and returns its id |
| Posts.CreateRejects | src/lib/actions/posts.ts:66-91 | a refused post insert changes nothing and reports the too-long, duplicate-title or invalid-user message |
| Posts.CreateImageFailureKeepsPost | src/lib/actions/posts.ts:49-60 | an image row the column refuses fails the create after the post is stored: the post stays, without images |
| Posts.MatchingSlugCount | src/lib/actions/posts.ts:134-136 | the slug query returns rows exactly when some post has that slug |
| Posts.GetPostById | src/lib/actions/posts.ts:110-127 | fails with "Failed to fetch post: Post not found" exactly when no post has the id; otherwise returns a stored post with that id |
| Posts.GetPostBySlug | src/lib/actions/posts.ts:132-149 | returns `null` exactly when no post has the slug; otherwise a stored post with that slug |
| Posts.GetPostByIdFinds | src/lib/actions/posts.ts:112-118 | in a consistent database, every stored post is what its id fetches |
| Posts.GetPostBySlugFinds | src/lib/actions/posts.ts:134-140 | in a consistent database, every stored post is what its slug fetches |
| Posts.CreateThenGet | src/lib/actions/posts.ts:110-149 | a created post is read back, as stored, by the returned id and by its slug |
| Posts.Update | src/lib/actions/posts.ts:154-196 | an update never touches users, comments, replies or reactions, and keeps the constraints |
| Posts.UpdatePost | src/lib/actions/posts.ts:154-196 | the action's statements leave the connection and result exactly as the update specifies, and keep consistency |
| Posts.PostAt | src/lib/actions/posts.ts:164-171 | with distinct ids, `WHERE id = ...` matches only the post at its position, and the update rewrites that row alone |
| Posts.ReplaceImages | src/lib/actions/posts.ts:173-184 | deleting a post's images then appending new rows makes that post's images exactly the new rows and leaves every other post's images as they were |
| Posts.UpdateRewritesPost | src/lib/actions/posts.ts:161-184 | a successful update rewrites only that post: trimmed title, regenerated slug, new content. Its images become exactly the new URLs in order; other posts' images are unchanged; one row is reported |
| Posts.UpdateMissingPost | src/lib/actions/posts.ts:164-184 | an unknown id with an over-long trimmed title or slug fails with value-too-long and changes nothing. Otherwise, with no URLs it reports 0 rows and changes nothing; with URLs the image insert fails on the foreign key |
| Posts.PostValuesFit | src/lib/actions/posts.ts:26-37 | the trimmed title and the slug end in a character other than a space, so the post statements' length test is the `varchar(255)` column's own rule |
| Posts.UpdateSlugTaken | src/lib/actions/posts.ts:164-194 | a new slug that another post has makes the update fail with "Failed to update post: " and the unique violation, changing nothing |
| Posts.UpdateImageFailureKeepsRewrite | src/lib/actions/posts.ts:173-194 | an image insert failing after the rewrite leaves the rewritten post and the deleted images in place |
| Posts.Delete | src/lib/actions/posts.ts:201-219 | a delete touches only posts and images; when it fails, the posts are unchanged; the constraints are kept |
| Posts.DeletePost | src/lib/actions/posts.ts:201-219 | the action's statements leave the connection and result exactly as the delete specifies, and keep consistency |
| Posts.DeleteRemovesPost | src/lib/actions/posts.ts:203-207 | a post without comments is removed with its images, nothing else changes, and one row is reported |
| Posts.DeleteCommentedPostLosesImages | src/lib/actions/posts.ts:203-216 | a post with comments is not deleted: the delete fails with "Failed to delete post: " and the delete-side foreign-key message ("update or delete on table ... violates foreign key constraint"), yet its images are already gone |
| Comments.NewerOrEqual | src/lib/actions/comments.ts:14 | under `ORDER BY created_at DESC` a row with no time comes first and equal times may come in either order; `Comments.NewerOrEqualTotal` and `Comments.NewerOrEqualTransitive` make it a total preorder |
| Comments.InsertByDate | src/lib/actions/comments.ts:14 | inserting into a newest-first list adds exactly that row and keeps the order |
| Comments.SortNewestFirst | src/lib/actions/comments.ts:14 | `ORDER BY created_at DESC` returns the same rows (as a multiset), newest first, with NULL times first |
| Comments.GetCommentsByPostId | src/lib/actions/comments.ts:8-21 | returns exactly the comments with that post id, each as often as stored, newest first |
| Comments.GetRepliesByCommentId | src/lib/actions/comments.ts:23-36 | returns exactly the replies with that comment id, each as often as stored, newest first |
| Comments.NewComment | src/lib/actions/comments.ts:38-63 | succeeds exactly when user and post exist; on success, one comment with the content verbatim is appended and returned; on failure nothing changes and "Failed to create comment" is thrown |
| Comments.CreateComment | src/lib/actions/comments.ts:38-63 | the action's statement leaves the connection and result exactly as specified, and keeps consistency |
| Comments.NewReply | src/lib/actions/comments.ts:65-92 | succeeds exactly when user and comment exist; on success, one reply with the content verbatim is appended and returned; on failure nothing changes and "Failed to create reply" is thrown |
| Comments.CreateReply | src/lib/actions/comments.ts:65-92 | the action's statement leaves the connection and result exactly as specified, and keeps consistency |
| Comments.NewCommentListed | src/lib/actions/comments.ts:44-58 | a created comment joins its post's listing, and every other post's listing is unchanged |
| Comments.NewReplyListed | src/lib/actions/comments.ts:71-87 | a created reply joins its comment's listing, and every other comment's listing is unchanged |
| Html.StripTags | src/lib/utils/helper.ts:4 | removing `<...>` spans never lengthens the text, leaves text without `>` unchanged, and leaves no `<` followed later by `>` |
| Html.StripTagsNoTag | src/lib/utils/helper.ts:4 | text with no tag left is unchanged by stripping |
| Html.StripTagsAround | src/lib/utils/helper.ts:4 | text before the first `<` survives, and a tag runs from its `<` to the first `>` after it; stripping resumes behind that `>` |
| Html.ReplaceNbsp | src/lib/utils/helper.ts:5 | every character but the inserted spaces comes from the input; text without `&nbsp;` is unchanged |
| Html.ReplaceNbspPlainPrefix | src/lib/utils/helper.ts:5 | text without `&` is copied unchanged |
| Html.ReplaceNbspAfterPlain | src/lib/utils/helper.ts:5 | each `&nbsp;` becomes exactly one space, and the replacement goes on after it |
| Html.ReplaceNbspLeavesNone | src/lib/utils/helper.ts:5 | no `&nbsp;` is left after the replacement |
| Html.ReplaceNbspKeepsNoTag | src/lib/utils/helper.ts:5 | the replacement creates no tag |
| Html.ExtractPlainText | src/lib/utils/helper.ts:2-7 | the plain text has no leading or trailing whitespace, no tag and no `&nbsp;`; the listing page's own copy (src/app/blogs/page.tsx:10-15) is the same chain of replacements and trim |
| Html.ExtractPlainTextIdempotent | src/lib/utils/helper.ts:2-7 | extracting plain text from plain text changes nothing |
| Html.TruncateContent | src/lib/utils/helper.ts:10-14 | plain text up to the maximum is returned unchanged; longer text becomes its first maxLength characters and "..." |
| Html.TruncateBound | src/lib/utils/helper.ts:12-13 | a preview is at most maxLength + 3 characters and always begins like the plain text |
| Html.SrcEnd | src/lib/utils/helper.ts:18 | `src="` followed by one or more non-quote characters and a closing quote |
| Html.SrcValue | src/lib/utils/helper.ts:18 | the captured src is non-empty and quote-free |
| Html.LastSrc | src/lib/utils/helper.ts:18 | the greedy `[^>]+` stops at the last `src="..."` that starts before the first `>` |
| Html.MatchImgAt | src/lib/utils/helper.ts:18 | a match starts with `<img`, has no `>` between the tag name and its src, and its src is well formed |
| Html.FirstSrc | src/lib/utils/helper.ts:23 | the inner `src="([^"]+)"` match is the leftmost well-formed src |
| Html.ImgTags | src/lib/utils/helper.ts:18 | every matched tag text contains a well-formed src; `Html.ImgTagsPrefix` shows the global scan takes a leading tag and resumes behind it |
| Html.SrcOfTag | src/lib/utils/helper.ts:22-25 | the src read from a matched tag is quote-free and non-empty |
| Html.ExtractAllImages | src/lib/utils/helper.ts:17-27 | one non-empty, quote-free src per matched img tag, in document order; it equals the `.map` of the captures, so `filter(Boolean)` drops nothing |
| Html.MapSeq | src/lib/utils/helper.ts:21-25 | `.map` gives one result per element, each the callback applied to that element |
| Html.MapCons | src/lib/utils/helper.ts:21-25 | mapping a sequence with a first element yields that element's image first, then the map of the rest |
| Html.NonEmpty | src/lib/utils/helper.ts:26 | `filter(Boolean)` keeps exactly the strings of length at least one, as the empty string is the only falsy string |
| Html.NoImgNoImages | src/lib/utils/helper.ts:18-19 | text without `<img` yields no images |
| Html.MatchOneTag | src/lib/utils/helper.ts:18 | `<img src="url">` matches with the src at its only position |
| Html.OneImage | src/lib/utils/helper.ts:17-27 | `<img src="url">` yields exactly `[url]` |
| Html.MatchTagPrefix | src/lib/utils/helper.ts:18 | a leading `<img src="url">` (url free of `"`, `>` and `=`) is the first match whatever text follows, with its src at index 5 |
| Html.ImgTagsAfterTag | src/lib/utils/helper.ts:18 | after a match whose closing quote is followed by `>`, the global scan resumes behind that `>` |
| Html.ImgTagsSkipClose | src/lib/utils/helper.ts:18 | a `>` is no match; the scan moves one character on |
| Html.ImgTagsPrefix | src/lib/utils/helper.ts:18 | the global scan of `<img src="url">` followed by any text returns that tag's match, then the matches of the rest in order |
| Html.ImagesOfTags | src/lib/utils/helper.ts:17-27 | when the scan returns a first text ahead of another text's matches, extraction returns its capture ahead of that text's images |
| Html.ImagesPrefix | src/lib/utils/helper.ts:17-27 | `<img src="url">` followed by any text yields `url` followed by the images of that text, so several tags yield their urls in document order |
| BlogsPage.TruncateContent | src/app/blogs/page.tsx:18-22 | with maxLength 200 by default, plain text up to the maximum is returned unchanged; longer text becomes its first maxLength characters and "..." |
| BlogsPage.DefaultPreviewBound | src/app/blogs/page.tsx:18 | a default preview is at most 203 characters |
| BlogsPage.ExtractFirstImage | src/app/blogs/page.tsx:25-28 | the first match's src, non-empty and quote-free, or `null` |
| BlogsPage.FirstImageIffImages | src/app/blogs/page.tsx:25-28 | there is a first image exactly when the all-images helper finds at least one |
| BlogsPage.FirstImageIsFirstTagSrc | src/app/blogs/page.tsx:25-28 | the first image is the capture of the first matched tag: that tag starts with `<img` and ends with `src="`, the image and the closing quote |
| BlogsPage.FirstImageOfOneTag | src/app/blogs/page.tsx:25-28 | `<img src="url">` has first image `url` |
| BlogsPage.ListingTime | src/app/blogs/page.tsx:35-36 | the sort key is the creation time, and 0 for a post without one |
| BlogsPage.SwapStep | src/app/blogs/page.tsx:33-38 | swapping the sinking post with the earlier one before it keeps the posts and moves the unsorted position forward |
| BlogsPage.SinkDone | src/app/blogs/page.tsx:33-38 | once the sinking post is no later than its predecessor, the prefix is in order |
| BlogsPage.SortNewestFirst | src/app/blogs/page.tsx:33-38 | the sort leaves the array a permutation of the fetched posts, latest first, with a missing creation time counted as 0 |
| StructuredData.JsDate.constructor | src/lib/utils/structured-data.tsx:45 | a new `Date` holds the given time |
| StructuredData.BaseUrl | src/lib/utils/structured-data.tsx:32 | the base address is the setting when it is set and non-empty, else "http://localhost:3000"; never empty |
| StructuredData.PostUrl | src/lib/utils/structured-data.tsx:33 | the page address is the base address, "/blogs/" and the slug |
| StructuredData.SlugOfUrl | src/lib/utils/structured-data.tsx:33 | a slug read from an address rebuilds that address |
| StructuredData.PostUrlSlug | src/lib/utils/structured-data.tsx:33 | the slug can be read back from a page address |
| StructuredData.DistinctSlugsDistinctUrls | src/lib/utils/structured-data.tsx:33 | under one base address, distinct slugs give distinct page addresses |
| StructuredData.AsWrittenFlagsSameInstant | src/lib/utils/structured-data.tsx:47-48 | two distinct `Date` objects for one instant pass the `!==` guard |
| StructuredData.NeverEditedDates | src/lib/utils/structured-data.tsx:47-50 | a row's two timestamp objects for one instant pass the guard as written but not the time comparison |
| StructuredData.ModifiedByInstant | src/lib/utils/structured-data.tsx:47-50 | the time-compared guard depends only on the instants and implies the guard as written |
| StructuredData.GenerateBlogPostStructuredData | src/lib/utils/structured-data.tsx:22-91 | context and type are fixed; url = base + "/blogs/" + slug, and the page `@id` is the url; headline is the title; description is the truncated extracted text; the author is the named person; datePublished iff a creation time; dateModified iff an update time differing from creation; fixed publisher and logo; image iff a post image, at 1200×630; commentCount is the number of comments; three counters: like, dislike, comment |
| StructuredData.CountersAgree | src/lib/utils/structured-data.tsx:72-89 | the comment counter equals commentCount, and the three counters total the votes and the comments |
| StructuredData.NeverEditedHasNoDateModified | src/lib/utils/structured-data.tsx:44-50 | a post whose two timestamps are one instant has a datePublished and no dateModified |

## Left out

- Network, logging, cache invalidation (`revalidatePath`), `alert`, and React rendering and transitions are not modelled.
- Connection failures are not modelled. Every statement either succeeds or raises one of the constraint errors above, so the fetch errors "Failed to fetch comments" and "Failed to fetch replies" cannot arise. In the counting queries, a failing query is the input `None`.
- Concurrency is not modelled: actions run one after another, so the read-then-write race in the reaction toggle is not captured.
- Reaction toggle: the `postId` argument exists only for cache invalidation, so it is left out.
- Serial ids: a failed insert does not consume a value from the sequence in the model; PostgreSQL's sequence would.
- Timestamps: `Date.now()` and the database's `now()` are one `now` parameter, in milliseconds.
- Create: the "Unknown error" message, used when something other than an `Error` is thrown, is not modelled. Every failure here is an `Error`.
- Reactions.FindReaction: the lookup has no `ORDER BY`, so PostgreSQL may return any matching row. Returning the first in storage order is the model's choice. It matters only when a key has several rows, which the schema allows (`Schema.SchemaAllowsDuplicateReactions`); `Reactions.TogglePreservesAtMostOnePerKey` shows the toggle never creates such keys.
- Reactions.GetUserReaction: the same choice of row as `Reactions.FindReaction`, for the same reason.
- Store.DbError.Message: the texts leave out the table, column and constraint names PostgreSQL puts in its messages (for example `on table "posts"` and the constraint's name). So the wrapped "Failed to update post: ..." and "Failed to delete post: ..." texts are shorter than the server's. The catch of `insertPostWithImages` tests only phrases that contain no names, so its mapping is unaffected.
- Create: the "no ID returned" branch is modelled but unreachable, since serial ids start at 1.
- Store.DbError.NotNullViolation: no modelled statement raises it. The actions always pass every `NOT NULL` value, so the "Required fields are missing" branch of the create catch is modelled (`Posts.NotNullMessage`) but unreachable.
- Store.InsertPost: the title and slug are stored as given and refused when longer than 255, rather than by the column's rule (refuse only a non-space past 255, cut trailing spaces otherwise). `Posts.PostValuesFit` shows the two agree for every title and slug the actions pass.
- Store.UpdatePostWhereId: the same as `Store.InsertPost`: the new title and slug are refused when longer than 255 and stored as given, rather than by the column's rule. `Posts.PostValuesFit` shows the two agree for the trimmed title and the slug `updatePost` passes.
- `getAllPosts` is not modelled: it is a plain `SELECT ... ORDER BY created_at`, used only to feed the listing sort.
- The Clerk webhook and the auth middleware are not modelled. `Store.InsertUser` is kept so that the user table's constraints and foreign keys have an operation behind them.
- Comments.SortNewestFirst: PostgreSQL leaves the order of rows with equal `created_at` open. The model keeps storage order among them, and the ensures states only the multiset and the order, which hold for any tie-break.
- BlogsPage.SortNewestFirst: `Array.prototype.sort` is stable. The model's insertion sort is stable too, but that is not stated in its contract.
- BlogsPage.SortNewestFirst: the comparator works on millisecond times from `getTime()`. The model orders by the stored integer time, which is the same ordering.
- Html.TruncateContent: lengths count JavaScript UTF-16 code units. The model counts characters of the string as given.
- Html.TruncateContent: `maxLength` is a required natural number. In the code it is optional with no default; without it `length <= undefined` is false and `substring(0, undefined)` keeps everything, so the whole plain text plus "..." would come back. That path is not modelled. The one caller, src/app/blogs/my-blogs/page.tsx:87, passes 700. The 200 default belongs to the page's own copy, `BlogsPage.TruncateContent`.
- Html.ExtractAllImages: an `<img>` tag carrying several `src="` attributes is matched as the regular expression's backtracking would, but only the one-src case is stated as a round trip.
- Html.ImagesPrefix: the url must hold no `=`, `"` or `>`. A url ending in `src=`, with a quote anywhere later in the text, moves the greedy `[^>]+` onto a later `src="`, so the tag no longer contributes `url`; that case is left to the general definition.
- Update: the post row's `updated_at` is not touched by the update, as in the code, so it is not modelled as changing.
- StructuredData.GenerateBlogPostStructuredData: `toISOString` and `JSON.stringify` are parameters or left out, so the emitted text and key order are not modelled.
- StructuredData.GenerateBlogPostStructuredData: the `<script type="application/ld+json">` component that embeds the record is presentation.
- The two text callbacks and the author-name callback are parameters; the page that passes them is not part of this model.

## Findings

| source | as written | input that shows it | evidently intended | confidence | as-written member | corrected member |
|---|---|---|---|---|---|---|
| src/lib/utils/structured-data.tsx:47-48 | `updated_at !== created_at` compares two `Date` objects by identity, so the guard holds whenever `updated_at` is set | a never-edited post: both columns default to the same `now()`, read back as two distinct `Date` objects for one instant; the record gets a `dateModified` equal to its `datePublished` | emit `dateModified` only when the update time differs from the creation time | medium, not executed | StructuredData.ModifiedAsWritten | StructuredData.Modified |
