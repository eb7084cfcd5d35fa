/** The post server actions: create a post with its images, read one post
    by id or by slug, update a post and replace its images, delete a post
    and its images. Each action issues its statements one after the other,
    without a transaction, and turns a raised error into an `Error` with a
    message of its own. */
module Posts {
  import opened Wrappers
  import opened JsString
  import opened Schema
  import opened Store
  import opened Db

  /* ---------------- slugs ---------------- */

  /** `${slugify(title, ...)}-${Date.now()}`: `slugify` and the clock are
      the caller's. */
  function SlugFor(slugify: string -> string, title: string, now: nat): (r: string)
    ensures |r| > |slugify(title)| + 1 && r[..|slugify(title)| + 1] == slugify(title) + "-"
  {
    slugify(title) + "-" + NatToDecimal(now)
  }

  /** The title and slug the post statements receive end in a character
      other than a space (the trimmed title ends in non-whitespace, the slug
      in a digit), so the length test the model uses for them is the
      `varchar(255)` column's own rule, and an accepted value is stored
      unchanged. */
  lemma {:induction false} PostValuesFit(slugify: string -> string, title: string, now: nat)
    ensures Overflows(Trim(title), VarcharLength) <==> TooLong(Trim(title))
    ensures Overflows(SlugFor(slugify, title, now), VarcharLength) <==> TooLong(SlugFor(slugify, title, now))
  {
    var slug := SlugFor(slugify, title, now);
    var digits := NatToDecimal(now);
    assert slug[|slug| - 1] == digits[|digits| - 1];
    OverflowsIsLength(Trim(title), VarcharLength);
    OverflowsIsLength(slug, VarcharLength);
  }

  /** The text after the last '-' of `s` (all of `s` when it has none). */
  function AfterLastDash(s: string): (r: string)
    ensures '-' !in r
    ensures |r| <= |s| && r == s[|s| - |r|..]
  {
    if s == [] then []
    else if s[|s| - 1] == '-' then []
    else AfterLastDash(s[..|s| - 1]) + [s[|s| - 1]]
  }

  lemma {:induction false} AfterLastDashOf(base: string, tail: string)
    requires '-' !in tail
    ensures AfterLastDash(base + "-" + tail) == tail
  {
    var s := base + "-" + tail;
    if tail != [] {
      var init := tail[..|tail| - 1];
      assert s[..|s| - 1] == base + "-" + init;
      assert s[|s| - 1] == tail[|tail| - 1];
      AfterLastDashOf(base, init);
    }
  }

  /** The timestamp can be read back from the end of the slug. */
  lemma {:induction false} SlugEndsWithTimestamp(slugify: string -> string, title: string, now: nat)
    ensures AfterLastDash(SlugFor(slugify, title, now)) == NatToDecimal(now)
  {
    var d := NatToDecimal(now);
    assert '-' !in d by {
      forall i | 0 <= i < |d| ensures d[i] != '-' {
        assert IsDigit(d[i]);
      }
    }
    AfterLastDashOf(slugify(title), d);
  }

  /** Two slugs made at different milliseconds differ, whatever the titles
      and whatever `slugify` does. */
  lemma {:induction false} DistinctTimesDistinctSlugs(slugify: string -> string, title1: string, title2: string,
                                   now1: nat, now2: nat)
    requires now1 != now2
    ensures SlugFor(slugify, title1, now1) != SlugFor(slugify, title2, now2)
  {
    SlugEndsWithTimestamp(slugify, title1, now1);
    SlugEndsWithTimestamp(slugify, title2, now2);
    if NatToDecimal(now1) == NatToDecimal(now2) {
      DecimalInjective(now1, now2);
    }
  }

  /* ---------------- error messages ---------------- */

  const DuplicateTitle: string := "A post with this title already exists. Please choose a different title."
  const MissingFields: string := "Required fields are missing. Please check your input."
  const InvalidUser: string := "Invalid user ID provided."
  const NoIdReturned: string := "Failed to create post - no ID returned"

  /** What the `catch` makes of the missing-id error: none of the three
      phrases occurs in it, so it is wrapped (`NoIdMessage`). */
  const NoIdFailure: string := "Failed to create post: " + NoIdReturned

  /** The `catch` of `insertPostWithImages`: three kinds of database error
      get a message of their own, anything else is wrapped. */
  function CreateFailure(message: string): (r: string)
    ensures r == DuplicateTitle || r == MissingFields || r == InvalidUser
            || r == "Failed to create post: " + message
  {
    if Includes(message, "duplicate key") then DuplicateTitle
    else if Includes(message, "violates not-null constraint") then MissingFields
    else if Includes(message, "violates foreign key constraint") then InvalidUser
    else "Failed to create post: " + message
  }

  lemma {:induction false} NoDash(n: nat)
    ensures '-' !in NatToDecimal(n) && 'k' !in NatToDecimal(n)
  {
    var d := NatToDecimal(n);
    forall i | 0 <= i < |d| ensures d[i] != '-' && d[i] != 'k' {
      assert IsDigit(d[i]);
    }
  }

  lemma {:induction false} DuplicateKeyMessage()
    ensures CreateFailure(UniqueViolation.Message()) == DuplicateTitle
  {
    ContainsAt(UniqueViolation.Message(), "duplicate key", 0);
    IncludesIsContains(UniqueViolation.Message(), "duplicate key");
  }

  lemma {:induction false} NotNullLacksDuplicateKey()
    ensures !Contains(NotNullViolation.Message(), "duplicate key")
  {
    var m := NotNullViolation.Message();
    assert "duplicate key"[12] == 'y';
    assert 'y' !in "null value in column ";
    assert 'y' !in "violates not-null ";
    assert 'y' !in "constraint";
    AbsentChar(m, "duplicate key", 12);
  }

  lemma {:induction false} NotNullMessage()
    ensures CreateFailure(NotNullViolation.Message()) == MissingFields
  {
    var m := NotNullViolation.Message();
    NotNullLacksDuplicateKey();
    var pre := "null value in column ";
    assert m == pre + "violates not-null constraint";
    assert m[|pre|..] == "violates not-null constraint";
    ContainsAt(m, "violates not-null constraint", |pre|);
    IncludesIsContains(m, "duplicate key");
    IncludesIsContains(m, "violates not-null constraint");
  }

  /** The only 'k' of the insert-side message follows "foreign ", not
      "duplicate ". */
  lemma {:induction false} ForeignKeyLacksDuplicateKey()
    ensures !Contains(ForeignKeyViolation.Message(), "duplicate key")
  {
    var a := "insert or update on table " + "violates foreign ";
    var b := "ey constraint";
    assert "duplicate key"[10] == 'k' && "duplicate key"[8] == 'e';
    assert a[|a| - 2] == 'n';
    assert 'k' !in "insert or update on table " && 'k' !in "violates foreign " && 'k' !in b;
    AbsentAtOnlyPlace(a, b, "duplicate key", 10, 8);
  }

  lemma {:induction false} ForeignKeyLacksNotNull()
    ensures !Contains(ForeignKeyViolation.Message(), "violates not-null constraint")
  {
    var m := ForeignKeyViolation.Message();
    forall k | 0 <= k < |m| ensures m[k] != '-' {
    }
    assert "violates not-null constraint"[12] == '-';
    AbsentChar(m, "violates not-null constraint", 12);
  }

  lemma {:induction false} ForeignKeyNamesConstraint()
    ensures Contains(ForeignKeyViolation.Message(), "violates foreign key constraint")
  {
    var pre := "insert or update on table ";
    var tail := "violates foreign " + "k" + "ey constraint";
    assert tail == "violates foreign key constraint";
    assert ForeignKeyViolation.Message()[|pre|..] == tail;
    ContainsAt(ForeignKeyViolation.Message(), tail, |pre|);
  }

  lemma {:induction false} ForeignKeyMessage()
    ensures CreateFailure(ForeignKeyViolation.Message()) == InvalidUser
  {
    ForeignKeyLacksDuplicateKey();
    ForeignKeyLacksNotNull();
    ForeignKeyNamesConstraint();
    var m := ForeignKeyViolation.Message();
    IncludesIsContains(m, "duplicate key");
    IncludesIsContains(m, "violates not-null constraint");
    IncludesIsContains(m, "violates foreign key constraint");
  }

  /** The only 'k' of the delete-side message follows "foreign ", not
      "duplicate ". */
  lemma {:induction false} StillReferencedLacksDuplicateKey()
    ensures !Contains(StillReferenced.Message(), "duplicate key")
  {
    var a := "update or delete on table " + "violates foreign ";
    var b := "ey constraint";
    assert "duplicate key"[10] == 'k' && "duplicate key"[8] == 'e';
    assert a[|a| - 2] == 'n';
    assert 'k' !in "update or delete on table " && 'k' !in "violates foreign " && 'k' !in b;
    AbsentAtOnlyPlace(a, b, "duplicate key", 10, 8);
  }

  lemma {:induction false} StillReferencedLacksNotNull()
    ensures !Contains(StillReferenced.Message(), "violates not-null constraint")
  {
    var m := StillReferenced.Message();
    forall k | 0 <= k < |m| ensures m[k] != '-' {
    }
    assert "violates not-null constraint"[12] == '-';
    AbsentChar(m, "violates not-null constraint", 12);
  }

  lemma {:induction false} StillReferencedNamesConstraint()
    ensures Contains(StillReferenced.Message(), "violates foreign key constraint")
  {
    var pre := "update or delete on table ";
    var tail := "violates foreign " + "k" + "ey constraint";
    assert tail == "violates foreign key constraint";
    assert StillReferenced.Message()[|pre|..] == tail;
    ContainsAt(StillReferenced.Message(), tail, |pre|);
  }

  /** A delete blocked by a reference names a foreign key too, so the
      `catch` would take it for an invalid user. */
  lemma {:induction false} StillReferencedMessage()
    ensures CreateFailure(StillReferenced.Message()) == InvalidUser
  {
    StillReferencedLacksDuplicateKey();
    StillReferencedLacksNotNull();
    StillReferencedNamesConstraint();
    var m := StillReferenced.Message();
    IncludesIsContains(m, "duplicate key");
    IncludesIsContains(m, "violates not-null constraint");
    IncludesIsContains(m, "violates foreign key constraint");
  }

  /** Neither '-' nor 'k' occurs in a value-too-long message. */
  lemma {:induction false} TooLongLacks(n: nat)
    ensures '-' !in ValueTooLong(n).Message() && 'k' !in ValueTooLong(n).Message()
  {
    NoDash(n);
    assert '-' !in "value too long for type " && 'k' !in "value too long for type ";
    assert '-' !in "character varying(" && 'k' !in "character varying(";
    assert '-' !in ")" && 'k' !in ")";
  }

  lemma {:induction false} TooLongMessage(n: nat)
    ensures CreateFailure(ValueTooLong(n).Message()) == "Failed to create post: " + ValueTooLong(n).Message()
  {
    var m := ValueTooLong(n).Message();
    TooLongLacks(n);
    assert "duplicate key"[10] == 'k';
    AbsentChar(m, "duplicate key", 10);
    assert "violates not-null constraint"[12] == '-';
    AbsentChar(m, "violates not-null constraint", 12);
    assert "violates foreign key constraint"[17] == 'k';
    AbsentChar(m, "violates foreign key constraint", 17);
    IncludesIsContains(m, "duplicate key");
    IncludesIsContains(m, "violates not-null constraint");
    IncludesIsContains(m, "violates foreign key constraint");
  }

  /** The missing-id error is wrapped like any unrecognised one. */
  lemma {:induction false} NoIdMessage()
    ensures CreateFailure(NoIdReturned) == NoIdFailure
  {
    NoIdLacks();
    assert "duplicate key"[12] == 'y';
    AbsentChar(NoIdReturned, "duplicate key", 12);
    AbsentChar(NoIdReturned, "violates not-null constraint", 0);
    AbsentChar(NoIdReturned, "violates foreign key constraint", 0);
    IncludesIsContains(NoIdReturned, "duplicate key");
    IncludesIsContains(NoIdReturned, "violates not-null constraint");
    IncludesIsContains(NoIdReturned, "violates foreign key constraint");
  }

  /** Neither 'y' nor 'v' occurs in the missing-id message. */
  lemma NoIdLacks()
    ensures 'y' !in NoIdReturned && 'v' !in NoIdReturned
  {
    forall k | 0 <= k < |NoIdReturned| ensures NoIdReturned[k] != 'y' && NoIdReturned[k] != 'v' {
    }
  }

  /** What the `catch` makes of a database error, kind by kind: the
      unique, not-null and foreign-key kinds get their own message (a
      delete-side foreign-key error reads like an insert-side one), a value
      too long is wrapped. */
  function DbFailure(e: DbError): string
  {
    match e
    case UniqueViolation => DuplicateTitle
    case NotNullViolation => MissingFields
    case ForeignKeyViolation => InvalidUser
    case StillReferenced => InvalidUser
    case ValueTooLong(_) => "Failed to create post: " + e.Message()
  }

  /** The `catch`, applied to a database error's message, gives that
      error's `DbFailure`. */
  lemma {:induction false} CreateFailureOf(e: DbError)
    ensures CreateFailure(e.Message()) == DbFailure(e)
  {
    match e
    case UniqueViolation => DuplicateKeyMessage();
    case NotNullViolation => NotNullMessage();
    case ForeignKeyViolation => ForeignKeyMessage();
    case StillReferenced => StillReferencedMessage();
    case ValueTooLong(n) => TooLongMessage(n);
  }

  const UpdateFailedPrefix: string := "Failed to update post: "
  const DeleteFailedPrefix: string := "Failed to delete post: "
  const FetchFailed: string := "Failed to fetch post: Post not found"

  /* ---------------- create ---------------- */

  /** `insertPostWithImages(title, content, userId, imageUrls)`: insert the
      post with the trimmed title and a fresh slug, then, when there are
      URLs, one image row per URL. Returns the new post's id. An image
      insert that fails leaves the post in place. A failed statement is
      reported as the `catch` reports it: `CreateFailure` of the error's
      message, which is `DbFailure` of the error (`CreateFailureOf`), and
      the missing id as `NoIdFailure` (`NoIdMessage`). */
  function Create(t: Tables, slugify: string -> string, title: string, content: string,
                  userId: int, imageUrls: seq<string>, now: nat): (o: Outcome<int>)
    ensures o.result.Ok? ==> o.result.value >= 1
  {
    var s := InsertPost(t, Trim(title), SlugFor(slugify, title, now), content, userId, now);
    if s.result.Err? then Outcome(t, Err(DbFailure(s.result.error)))
    else
      var postId := s.result.value.id;
      if postId == 0 then Outcome(s.tables, Err(NoIdFailure))
      else if |imageUrls| > 0 then
        var s2 := InsertPostImages(s.tables, postId, imageUrls, now);
        if s2.result.Err? then Outcome(s.tables, Err(DbFailure(s2.result.error)))
        else Outcome(s2.tables, Ok(postId))
      else Outcome(s.tables, Ok(postId))
  }

  /** Every create, whatever its outcome, keeps the schema's constraints. */
  lemma CreateKeepsConsistent(t: Tables, slugify: string -> string, title: string, content: string,
                              userId: int, imageUrls: seq<string>, now: nat)
    requires Consistent(t)
    ensures Consistent(Create(t, slugify, title, content, userId, imageUrls, now).tables)
  {
    var s := InsertPost(t, Trim(title), SlugFor(slugify, title, now), content, userId, now);
    if s.result.Err? {
      CreatePostRefused(t, slugify, title, content, userId, imageUrls, now);
    } else if |imageUrls| > 0 && InsertPostImages(s.tables, s.result.value.id, imageUrls, now).result.Err? {
      CreateImagesRefused(t, slugify, title, content, userId, imageUrls, now, s.tables, s.result.value);
    } else {
      CreateStored(t, slugify, title, content, userId, imageUrls, now, s.tables, s.result.value);
    }
  }

  /** The action itself: the post insert, the id check, the image insert. */
  method InsertPostWithImages(db: Database, slugify: string -> string, title: string, content: string,
                              userId: int, imageUrls: seq<string>, now: nat)
    returns (r: Result<int, string>)
    modifies db
    ensures Outcome(db.State(), r) == Create(old(db.State()), slugify, title, content, userId, imageUrls, now)
    ensures old(db.Valid()) ==> db.Valid()
  {
    ghost var t0 := db.State();
    var slug := SlugFor(slugify, title, now);
    var inserted := db.InsertPost(Trim(title), slug, content, userId, now);
    ghost var t1 := db.State();
    if inserted.Err? {
      r := Err(DbFailure(inserted.error));
      assert Outcome(t1, r) == Create(t0, slugify, title, content, userId, imageUrls, now) by {
        CreatePostRefused(t0, slugify, title, content, userId, imageUrls, now);
      }
      return;
    }
    var postId := inserted.value.id;
    if postId == 0 {
      r := Err(NoIdFailure);
      assert Outcome(t1, r) == Create(t0, slugify, title, content, userId, imageUrls, now) by {
        CreateNoId(t0, slugify, title, content, userId, imageUrls, now, t1, inserted.value);
      }
      return;
    }
    if |imageUrls| > 0 {
      var images := db.InsertPostImages(postId, imageUrls, now);
      ghost var t2 := db.State();
      if images.Err? {
        r := Err(DbFailure(images.error));
        assert Outcome(t2, r) == Create(t0, slugify, title, content, userId, imageUrls, now) by {
          CreateImagesRefused(t0, slugify, title, content, userId, imageUrls, now, t1, inserted.value);
        }
        return;
      }
      r := Ok(postId);
      assert Outcome(t2, r) == Create(t0, slugify, title, content, userId, imageUrls, now) by {
        CreateStored(t0, slugify, title, content, userId, imageUrls, now, t1, inserted.value);
      }
      return;
    }
    r := Ok(postId);
    assert Outcome(t1, r) == Create(t0, slugify, title, content, userId, imageUrls, now) by {
      CreateStored(t0, slugify, title, content, userId, imageUrls, now, t1, inserted.value);
    }
  }

  /** The conditions under which every statement of a create succeeds. */
  predicate CreateSucceeds(t: Tables, slug: string, title: string, userId: int, imageUrls: seq<string>)
  {
    && !TooLong(Trim(title)) && !TooLong(slug)
    && slug !in Column(t.posts, PostSlug)
    && userId in UserIds(t)
    && !SomeUrlTooLong(imageUrls)
  }

  /** A successful create stores exactly one post, with the trimmed title,
      the new slug and the content and user as given, and one image row per
      URL, in order, all pointing at the new post; it returns the post's id. */
  lemma {:induction false} CreateStoresPost(t: Tables, slugify: string -> string, title: string, content: string,
                         userId: int, imageUrls: seq<string>, now: nat)
    requires Consistent(t)
    requires CreateSucceeds(t, SlugFor(slugify, title, now), title, userId, imageUrls)
    ensures var o := Create(t, slugify, title, content, userId, imageUrls, now);
            var row := Post(t.nextPostId, Trim(title), SlugFor(slugify, title, now), content, userId, Some(now), Some(now));
            && o.result == Ok(t.nextPostId)
            && o.tables == t.(posts := t.posts + [row],
                              postImages := t.postImages + ImageRows(t.nextImageId, t.nextPostId, imageUrls, now),
                              nextPostId := t.nextPostId + 1,
                              nextImageId := t.nextImageId + |imageUrls|)
  {
    var slug := SlugFor(slugify, title, now);
    var row := Post(t.nextPostId, Trim(title), slug, content, userId, Some(now), Some(now));
    var t1 := t.(posts := t.posts + [row], nextPostId := t.nextPostId + 1);
    CreateInsertsPost(t, Trim(title), slug, content, userId, now);
    if |imageUrls| == 0 {
      assert t.postImages + ImageRows(t.nextImageId, t.nextPostId, imageUrls, now) == t.postImages;
    } else {
      var rows := ImageRows(t.nextImageId, t.nextPostId, imageUrls, now);
      assert InsertPostImages(t1, t.nextPostId, imageUrls, now)
             == Stmt(t1.(postImages := t.postImages + rows, nextImageId := t.nextImageId + |imageUrls|), Ok(rows));
    }
    CreateStored(t, slugify, title, content, userId, imageUrls, now, t1, row);
  }

  /** A create the post insert refuses changes nothing: an over-long title
      or slug is reported as such, a slug in use as a duplicate title, an
      unknown user as an invalid user id. */
  lemma {:induction false} CreateRejects(t: Tables, slugify: string -> string, title: string, content: string,
                      userId: int, imageUrls: seq<string>, now: nat)
    ensures var o := Create(t, slugify, title, content, userId, imageUrls, now);
            var slug := SlugFor(slugify, title, now);
            && (TooLong(Trim(title)) || TooLong(slug) ==>
                  o == Outcome(t, Err("Failed to create post: " + ValueTooLong(VarcharLength).Message())))
            && (!TooLong(Trim(title)) && !TooLong(slug) && slug in Column(t.posts, PostSlug) ==>
                  o == Outcome(t, Err(DuplicateTitle)))
            && (!TooLong(Trim(title)) && !TooLong(slug) && slug !in Column(t.posts, PostSlug) && userId !in UserIds(t) ==>
                  o == Outcome(t, Err(InvalidUser)))
  {
    if InsertPost(t, Trim(title), SlugFor(slugify, title, now), content, userId, now).result.Err? {
      CreatePostRefused(t, slugify, title, content, userId, imageUrls, now);
    }
  }

  /** Without a transaction, an image URL the column refuses fails the
      action after the post is already stored: the post stays, without
      images. */
  lemma {:induction false} CreateImageFailureKeepsPost(t: Tables, slugify: string -> string, title: string, content: string,
                                    userId: int, imageUrls: seq<string>, now: nat)
    requires Consistent(t)
    requires CreateSucceeds(t, SlugFor(slugify, title, now), title, userId, [])
    requires SomeUrlTooLong(imageUrls)
    ensures var o := Create(t, slugify, title, content, userId, imageUrls, now);
            var row := Post(t.nextPostId, Trim(title), SlugFor(slugify, title, now), content, userId, Some(now), Some(now));
            && o.result == Err("Failed to create post: " + ValueTooLong(ImageUrlLength).Message())
            && o.tables == t.(posts := t.posts + [row], nextPostId := t.nextPostId + 1)
  {
    var slug := SlugFor(slugify, title, now);
    var row := Post(t.nextPostId, Trim(title), slug, content, userId, Some(now), Some(now));
    var t1 := t.(posts := t.posts + [row], nextPostId := t.nextPostId + 1);
    CreateInsertsPost(t, Trim(title), slug, content, userId, now);
    assert InsertPostImages(t1, t.nextPostId, imageUrls, now) == Stmt(t1, Err(ValueTooLong(ImageUrlLength)));
    CreateImagesRefused(t, slugify, title, content, userId, imageUrls, now, t1, row);
  }

  /** A refused post insert is the outcome, and nothing changes. */
  lemma CreatePostRefused(t: Tables, slugify: string -> string, title: string, content: string,
                          userId: int, imageUrls: seq<string>, now: nat)
    requires InsertPost(t, Trim(title), SlugFor(slugify, title, now), content, userId, now).result.Err?
    ensures var e := InsertPost(t, Trim(title), SlugFor(slugify, title, now), content, userId, now).result.error;
            Create(t, slugify, title, content, userId, imageUrls, now) == Outcome(t, Err(DbFailure(e)))
  {
  }

  /** Once the post row is in, a refused image insert is the outcome. */
  lemma CreateImagesRefused(t: Tables, slugify: string -> string, title: string, content: string,
                            userId: int, imageUrls: seq<string>, now: nat, t1: Tables, row: Post)
    requires InsertPost(t, Trim(title), SlugFor(slugify, title, now), content, userId, now) == Stmt(t1, Ok(row))
    requires row.id != 0 && |imageUrls| > 0
    requires InsertPostImages(t1, row.id, imageUrls, now).result.Err?
    ensures Create(t, slugify, title, content, userId, imageUrls, now)
            == Outcome(t1, Err(DbFailure(InsertPostImages(t1, row.id, imageUrls, now).result.error)))
  {
  }

  /** A post row that comes back without an id is the outcome. */
  lemma CreateNoId(t: Tables, slugify: string -> string, title: string, content: string,
                   userId: int, imageUrls: seq<string>, now: nat, t1: Tables, row: Post)
    requires InsertPost(t, Trim(title), SlugFor(slugify, title, now), content, userId, now) == Stmt(t1, Ok(row))
    requires row.id == 0
    ensures Create(t, slugify, title, content, userId, imageUrls, now) == Outcome(t1, Err(NoIdFailure))
  {
  }

  /** Once the post row is in, with an id, and the image rows (if any) are
      in as well, the post's id is the outcome. */
  lemma CreateStored(t: Tables, slugify: string -> string, title: string, content: string,
                     userId: int, imageUrls: seq<string>, now: nat, t1: Tables, row: Post)
    requires InsertPost(t, Trim(title), SlugFor(slugify, title, now), content, userId, now) == Stmt(t1, Ok(row))
    requires row.id != 0
    requires |imageUrls| > 0 ==> InsertPostImages(t1, row.id, imageUrls, now).result.Ok?
    ensures Create(t, slugify, title, content, userId, imageUrls, now)
            == Outcome(if |imageUrls| > 0 then InsertPostImages(t1, row.id, imageUrls, now).tables else t1, Ok(row.id))
  {
  }

  /** The post insert of a create that passes every check of the post row. */
  lemma CreateInsertsPost(t: Tables, title: string, slug: string, content: string, userId: int, now: nat)
    requires Consistent(t)
    requires !TooLong(title) && !TooLong(slug) && slug !in Column(t.posts, PostSlug) && userId in UserIds(t)
    ensures var row := Post(t.nextPostId, title, slug, content, userId, Some(now), Some(now));
            var t1 := t.(posts := t.posts + [row], nextPostId := t.nextPostId + 1);
            && InsertPost(t, title, slug, content, userId, now) == Stmt(t1, Ok(row))
            && PostIds(t1) == PostIds(t) + [t.nextPostId]
            && t.nextPostId >= 1
  {
    var row := Post(t.nextPostId, title, slug, content, userId, Some(now), Some(now));
    var t1 := t.(posts := t.posts + [row], nextPostId := t.nextPostId + 1);
    assert PostIds(t1) == PostIds(t) + [t.nextPostId];
  }

  /* ---------------- read ---------------- */

  function SlugIs(slug: string): Post -> bool
  {
    (p: Post) => p.slug == slug
  }

  lemma {:induction false} MatchingSlugCount(t: Tables, slug: string)
    ensures |Filter(t.posts, SlugIs(slug))| > 0 <==> slug in Column(t.posts, PostSlug)
  {
    if slug in Column(t.posts, PostSlug) {
      var p := ColumnWitness(t.posts, PostSlug, slug);
      FilterMemberOf(t.posts, SlugIs(slug), p);
    }
    if |Filter(t.posts, SlugIs(slug))| > 0 {
      FilterMemberOf(t.posts, SlugIs(slug), Filter(t.posts, SlugIs(slug))[0]);
      ColumnMember(t.posts, PostSlug, Filter(t.posts, SlugIs(slug))[0]);
    }
  }

  /** `getPostById(postId)`: the first row with that id, or the error
      "Post not found" wrapped by the action's `catch`. */
  function GetPostById(t: Tables, postId: int): (r: Result<Post, string>)
    ensures r.Err? <==> postId !in PostIds(t)
    ensures r.Err? ==> r.error == FetchFailed
    ensures r.Ok? ==> r.value in t.posts && r.value.id == postId
  {
    var rows := Filter(t.posts, HasId(postId));
    MatchingPostCount(t, postId);
    FilterMember(t.posts, HasId(postId));
    if |rows| == 0 then Err(FetchFailed) else Ok(rows[0])
  }

  /** `getPostBySlug(slug)`: the first row with that slug, or `null`. */
  function GetPostBySlug(t: Tables, slug: string): (r: Option<Post>)
    ensures r.None? <==> slug !in Column(t.posts, PostSlug)
    ensures r.Some? ==> r.value in t.posts && r.value.slug == slug
  {
    var rows := Filter(t.posts, SlugIs(slug));
    MatchingSlugCount(t, slug);
    FilterMember(t.posts, SlugIs(slug));
    if |rows| == 0 then None else Some(rows[0])
  }

  /** Ids are a key: looking up a stored post's id finds that post. */
  lemma {:induction false} GetPostByIdFinds(t: Tables, p: Post)
    requires Consistent(t) && p in t.posts
    ensures GetPostById(t, p.id) == Ok(p)
  {
    ColumnMember(t.posts, PostId, p);
    var r := GetPostById(t, p.id);
    var i :| 0 <= i < |t.posts| && t.posts[i] == p;
    var j :| 0 <= j < |t.posts| && t.posts[j] == r.value;
    assert PostIds(t)[i] == PostIds(t)[j];
  }

  /** Slugs are unique: looking up a stored post's slug finds that post. */
  lemma {:induction false} GetPostBySlugFinds(t: Tables, p: Post)
    requires Consistent(t) && p in t.posts
    ensures GetPostBySlug(t, p.slug) == Some(p)
  {
    ColumnMember(t.posts, PostSlug, p);
    var r := GetPostBySlug(t, p.slug);
    var i :| 0 <= i < |t.posts| && t.posts[i] == p;
    var j :| 0 <= j < |t.posts| && t.posts[j] == r.value;
    assert Column(t.posts, PostSlug)[i] == Column(t.posts, PostSlug)[j];
  }

  /** A created post can be read back by its returned id and by its slug. */
  lemma {:induction false} CreateThenGet(t: Tables, slugify: string -> string, title: string, content: string,
                      userId: int, imageUrls: seq<string>, now: nat)
    requires Consistent(t)
    requires CreateSucceeds(t, SlugFor(slugify, title, now), title, userId, imageUrls)
    ensures var o := Create(t, slugify, title, content, userId, imageUrls, now);
            var row := Post(t.nextPostId, Trim(title), SlugFor(slugify, title, now), content, userId, Some(now), Some(now));
            && o.result == Ok(t.nextPostId)
            && GetPostById(o.tables, o.result.value) == Ok(row)
            && GetPostBySlug(o.tables, row.slug) == Some(row)
  {
    CreateStoresPost(t, slugify, title, content, userId, imageUrls, now);
    CreateKeepsConsistent(t, slugify, title, content, userId, imageUrls, now);
    var o := Create(t, slugify, title, content, userId, imageUrls, now);
    var row := Post(t.nextPostId, Trim(title), SlugFor(slugify, title, now), content, userId, Some(now), Some(now));
    assert row in o.tables.posts;
    GetPostByIdFinds(o.tables, row);
    GetPostBySlugFinds(o.tables, row);
  }

  /* ---------------- update ---------------- */

  /** `updatePost(postId, title, content, imageUrls)`: rewrite the post's
      title (trimmed), content and slug (made anew from the new title),
      delete all of its images, then insert one image row per URL. Returns
      the number of post rows updated. A failure after the first statement
      leaves what ran before it in place. */
  function Update(t: Tables, slugify: string -> string, postId: int, title: string, content: string,
                  imageUrls: seq<string>, now: nat): (o: Outcome<nat>)
    ensures o.tables.users == t.users && o.tables.comments == t.comments
    ensures o.tables.replies == t.replies && o.tables.reactions == t.reactions
    ensures Consistent(t) ==> Consistent(o.tables)
  {
    var s1 := UpdatePostWhereId(t, postId, Trim(title), SlugFor(slugify, title, now), content);
    if s1.result.Err? then Outcome(t, Err(UpdateFailedPrefix + s1.result.error.Message()))
    else
      var s2 := DeleteImagesWherePostId(s1.tables, postId);
      if |imageUrls| > 0 then
        var s3 := InsertPostImages(s2.tables, postId, imageUrls, now);
        if s3.result.Err? then Outcome(s2.tables, Err(UpdateFailedPrefix + s3.result.error.Message()))
        else Outcome(s3.tables, Ok(s1.result.value))
      else Outcome(s2.tables, Ok(s1.result.value))
  }

  method UpdatePost(db: Database, slugify: string -> string, postId: int, title: string, content: string,
                    imageUrls: seq<string>, now: nat)
    returns (r: Result<nat, string>)
    modifies db
    ensures Outcome(db.State(), r) == Update(old(db.State()), slugify, postId, title, content, imageUrls, now)
    ensures old(db.Valid()) ==> db.Valid()
  {
    ghost var t0 := db.State();
    var slug := SlugFor(slugify, title, now);
    var updated := db.UpdatePostWhereId(postId, Trim(title), slug, content);
    ghost var t1 := db.State();
    if updated.Err? {
      r := Err(UpdateFailedPrefix + updated.error.Message());
      assert Outcome(t1, r) == Update(t0, slugify, postId, title, content, imageUrls, now);
      return;
    }
    var _ := db.DeleteImagesWherePostId(postId);
    ghost var t2 := db.State();
    assert t2 == DeleteImagesWherePostId(t1, postId).tables;
    if |imageUrls| > 0 {
      var images := db.InsertPostImages(postId, imageUrls, now);
      ghost var t3 := db.State();
      if images.Err? {
        r := Err(UpdateFailedPrefix + images.error.Message());
        assert Outcome(t3, r) == Update(t0, slugify, postId, title, content, imageUrls, now) by {
          assert t3 == t2;
        }
        return;
      }
      r := Ok(updated.value);
      assert Outcome(t3, r) == Update(t0, slugify, postId, title, content, imageUrls, now);
      return;
    }
    r := Ok(updated.value);
    assert Outcome(t2, r) == Update(t0, slugify, postId, title, content, imageUrls, now);
  }

  /** The image rows of one post, in storage order. */
  function ImagesOf(t: Tables, postId: int): seq<PostImage>
  {
    Filter(t.postImages, PostIdIs(postId))
  }

  /** With distinct ids, the post at `i` is the only one `WHERE id = ...`
      matches, and the update rewrites exactly that row. */
  lemma {:induction false} PostAt(t: Tables, i: nat, title: string, slug: string, content: string)
    requires Consistent(t) && i < |t.posts|
    ensures Filter(t.posts, HasId(t.posts[i].id)) == [t.posts[i]]
    ensures SetPostFields(t.posts, t.posts[i].id, title, slug, content)
            == t.posts[i := t.posts[i].(title := title, slug := slug, content := content)]
  {
    forall k | 0 <= k < |t.posts| && k != i ensures t.posts[k].id != t.posts[i].id {
      assert PostIds(t)[k] != PostIds(t)[i];
    }
    FilterOnly(t.posts, i, HasId(t.posts[i].id));
  }

  /** Deleting a post's images and appending `rows` for it: that post's
      images become `rows`, every other post's images stay as they were. */
  lemma {:induction false} ReplaceImages(images: seq<PostImage>, postId: int, rows: seq<PostImage>, q: int)
    requires forall k :: 0 <= k < |rows| ==> rows[k].postId == postId
    ensures Filter(Filter(images, PostIdIsNot(postId)) + rows, PostIdIs(q))
            == if q == postId then rows else Filter(images, PostIdIs(q))
  {
    var kept := Filter(images, PostIdIsNot(postId));
    FilterAppend(kept, rows, PostIdIs(q));
    if q == postId {
      FilterMember(images, PostIdIsNot(postId));
      FilterNone(kept, PostIdIs(q));
      FilterAll(rows, PostIdIs(q));
    } else {
      FilterFilter(images, PostIdIsNot(postId), PostIdIs(q));
      FilterNone(rows, PostIdIs(q));
    }
  }

  /** A successful update of an existing post: that row gets the trimmed
      title, the new slug and the new content, and keeps its id, author and
      timestamps; its images become exactly the new URLs; other posts and
      their images are untouched. */
  lemma {:induction false} UpdateRewritesPost(t: Tables, slugify: string -> string, i: nat, title: string, content: string,
                           imageUrls: seq<string>, now: nat, q: int)
    requires Consistent(t) && i < |t.posts|
    requires !TooLong(Trim(title)) && !TooLong(SlugFor(slugify, title, now))
    requires forall p :: p in t.posts && p.id != t.posts[i].id ==> p.slug != SlugFor(slugify, title, now)
    requires !SomeUrlTooLong(imageUrls)
    ensures var postId := t.posts[i].id;
            var o := Update(t, slugify, postId, title, content, imageUrls, now);
            && o.result == Ok(1)
            && o.tables.posts == t.posts[i := t.posts[i].(title := Trim(title), slug := SlugFor(slugify, title, now),
                                                          content := content)]
            && ImagesOf(o.tables, postId) == ImageRows(t.nextImageId, postId, imageUrls, now)
            && (q != postId ==> ImagesOf(o.tables, q) == ImagesOf(t, q))
  {
    var postId := t.posts[i].id;
    var rows := ImageRows(t.nextImageId, postId, imageUrls, now);
    UpdateSucceeds(t, slugify, i, title, content, imageUrls, now);
    ReplaceImages(t.postImages, postId, rows, postId);
    ReplaceImages(t.postImages, postId, rows, q);
  }

  /** The three statements of a successful update, one after the other. */
  lemma UpdateSucceeds(t: Tables, slugify: string -> string, i: nat, title: string, content: string,
                       imageUrls: seq<string>, now: nat)
    requires Consistent(t) && i < |t.posts|
    requires !TooLong(Trim(title)) && !TooLong(SlugFor(slugify, title, now))
    requires forall p :: p in t.posts && p.id != t.posts[i].id ==> p.slug != SlugFor(slugify, title, now)
    requires !SomeUrlTooLong(imageUrls)
    ensures var postId := t.posts[i].id;
            var slug := SlugFor(slugify, title, now);
            Update(t, slugify, postId, title, content, imageUrls, now)
            == Outcome(t.(posts := t.posts[i := t.posts[i].(title := Trim(title), slug := slug, content := content)],
                          postImages := Filter(t.postImages, PostIdIsNot(postId))
                                        + ImageRows(t.nextImageId, postId, imageUrls, now),
                          nextImageId := t.nextImageId + |imageUrls|),
                       Ok(1))
  {
    var postId := t.posts[i].id;
    var slug := SlugFor(slugify, title, now);
    PostAt(t, i, Trim(title), slug, content);
    ColumnMember(t.posts, PostId, t.posts[i]);
    var t1 := t.(posts := t.posts[i := t.posts[i].(title := Trim(title), slug := slug, content := content)]);
    assert UpdatePostWhereId(t, postId, Trim(title), slug, content) == Stmt(t1, Ok(1));
    var t2 := t1.(postImages := Filter(t.postImages, PostIdIsNot(postId)));
    assert DeleteImagesWherePostId(t1, postId).tables == t2;
    var rows := ImageRows(t.nextImageId, postId, imageUrls, now);
    if |imageUrls| == 0 {
      assert t2.postImages + rows == t2.postImages;
    } else {
      assert PostIds(t2) == PostIds(t);
      assert InsertPostImages(t2, postId, imageUrls, now)
             == Stmt(t2.(postImages := t2.postImages + rows, nextImageId := t.nextImageId + |imageUrls|), Ok(rows));
    }
  }

  /** An id no post has: an over-long title or slug is still refused;
      otherwise nothing is updated and the post has no images to delete, so
      without URLs the action returns 0 and changes nothing, and with URLs
      the image insert violates the foreign key. */
  lemma {:induction false} UpdateMissingPost(t: Tables, slugify: string -> string, postId: int, title: string, content: string,
                          imageUrls: seq<string>, now: nat)
    requires Consistent(t) && postId !in PostIds(t)
    ensures var o := Update(t, slugify, postId, title, content, imageUrls, now);
            var fits := !TooLong(Trim(title)) && !TooLong(SlugFor(slugify, title, now));
            && (!fits ==> o == Outcome(t, Err(UpdateFailedPrefix + ValueTooLong(VarcharLength).Message())))
            && (fits && |imageUrls| == 0 ==> o == Outcome(t, Ok(0)))
            && (fits && |imageUrls| > 0 && !SomeUrlTooLong(imageUrls) ==>
                  o == Outcome(t, Err(UpdateFailedPrefix + ForeignKeyViolation.Message())))
  {
    forall k | 0 <= k < |t.postImages| ensures PostIdIsNot(postId)(t.postImages[k]) {
      assert t.postImages[k] in t.postImages;
    }
    FilterAll(t.postImages, PostIdIsNot(postId));
  }

  /** A new slug another post already has: the update is refused and
      nothing changes. */
  lemma UpdateSlugTaken(t: Tables, slugify: string -> string, postId: int, title: string, content: string,
                        imageUrls: seq<string>, now: nat)
    requires Consistent(t) && postId in PostIds(t)
    requires !TooLong(Trim(title)) && !TooLong(SlugFor(slugify, title, now))
    requires exists p :: p in t.posts && p.id != postId && p.slug == SlugFor(slugify, title, now)
    ensures Update(t, slugify, postId, title, content, imageUrls, now)
            == Outcome(t, Err(UpdateFailedPrefix + UniqueViolation.Message()))
  {
  }

  /** Without a transaction, an image URL the column refuses fails the
      action after the post was rewritten and its old images deleted: both
      of those stay. */
  lemma UpdateImageFailureKeepsRewrite(t: Tables, slugify: string -> string, postId: int, title: string,
                                       content: string, imageUrls: seq<string>, now: nat)
    requires Consistent(t) && postId in PostIds(t)
    requires !TooLong(Trim(title)) && !TooLong(SlugFor(slugify, title, now))
    requires forall p :: p in t.posts && p.id != postId ==> p.slug != SlugFor(slugify, title, now)
    requires SomeUrlTooLong(imageUrls)
    ensures var o := Update(t, slugify, postId, title, content, imageUrls, now);
            && o.result == Err(UpdateFailedPrefix + ValueTooLong(ImageUrlLength).Message())
            && o.tables == t.(posts := SetPostFields(t.posts, postId, Trim(title), SlugFor(slugify, title, now), content),
                              postImages := Filter(t.postImages, PostIdIsNot(postId)))
  {
  }

  /* ---------------- delete ---------------- */

  /** `deletePost(postId)`: delete the post's images, then the post. Returns
      the number of posts deleted. When the post delete fails, the images
      are already gone. */
  function Delete(t: Tables, postId: int): (o: Outcome<nat>)
    ensures o.tables.users == t.users && o.tables.comments == t.comments
    ensures o.tables.replies == t.replies && o.tables.reactions == t.reactions
    ensures o.result.Err? ==> o.tables.posts == t.posts
    ensures Consistent(t) ==> Consistent(o.tables)
  {
    var s1 := DeleteImagesWherePostId(t, postId);
    var s2 := DeletePostWhereId(s1.tables, postId);
    if s2.result.Err? then Outcome(s1.tables, Err(DeleteFailedPrefix + s2.result.error.Message()))
    else Outcome(s2.tables, Ok(s2.result.value))
  }

  method DeletePost(db: Database, postId: int) returns (r: Result<nat, string>)
    modifies db
    ensures Outcome(db.State(), r) == Delete(old(db.State()), postId)
    ensures old(db.Valid()) ==> db.Valid()
  {
    var _ := db.DeleteImagesWherePostId(postId);
    var deleted := db.DeletePostWhereId(postId);
    if deleted.Err? {
      return Err(DeleteFailedPrefix + deleted.error.Message());
    }
    r := Ok(deleted.value);
  }

  /** A post nobody commented on: it and its images are removed, nothing
      else changes, and one row is reported deleted. */
  lemma {:induction false} DeleteRemovesPost(t: Tables, i: nat)
    requires Consistent(t) && i < |t.posts|
    requires forall c :: c in t.comments ==> c.postId != t.posts[i].id
    ensures var postId := t.posts[i].id;
            Delete(t, postId) == Outcome(t.(posts := t.posts[..i] + t.posts[i + 1..],
                                             postImages := Filter(t.postImages, PostIdIsNot(postId))),
                                         Ok(1))
  {
    var postId := t.posts[i].id;
    PostAt(t, i, "", "", "");
    ColumnMember(t.posts, PostId, t.posts[i]);
    forall k | 0 <= k < |t.posts| && k != i ensures NotId(postId)(t.posts[k]) {
      assert PostIds(t)[k] != PostIds(t)[i];
    }
    FilterAllBut(t.posts, i, NotId(postId));
    FilterFilter(t.postImages, PostIdIsNot(postId), PostIdIsNot(postId));
  }

  /** A post with comments cannot be deleted, but its images are deleted
      before the post delete fails: the post stays without its images. */
  lemma {:induction false} DeleteCommentedPostLosesImages(t: Tables, postId: int)
    requires postId in PostIds(t)
    requires exists c :: c in t.comments && c.postId == postId
    ensures var o := Delete(t, postId);
            && o == Outcome(t.(postImages := Filter(t.postImages, PostIdIsNot(postId))),
                            Err(DeleteFailedPrefix + StillReferenced.Message()))
            && ImagesOf(o.tables, postId) == []
  {
    FilterMember(t.postImages, PostIdIsNot(postId));
    FilterNone(Filter(t.postImages, PostIdIsNot(postId)), PostIdIs(postId));
  }
}
