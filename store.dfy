/** The database the actions talk to. Each SQL statement the actions issue
    is a function from the database before to the database after and what
    the statement returns; a statement that violates a constraint raises
    the PostgreSQL error and changes nothing. `Database` is the mutable
    connection the actions use, one method per statement. */
module Store {
  import opened Wrappers
  import opened JsString
  import opened Schema

  /** The PostgreSQL errors a statement can raise here. */
  datatype DbError =
    | ValueTooLong(limit: nat)
    | UniqueViolation
    | NotNullViolation
    | ForeignKeyViolation
    | StillReferenced
  {
    /** The server's message text (table, column and constraint names
        omitted). `ForeignKeyViolation` is raised on the referencing side,
        by an insert or update naming a missing row; `StillReferenced` on
        the referenced side, by a delete of a row others still point to. */
    function Message(): (r: string)
      ensures r != []
    {
      // Each text is split so that the phrase the catch of the create action
      // looks for is a syntactic suffix, and a lone "k" sits where no other
      // phrase could start: the proofs that a message does or does not
      // contain a phrase then unfold only a few characters.
      match this
      case ValueTooLong(limit) => "value too long for type " + "character varying(" + NatToDecimal(limit) + ")"
      case UniqueViolation => "duplicate key value " + "violates unique " + "constraint"
      case NotNullViolation => "null value in column " + "violates not-null " + "constraint"
      case ForeignKeyViolation => "insert or update on table " + "violates foreign " + "k" + "ey constraint"
      case StillReferenced => "update or delete on table " + "violates foreign " + "k" + "ey constraint"
    }
  }

  /** The declared length of the `varchar` columns: titles, slugs, the
      user's ids, names and email. */
  const VarcharLength: nat := 255

  /** The declared length of `post_images.image_url`. */
  const ImageUrlLength: nat := 512

  /** What a statement leaves behind and what it returns or raises. */
  datatype Stmt<T> = Stmt(tables: Tables, result: Result<T, DbError>)

  /** What a server action leaves in the database and what it returns, or
      the message of the `Error` it throws. Statements an action ran before
      it threw stay applied: the actions do not use transactions. */
  datatype Outcome<T> = Outcome(tables: Tables, result: Result<T, string>)

  /** The rows of `s` that `keep` accepts, in order (a `WHERE` clause). */
  function Filter<T>(s: seq<T>, keep: T -> bool): (r: seq<T>)
    ensures |r| <= |s|
  {
    if s == [] then []
    else (if keep(s[0]) then [s[0]] else []) + Filter(s[1..], keep)
  }

  /** The kept rows are exactly the rows of `s` that `keep` accepts. */
  lemma {:induction false} FilterMember<T>(s: seq<T>, keep: T -> bool)
    ensures forall k :: 0 <= k < |Filter(s, keep)| ==> Filter(s, keep)[k] in s && keep(Filter(s, keep)[k])
    ensures forall k :: 0 <= k < |s| && keep(s[k]) ==> s[k] in Filter(s, keep)
  {
    if s != [] {
      FilterMember(s[1..], keep);
      var r := Filter(s, keep);
      var rest := Filter(s[1..], keep);
      forall k | 0 <= k < |r| ensures r[k] in s && keep(r[k]) {
        if !(keep(s[0]) && k == 0) {
          var j := if keep(s[0]) then k - 1 else k;
          assert r[k] == rest[j];
          assert rest[j] in s[1..];
        }
      }
      forall k | 0 <= k < |s| && keep(s[k]) ensures s[k] in r {
        if k > 0 {
          assert s[1..][k - 1] in rest;
        }
      }
    }
  }

  lemma {:induction false} FilterAppend<T>(a: seq<T>, b: seq<T>, keep: T -> bool)
    ensures Filter(a + b, keep) == Filter(a, keep) + Filter(b, keep)
  {
    if a != [] {
      assert (a + b)[1..] == a[1..] + b;
      FilterAppend(a[1..], b, keep);
    } else {
      assert a + b == b;
    }
  }

  lemma {:induction false} FilterAll<T>(s: seq<T>, keep: T -> bool)
    requires forall k :: 0 <= k < |s| ==> keep(s[k])
    ensures Filter(s, keep) == s
  {
    if s != [] {
      FilterAll(s[1..], keep);
    }
  }

  lemma {:induction false} FilterNone<T>(s: seq<T>, keep: T -> bool)
    requires forall k :: 0 <= k < |s| ==> !keep(s[k])
    ensures Filter(s, keep) == []
  {
    if s != [] {
      FilterNone(s[1..], keep);
    }
  }

  /** Filtering around one position: the rows before it, the row itself if
      kept, and the rows after it. */
  lemma {:induction false} FilterSplitAt<T>(s: seq<T>, i: nat, keep: T -> bool)
    requires i < |s|
    ensures Filter(s, keep) == Filter(s[..i], keep) + Filter([s[i]], keep) + Filter(s[i + 1..], keep)
    ensures Filter([s[i]], keep) == if keep(s[i]) then [s[i]] else []
  {
    var head, tail := s[..i + 1], s[i + 1..];
    assert s == head + tail;
    assert head == s[..i] + [s[i]];
    FilterAppend(head, tail, keep);
    FilterAppend(s[..i], [s[i]], keep);
    FilterOne(s[i], keep);
  }

  /** Filtering out exactly the row at `i`. */
  lemma {:induction false} FilterAllBut<T>(s: seq<T>, i: nat, keep: T -> bool)
    requires i < |s| && !keep(s[i])
    requires forall k :: 0 <= k < |s| && k != i ==> keep(s[k])
    ensures Filter(s, keep) == s[..i] + s[i + 1..]
  {
    var tail := s[1..];
    assert forall k :: 0 <= k < |tail| ==> tail[k] == s[k + 1];
    if i == 0 {
      FilterAll(tail, keep);
    } else {
      FilterAllBut(tail, i - 1, keep);
      assert s[..i] == [s[0]] + tail[..i - 1];
      assert s[i + 1..] == tail[i..];
    }
  }

  /** Filtering keeps exactly the row at `i`. */
  lemma {:induction false} FilterOnly<T>(s: seq<T>, i: nat, keep: T -> bool)
    requires i < |s| && keep(s[i])
    requires forall k :: 0 <= k < |s| && k != i ==> !keep(s[k])
    ensures Filter(s, keep) == [s[i]]
  {
    FilterSplitAt(s, i, keep);
    var left, right := s[..i], s[i + 1..];
    assert forall k :: 0 <= k < |left| ==> left[k] == s[k];
    FilterNone(left, keep);
    assert forall k :: 0 <= k < |right| ==> right[k] == s[i + 1 + k];
    FilterNone(right, keep);
  }

  lemma {:induction false} FilterOne<T>(x: T, keep: T -> bool)
    ensures Filter([x], keep) == if keep(x) then [x] else []
  {
    assert [x][1..] == [];
  }

  /** Filtering a table with the row at `i` removed. */
  lemma {:induction false} FilterRemoveAt<T>(s: seq<T>, i: nat, keep: T -> bool)
    requires i < |s|
    ensures Filter(s, keep) == Filter(s[..i], keep) + Filter([s[i]], keep) + Filter(s[i + 1..], keep)
    ensures Filter(s[..i] + s[i + 1..], keep) == Filter(s[..i], keep) + Filter(s[i + 1..], keep)
  {
    FilterSplitAt(s, i, keep);
    FilterAppend(s[..i], s[i + 1..], keep);
  }

  /** Filtering a table with the row at `i` replaced by `x`. */
  lemma {:induction false} FilterUpdateAt<T>(s: seq<T>, i: nat, x: T, keep: T -> bool)
    requires i < |s|
    ensures Filter(s, keep) == Filter(s[..i], keep) + Filter([s[i]], keep) + Filter(s[i + 1..], keep)
    ensures Filter(s[i := x], keep) == Filter(s[..i], keep) + Filter([x], keep) + Filter(s[i + 1..], keep)
  {
    FilterSplitAt(s, i, keep);
    var s' := s[i := x];
    FilterSplitAt(s', i, keep);
    assert s'[..i] == s[..i];
    assert s'[i + 1..] == s[i + 1..];
  }

  /** Keeping the rows both filters accept is filtering by the stronger one. */
  lemma {:induction false} FilterFilter<T>(s: seq<T>, weak: T -> bool, strong: T -> bool)
    requires forall x :: strong(x) ==> weak(x)
    ensures Filter(Filter(s, weak), strong) == Filter(s, strong)
  {
    if s != [] {
      FilterFilter(s[1..], weak, strong);
      var head := if weak(s[0]) then [s[0]] else [];
      FilterAppend(head, Filter(s[1..], weak), strong);
      FilterOne(s[0], strong);
    }
  }

  lemma {:induction false} FilterMemberOf<T>(s: seq<T>, keep: T -> bool, x: T)
    ensures x in Filter(s, keep) <==> x in s && keep(x)
  {
    FilterMember(s, keep);
    if x in s && keep(x) {
      var k :| 0 <= k < |s| && s[k] == x;
    }
    if x in Filter(s, keep) {
      var k :| 0 <= k < |Filter(s, keep)| && Filter(s, keep)[k] == x;
    }
  }

  /** A column value of a kept row is a column value of the original rows. */
  lemma {:induction false} FilterColumnSubset<T, K>(s: seq<T>, keep: T -> bool, f: T -> K, i: int)
    requires 0 <= i < |Filter(s, keep)|
    ensures Column(Filter(s, keep), f)[i] in Column(s, f)
  {
    var x := Filter(s, keep)[i];
    FilterMemberOf(s, keep, x);
    var k :| 0 <= k < |s| && s[k] == x;
    assert Column(s, f)[k] == f(x);
  }

  lemma {:induction false} DistinctCons<K>(k: K, ks: seq<K>)
    requires k !in ks && Distinct(ks)
    ensures Distinct([k] + ks)
  {
    var c := [k] + ks;
    forall i, j | 0 <= i < j < |c| ensures c[i] != c[j] {
      assert c[j] == ks[j - 1];
      if i > 0 { assert c[i] == ks[i - 1]; }
    }
  }

  /** Removing rows keeps a column's values pairwise distinct. */
  lemma {:induction false} FilterKeepsDistinct<T, K>(s: seq<T>, keep: T -> bool, f: T -> K)
    requires Distinct(Column(s, f))
    ensures Distinct(Column(Filter(s, keep), f))
  {
    if s != [] {
      assert Column(s[1..], f) == Column(s, f)[1..];
      FilterKeepsDistinct(s[1..], keep, f);
      var rest := Filter(s[1..], keep);
      if keep(s[0]) {
        var cr := Column(rest, f);
        assert f(s[0]) !in cr by {
          forall i | 0 <= i < |cr| ensures cr[i] != f(s[0]) {
            FilterColumnSubset(s[1..], keep, f, i);
            var k :| 0 <= k < |Column(s[1..], f)| && Column(s[1..], f)[k] == cr[i];
            assert Column(s, f)[k + 1] == cr[i];
          }
        }
        DistinctCons(f(s[0]), cr);
        assert Column(Filter(s, keep), f) == [f(s[0])] + cr;
      } else {
        assert Filter(s, keep) == rest;
      }
    }
  }

  lemma {:induction false} FilterKeepsSerial<T>(s: seq<T>, keep: T -> bool, f: T -> int, next: nat)
    requires SerialKey(Column(s, f), next)
    ensures SerialKey(Column(Filter(s, keep), f), next)
  {
    FilterKeepsDistinct(s, keep, f);
    var c := Column(Filter(s, keep), f);
    forall i | 0 <= i < |c| ensures 1 <= c[i] < next {
      var x := Filter(s, keep)[i];
      FilterMemberOf(s, keep, x);
      var k :| 0 <= k < |s| && s[k] == x;
      assert Column(s, f)[k] == c[i];
    }
  }

  lemma {:induction false} ColumnMember<T, K>(s: seq<T>, f: T -> K, x: T)
    requires x in s
    ensures f(x) in Column(s, f)
  {
    var k :| 0 <= k < |s| && s[k] == x;
    assert Column(s, f)[k] == f(x);
  }

  /** A value of a column belongs to some row. */
  lemma {:induction false} ColumnWitness<T, K>(s: seq<T>, f: T -> K, v: K) returns (x: T)
    requires v in Column(s, f)
    ensures x in s && f(x) == v
  {
    var k :| 0 <= k < |Column(s, f)| && Column(s, f)[k] == v;
    x := s[k];
  }

  /** Appending a row with a fresh serial value keeps the key valid. */
  lemma {:induction false} AppendSerial<T>(s: seq<T>, f: T -> int, next: nat, x: T)
    requires SerialKey(Column(s, f), next) && f(x) == next && next >= 1
    ensures SerialKey(Column(s + [x], f), next + 1)
  {
    assert Column(s + [x], f) == Column(s, f) + [next];
  }

  lemma {:induction false} AppendDistinct<T, K>(s: seq<T>, f: T -> K, x: T)
    requires Distinct(Column(s, f)) && f(x) !in Column(s, f)
    ensures Distinct(Column(s + [x], f))
  {
    assert Column(s + [x], f) == Column(s, f) + [f(x)];
  }

  lemma AppendColumn<T, K>(s: seq<T>, f: T -> K, x: T)
    ensures Column(s + [x], f) == Column(s, f) + [f(x)]
  {
  }

  /* ---------------- users ---------------- */

  /** A value a `varchar(n)` column refuses: PostgreSQL raises only when a
      character other than a space lies past the first `n`. */
  predicate Overflows(s: string, n: nat)
  {
    exists k :: n <= k < |s| && s[k] != ' '
  }

  /** The value a `varchar(n)` column stores: a longer value it accepts
      (one whose excess is all spaces) is cut to `n` characters. */
  function Fit(s: string, n: nat): (r: string)
    ensures |s| <= n ==> r == s
    ensures |s| > n ==> r == s[..n]
    ensures |r| <= n && r <= s
    ensures !Overflows(s, n) ==> forall k :: |r| <= k < |s| ==> s[k] == ' '
  {
    if |s| <= n then s else s[..n]
  }

  /** For a value whose last character is not a space, refusal is just
      being longer than the column. */
  lemma OverflowsIsLength(s: string, n: nat)
    requires s == [] || s[|s| - 1] != ' '
    ensures Overflows(s, n) <==> |s| > n
  {
    if |s| > n {
      assert n <= |s| - 1 < |s| && s[|s| - 1] != ' ';
    }
  }

  function FitOpt(s: Option<string>, n: nat): Option<string>
  {
    if s.Some? then Some(Fit(s.value, n)) else None
  }

  predicate OverflowsOpt(s: Option<string>, n: nat)
  {
    s.Some? && Overflows(s.value, n)
  }

  /** A title or slug longer than the `varchar(255)` column. The post
      statements receive trimmed titles and slugs that end in a digit, for
      which this is the column's own rule (`OverflowsIsLength`). */
  predicate TooLong(s: string)
  {
    |s| > VarcharLength
  }

  /** Some user field the `varchar(255)` columns refuse. */
  predicate UserFieldOverflows(clerkId: string, firstName: Option<string>, lastName: Option<string>, email: string)
  {
    || Overflows(clerkId, VarcharLength) || Overflows(email, VarcharLength)
    || OverflowsOpt(firstName, VarcharLength) || OverflowsOpt(lastName, VarcharLength)
  }

  /** `INSERT INTO users`: `clerk_id` and `email` are unique, compared as
      the columns store them. */
  function InsertUser(t: Tables, clerkId: string, firstName: Option<string>,
                      lastName: Option<string>, email: string, now: Time): (s: Stmt<User>)
    ensures s.result.Err? <==> || UserFieldOverflows(clerkId, firstName, lastName, email)
                               || Fit(clerkId, VarcharLength) in Column(t.users, UserClerkId)
                               || Fit(email, VarcharLength) in Column(t.users, UserEmail)
    ensures s.result.Err? ==> s.tables == t
    ensures s.result == Err(UniqueViolation) <==>
              && !UserFieldOverflows(clerkId, firstName, lastName, email)
              && (Fit(clerkId, VarcharLength) in Column(t.users, UserClerkId)
                  || Fit(email, VarcharLength) in Column(t.users, UserEmail))
    ensures s.result.Ok? ==>
              && s.result.value == User(t.nextUserId, Fit(clerkId, VarcharLength), FitOpt(firstName, VarcharLength),
                                        FitOpt(lastName, VarcharLength), Fit(email, VarcharLength), Some(now), Some(now))
              && s.tables == t.(users := t.users + [s.result.value], nextUserId := t.nextUserId + 1)
    ensures Consistent(t) ==> Consistent(s.tables)
  {
    if UserFieldOverflows(clerkId, firstName, lastName, email) then
      Stmt(t, Err(ValueTooLong(VarcharLength)))
    else if Fit(clerkId, VarcharLength) in Column(t.users, UserClerkId)
         || Fit(email, VarcharLength) in Column(t.users, UserEmail) then
      Stmt(t, Err(UniqueViolation))
    else
      var u := User(t.nextUserId, Fit(clerkId, VarcharLength), FitOpt(firstName, VarcharLength),
                    FitOpt(lastName, VarcharLength), Fit(email, VarcharLength), Some(now), Some(now));
      var t' := t.(users := t.users + [u], nextUserId := t.nextUserId + 1);
      assert Consistent(t) ==> Consistent(t') by {
        if Consistent(t) {
          AppendSerial(t.users, UserId, t.nextUserId, u);
          AppendDistinct(t.users, UserClerkId, u);
          AppendDistinct(t.users, UserEmail, u);
          assert UserIds(t') == UserIds(t) + [u.id];
        }
      }
      Stmt(t', Ok(u))
  }

  /* ---------------- posts ---------------- */

  /** `INSERT INTO posts ... RETURNING`: the slug must be new and the user
      must exist; `created_at` and `updated_at` default to the time of the
      statement. */
  function InsertPost(t: Tables, title: string, slug: string, content: string,
                      userId: int, now: Time): (s: Stmt<Post>)
    ensures TooLong(title) || TooLong(slug) ==> s == Stmt(t, Err(ValueTooLong(VarcharLength)))
    ensures !TooLong(title) && !TooLong(slug) && slug in Column(t.posts, PostSlug) ==>
              s == Stmt(t, Err(UniqueViolation))
    ensures !TooLong(title) && !TooLong(slug) && slug !in Column(t.posts, PostSlug) && userId !in UserIds(t) ==>
              s == Stmt(t, Err(ForeignKeyViolation))
    ensures s.result.Ok? ==>
              && s.result.value == Post(t.nextPostId, title, slug, content, userId, Some(now), Some(now))
              && s.tables == t.(posts := t.posts + [s.result.value], nextPostId := t.nextPostId + 1)
    ensures Consistent(t) ==> Consistent(s.tables)
  {
    if TooLong(title) || TooLong(slug) then Stmt(t, Err(ValueTooLong(VarcharLength)))
    else if slug in Column(t.posts, PostSlug) then Stmt(t, Err(UniqueViolation))
    else if userId !in UserIds(t) then Stmt(t, Err(ForeignKeyViolation))
    else
      var p := Post(t.nextPostId, title, slug, content, userId, Some(now), Some(now));
      var t' := t.(posts := t.posts + [p], nextPostId := t.nextPostId + 1);
      assert Consistent(t) ==> Consistent(t') by {
        if Consistent(t) { AppendPostConsistent(t, p); }
      }
      Stmt(t', Ok(p))
  }

  /** A post row with the next id, a new slug and an existing author keeps
      the database consistent. */
  lemma AppendPostConsistent(t: Tables, p: Post)
    requires Consistent(t) && p.id == t.nextPostId && p.userId in UserIds(t)
    requires p.slug !in Column(t.posts, PostSlug)
    ensures Consistent(t.(posts := t.posts + [p], nextPostId := t.nextPostId + 1))
  {
    var t' := t.(posts := t.posts + [p], nextPostId := t.nextPostId + 1);
    AppendSerial(t.posts, PostId, t.nextPostId, p);
    AppendDistinct(t.posts, PostSlug, p);
    assert PostIds(t') == PostIds(t) + [p.id];
    assert forall v :: v in PostIds(t) ==> v in PostIds(t');
  }

  /** The posts of `posts` with id `id` rewritten with new title, slug and content. */
  function SetPostFields(posts: seq<Post>, id: int, title: string, slug: string,
                         content: string): (r: seq<Post>)
    ensures |r| == |posts|
    ensures forall k :: 0 <= k < |posts| ==>
              r[k] == if posts[k].id == id then posts[k].(title := title, slug := slug, content := content)
                      else posts[k]
  {
    seq(|posts|, k requires 0 <= k < |posts| =>
      if posts[k].id == id then posts[k].(title := title, slug := slug, content := content)
      else posts[k])
  }

  function HasId(id: int): Post -> bool
  {
    (p: Post) => p.id == id
  }

  function NotId(id: int): Post -> bool
  {
    (p: Post) => p.id != id
  }

  /** `UPDATE posts SET title, slug, content WHERE id = ...`: the number of
      rows updated. The new values are cast to their column types when the
      statement is planned, so an over-long title or slug raises whether or
      not a row matches; then a slug that another post already has raises a
      unique violation. `updated_at` is not touched. */
  function UpdatePostWhereId(t: Tables, id: int, title: string, slug: string,
                             content: string): (s: Stmt<nat>)
    ensures TooLong(title) || TooLong(slug) ==> s == Stmt(t, Err(ValueTooLong(VarcharLength)))
    ensures id !in PostIds(t) && !TooLong(title) && !TooLong(slug) ==> s == Stmt(t, Ok(0))
    ensures s.result.Ok? ==> s.result.value == |Filter(t.posts, HasId(id))|
    ensures s.result.Ok? ==> (s.result.value == 0 <==> id !in PostIds(t))
    ensures s.result.Err? ==> s.tables == t
    ensures s.result.Ok? ==> s.tables == t.(posts := SetPostFields(t.posts, id, title, slug, content))
    ensures Consistent(t) && id in PostIds(t) && !TooLong(title) && !TooLong(slug) ==>
              (s.result.Err? <==> exists p :: p in t.posts && p.id != id && p.slug == slug)
    ensures s.result.Err? ==> s.result.error in {ValueTooLong(VarcharLength), UniqueViolation}
    ensures Consistent(t) ==> Consistent(s.tables)
  {
    MatchingPostCount(t, id);
    if TooLong(title) || TooLong(slug) then Stmt(t, Err(ValueTooLong(VarcharLength)))
    else if id !in PostIds(t) then
      SetMissingPost(t, id, title, slug, content);
      Stmt(t, Ok(0))
    else
      var posts' := SetPostFields(t.posts, id, title, slug, content);
      assert Consistent(t) ==>
               (!Distinct(Column(posts', PostSlug)) <==> exists p :: p in t.posts && p.id != id && p.slug == slug) by {
        if Consistent(t) { UpdateSlugClash(t, id, title, slug, content); }
      }
      if !Distinct(Column(posts', PostSlug)) then Stmt(t, Err(UniqueViolation))
      else
        assert Consistent(t) ==> Consistent(t.(posts := posts')) by {
          if Consistent(t) { SetPostFieldsConsistent(t, id, title, slug, content); }
        }
        Stmt(t.(posts := posts'), Ok(|Filter(t.posts, HasId(id))|))
  }

  /** No row has the id: the rewrite leaves every row as it was. */
  lemma {:induction false} SetMissingPost(t: Tables, id: int, title: string, slug: string, content: string)
    requires id !in PostIds(t)
    ensures SetPostFields(t.posts, id, title, slug, content) == t.posts
  {
    forall k | 0 <= k < |t.posts| ensures t.posts[k].id != id {
      assert PostIds(t)[k] == t.posts[k].id;
    }
  }

  /** Rewriting title, slug and content keeps the ids and the authors, so
      with slugs still distinct the database stays consistent. */
  lemma {:induction false} SetPostFieldsConsistent(t: Tables, id: int, title: string, slug: string, content: string)
    requires Consistent(t)
    requires Distinct(Column(SetPostFields(t.posts, id, title, slug, content), PostSlug))
    ensures Consistent(t.(posts := SetPostFields(t.posts, id, title, slug, content)))
  {
    var posts' := SetPostFields(t.posts, id, title, slug, content);
    var t' := t.(posts := posts');
    assert Column(posts', PostId) == PostIds(t);
    forall p | p in posts' ensures p.userId in UserIds(t) {
      var k :| 0 <= k < |posts'| && posts'[k] == p;
      assert t.posts[k] in t.posts;
    }
  }

  /** With distinct ids and slugs, rewriting the post `id` produces a
      duplicate slug exactly when another post already carries that slug. */
  lemma {:induction false} UpdateSlugClash(t: Tables, id: int, title: string, slug: string, content: string)
    requires Consistent(t) && id in PostIds(t)
    ensures !Distinct(Column(SetPostFields(t.posts, id, title, slug, content), PostSlug))
            <==> exists p :: p in t.posts && p.id != id && p.slug == slug
  {
    var posts' := SetPostFields(t.posts, id, title, slug, content);
    var c := Column(posts', PostSlug);
    var i :| 0 <= i < |t.posts| && t.posts[i].id == id;
    if exists p :: p in t.posts && p.id != id && p.slug == slug {
      var p :| p in t.posts && p.id != id && p.slug == slug;
      var j :| 0 <= j < |t.posts| && t.posts[j] == p;
      assert c[i] == slug && c[j] == slug && i != j;
      if i < j { assert !Distinct(c); } else { assert !Distinct(c); }
    } else {
      forall a, b | 0 <= a < b < |c| ensures c[a] != c[b] {
        assert PostIds(t)[a] != PostIds(t)[b];
        assert Column(t.posts, PostSlug)[a] != Column(t.posts, PostSlug)[b];
        if t.posts[a].id == id {
          assert t.posts[b] in t.posts;
        } else if t.posts[b].id == id {
          assert t.posts[a] in t.posts;
        }
      }
    }
  }

  function PostIdIs(id: int): PostImage -> bool
  {
    (i: PostImage) => i.postId == id
  }

  function PostIdIsNot(id: int): PostImage -> bool
  {
    (i: PostImage) => i.postId != id
  }

  function PostIdOfComment(id: int): Comment -> bool
  {
    (c: Comment) => c.postId == id
  }

  /** Removing post rows that nothing references keeps the foreign keys. */
  lemma {:induction false} DropPostKeepsKeys(t: Tables, id: int)
    requires Consistent(t)
    requires forall c :: c in t.comments ==> c.postId != id
    ensures Consistent(t.(posts := Filter(t.posts, NotId(id)),
                          postImages := Filter(t.postImages, PostIdIsNot(id))))
  {
    var t' := t.(posts := Filter(t.posts, NotId(id)),
                 postImages := Filter(t.postImages, PostIdIsNot(id)));
    FilterKeepsSerial(t.posts, NotId(id), PostId, t.nextPostId);
    FilterKeepsSerial(t.postImages, PostIdIsNot(id), ImageId, t.nextImageId);
    FilterKeepsDistinct(t.posts, NotId(id), PostSlug);
    assert forall v :: v in PostIds(t) && v != id ==> v in PostIds(t') by {
      forall v | v in PostIds(t) && v != id ensures v in PostIds(t') {
        var p := ColumnWitness(t.posts, PostId, v);
        FilterMemberOf(t.posts, NotId(id), p);
        ColumnMember(t'.posts, PostId, p);
      }
    }
    forall p | p in t'.posts ensures p.userId in UserIds(t') {
      FilterMemberOf(t.posts, NotId(id), p);
    }
    forall x | x in t'.postImages ensures x.postId in PostIds(t') {
      FilterMemberOf(t.postImages, PostIdIsNot(id), x);
    }
  }

  /** `DELETE FROM posts WHERE id = ...`: `comments.post_id` has no
      `onDelete`, so a post that still has comments cannot be deleted;
      otherwise its `post_images` rows go with it (`onDelete: "cascade"`). */
  function DeletePostWhereId(t: Tables, id: int): (s: Stmt<nat>)
    ensures id !in PostIds(t) ==> s == Stmt(t, Ok(0))
    ensures id in PostIds(t) && (exists c :: c in t.comments && c.postId == id) ==>
              s == Stmt(t, Err(StillReferenced))
    ensures s.result.Ok? ==> s.result.value == |Filter(t.posts, HasId(id))|
    ensures s.result.Ok? ==> (s.result.value == 0 <==> id !in PostIds(t))
    ensures s.result.Ok? && id in PostIds(t) ==>
              s.tables == t.(posts := Filter(t.posts, NotId(id)),
                             postImages := Filter(t.postImages, PostIdIsNot(id)))
    ensures Consistent(t) ==> Consistent(s.tables)
  {
    MatchingPostCount(t, id);
    if id !in PostIds(t) then
      Stmt(t, Ok(0))
    else if exists c :: c in t.comments && c.postId == id then
      Stmt(t, Err(StillReferenced))
    else
      var t' := t.(posts := Filter(t.posts, NotId(id)),
                   postImages := Filter(t.postImages, PostIdIsNot(id)));
      assert Consistent(t) ==> Consistent(t') by {
        if Consistent(t) { DropPostKeepsKeys(t, id); }
      }
      Stmt(t', Ok(|Filter(t.posts, HasId(id))|))
  }

  /** `WHERE id = ...` matches a row exactly when the id is in the column. */
  lemma {:induction false} MatchingPostCount(t: Tables, id: int)
    ensures |Filter(t.posts, HasId(id))| > 0 <==> id in PostIds(t)
  {
    if id in PostIds(t) {
      var p := ColumnWitness(t.posts, PostId, id);
      FilterMemberOf(t.posts, HasId(id), p);
    }
    if |Filter(t.posts, HasId(id))| > 0 {
      FilterMemberOf(t.posts, HasId(id), Filter(t.posts, HasId(id))[0]);
      ColumnMember(t.posts, PostId, Filter(t.posts, HasId(id))[0]);
    }
  }

  /* ---------------- post_images ---------------- */

  /** `DELETE FROM post_images WHERE post_id = ...`: the number of rows removed. */
  function DeleteImagesWherePostId(t: Tables, postId: int): (s: Stmt<nat>)
    ensures s.result.Ok? && s.tables == t.(postImages := Filter(t.postImages, PostIdIsNot(postId)))
    ensures Consistent(t) ==> Consistent(s.tables)
  {
    var t' := t.(postImages := Filter(t.postImages, PostIdIsNot(postId)));
    assert Consistent(t) ==> Consistent(t') by {
      if Consistent(t) {
        FilterKeepsSerial(t.postImages, PostIdIsNot(postId), ImageId, t.nextImageId);
        forall x | x in t'.postImages ensures x.postId in PostIds(t') {
          FilterMemberOf(t.postImages, PostIdIsNot(postId), x);
        }
      }
    }
    Stmt(t', Ok(|t.postImages| - |t'.postImages|))
  }

  /** The rows a multi-row `INSERT INTO post_images` creates: one per URL,
      in order, with consecutive ids from `firstId`, each URL as the
      `varchar(512)` column stores it. */
  function ImageRows(firstId: int, postId: int, urls: seq<string>, now: Time): (r: seq<PostImage>)
    ensures |r| == |urls|
    ensures forall k :: 0 <= k < |urls| ==>
              r[k] == PostImage(firstId + k, postId, Fit(urls[k], ImageUrlLength), Some(now))
  {
    seq(|urls|, k requires 0 <= k < |urls| => PostImage(firstId + k, postId, Fit(urls[k], ImageUrlLength), Some(now)))
  }

  /** Some URL the `image_url` column refuses. */
  predicate SomeUrlTooLong(urls: seq<string>)
  {
    exists k :: 0 <= k < |urls| && Overflows(urls[k], ImageUrlLength)
  }

  /** `INSERT INTO post_images VALUES (...), ...`: every URL must fit the
      column and the post must exist. The query builder refuses an empty
      list of rows, so callers pass at least one. */
  function InsertPostImages(t: Tables, postId: int, urls: seq<string>, now: Time): (s: Stmt<seq<PostImage>>)
    requires |urls| > 0
    ensures SomeUrlTooLong(urls) ==> s == Stmt(t, Err(ValueTooLong(ImageUrlLength)))
    ensures !SomeUrlTooLong(urls) && postId !in PostIds(t) ==> s == Stmt(t, Err(ForeignKeyViolation))
    ensures !SomeUrlTooLong(urls) && postId in PostIds(t) ==>
              var rows := ImageRows(t.nextImageId, postId, urls, now);
              s == Stmt(t.(postImages := t.postImages + rows,
                           nextImageId := t.nextImageId + |urls|), Ok(rows))
    ensures s.result.Err? ==> s.tables == t
    ensures Consistent(t) ==> Consistent(s.tables)
  {
    if SomeUrlTooLong(urls) then Stmt(t, Err(ValueTooLong(ImageUrlLength)))
    else if postId !in PostIds(t) then Stmt(t, Err(ForeignKeyViolation))
    else
      var rows := ImageRows(t.nextImageId, postId, urls, now);
      var t' := t.(postImages := t.postImages + rows, nextImageId := t.nextImageId + |urls|);
      assert Consistent(t) ==> Consistent(t') by {
        if Consistent(t) { AppendImagesConsistent(t, postId, urls, now); }
      }
      Stmt(t', Ok(rows))
  }

  /* ---------------- comments and replies ---------------- */

  /** `INSERT INTO comments ... RETURNING`: user and post must exist. */
  function InsertComment(t: Tables, content: string, userId: int, postId: int, now: Time): (s: Stmt<Comment>)
    ensures userId !in UserIds(t) || postId !in PostIds(t) ==> s == Stmt(t, Err(ForeignKeyViolation))
    ensures userId in UserIds(t) && postId in PostIds(t) ==>
              var c := Comment(t.nextCommentId, content, userId, postId, Some(now), Some(now));
              s == Stmt(t.(comments := t.comments + [c], nextCommentId := t.nextCommentId + 1), Ok(c))
    ensures Consistent(t) ==> Consistent(s.tables)
  {
    if userId !in UserIds(t) || postId !in PostIds(t) then Stmt(t, Err(ForeignKeyViolation))
    else
      var c := Comment(t.nextCommentId, content, userId, postId, Some(now), Some(now));
      var t' := t.(comments := t.comments + [c], nextCommentId := t.nextCommentId + 1);
      assert Consistent(t) ==> Consistent(t') by {
        if Consistent(t) {
          AppendSerial(t.comments, CommentId, t.nextCommentId, c);
          AppendColumn(t.comments, CommentId, c);
        }
      }
      Stmt(t', Ok(c))
  }
  /** Image rows numbered on from the next id, all for an existing post,
      keep the database consistent. */
  lemma AppendImagesConsistent(t: Tables, postId: int, urls: seq<string>, now: Time)
    requires Consistent(t) && postId in PostIds(t)
    ensures var rows := ImageRows(t.nextImageId, postId, urls, now);
            Consistent(t.(postImages := t.postImages + rows, nextImageId := t.nextImageId + |urls|))
  {
    var rows := ImageRows(t.nextImageId, postId, urls, now);
    var t' := t.(postImages := t.postImages + rows, nextImageId := t.nextImageId + |urls|);
    var c := Column(t'.postImages, ImageId);
    var old_ := Column(t.postImages, ImageId);
    forall i | 0 <= i < |c| ensures 1 <= c[i] < t'.nextImageId &&
                                    (i >= |old_| ==> c[i] == t.nextImageId + i - |old_|) {
      if i < |old_| { assert c[i] == old_[i]; }
    }
    forall i, j | 0 <= i < j < |c| ensures c[i] != c[j] {
      if j < |old_| { assert c[i] == old_[i] && c[j] == old_[j]; }
      else if i < |old_| { assert c[i] == old_[i]; }
    }
    forall x | x in t'.postImages ensures x.postId in PostIds(t') {
      if x !in t.postImages {
        var k :| 0 <= k < |t'.postImages| && t'.postImages[k] == x;
        assert k >= |t.postImages|;
      }
    }
  }


  /** `INSERT INTO replies ... RETURNING`: user and comment must exist. */
  function InsertReply(t: Tables, content: string, userId: int, commentId: int, now: Time): (s: Stmt<Reply>)
    ensures userId !in UserIds(t) || commentId !in CommentIds(t) ==> s == Stmt(t, Err(ForeignKeyViolation))
    ensures userId in UserIds(t) && commentId in CommentIds(t) ==>
              var r := Reply(t.nextReplyId, content, userId, commentId, Some(now), Some(now));
              s == Stmt(t.(replies := t.replies + [r], nextReplyId := t.nextReplyId + 1), Ok(r))
    ensures Consistent(t) ==> Consistent(s.tables)
  {
    if userId !in UserIds(t) || commentId !in CommentIds(t) then Stmt(t, Err(ForeignKeyViolation))
    else
      var r := Reply(t.nextReplyId, content, userId, commentId, Some(now), Some(now));
      var t' := t.(replies := t.replies + [r], nextReplyId := t.nextReplyId + 1);
      assert Consistent(t) ==> Consistent(t') by {
        if Consistent(t) {
          AppendSerial(t.replies, ReplyId, t.nextReplyId, r);
        }
      }
      Stmt(t', Ok(r))
  }

  function CommentNotId(id: int): Comment -> bool
  {
    (c: Comment) => c.id != id
  }

  function ReplyNotUnder(commentId: int): Reply -> bool
  {
    (r: Reply) => r.commentId != commentId
  }

  /** `DELETE FROM comments WHERE id = ...`: `replies.comment_id` has
      `onDelete: "cascade"`, so the comment's replies go with it. Reactions
      on them stay: `target_id` has no foreign key. */
  function DeleteCommentWhereId(t: Tables, id: int): (s: Stmt<nat>)
    ensures s.result.Ok?
    ensures s.tables == t.(comments := Filter(t.comments, CommentNotId(id)),
                           replies := Filter(t.replies, ReplyNotUnder(id)))
    ensures Consistent(t) ==> Consistent(s.tables)
  {
    var t' := t.(comments := Filter(t.comments, CommentNotId(id)),
                 replies := Filter(t.replies, ReplyNotUnder(id)));
    assert Consistent(t) ==> Consistent(t') by {
      if Consistent(t) {
        FilterKeepsSerial(t.comments, CommentNotId(id), CommentId, t.nextCommentId);
        FilterKeepsSerial(t.replies, ReplyNotUnder(id), ReplyId, t.nextReplyId);
        forall c | c in t'.comments ensures c.userId in UserIds(t') && c.postId in PostIds(t') {
          FilterMemberOf(t.comments, CommentNotId(id), c);
        }
        forall r | r in t'.replies ensures r.userId in UserIds(t') && r.commentId in CommentIds(t') {
          FilterMemberOf(t.replies, ReplyNotUnder(id), r);
          var c := ColumnWitness(t.comments, CommentId, r.commentId);
          FilterMemberOf(t.comments, CommentNotId(id), c);
          ColumnMember(t'.comments, CommentId, c);
        }
      }
    }
    Stmt(t', Ok(|t.comments| - |t'.comments|))
  }

  /* ---------------- reactions ---------------- */

  /** `INSERT INTO reactions ... RETURNING`: the user must exist; the
      target is not checked. */
  function InsertReaction(t: Tables, rtype: ReactionType, userId: int, targetType: TargetType,
                          targetId: int, now: Time): (s: Stmt<Reaction>)
    ensures userId !in UserIds(t) ==> s == Stmt(t, Err(ForeignKeyViolation))
    ensures userId in UserIds(t) ==>
              var r := Reaction(t.nextReactionId, rtype, userId, targetType, targetId, Some(now));
              s == Stmt(t.(reactions := t.reactions + [r], nextReactionId := t.nextReactionId + 1), Ok(r))
    ensures Consistent(t) ==> Consistent(s.tables)
  {
    if userId !in UserIds(t) then Stmt(t, Err(ForeignKeyViolation))
    else
      var r := Reaction(t.nextReactionId, rtype, userId, targetType, targetId, Some(now));
      var t' := t.(reactions := t.reactions + [r], nextReactionId := t.nextReactionId + 1);
      assert Consistent(t) ==> Consistent(t') by {
        if Consistent(t) {
          AppendSerial(t.reactions, ReactionId, t.nextReactionId, r);
        }
      }
      Stmt(t', Ok(r))
  }

  /** The reactions with id `id` given the type `rtype`. */
  function SetReactionType(rows: seq<Reaction>, id: int, rtype: ReactionType): (r: seq<Reaction>)
    ensures |r| == |rows|
    ensures forall k :: 0 <= k < |rows| ==>
              r[k] == if rows[k].id == id then rows[k].(rtype := rtype) else rows[k]
  {
    seq(|rows|, k requires 0 <= k < |rows| =>
      if rows[k].id == id then rows[k].(rtype := rtype) else rows[k])
  }

  function ReactionHasId(id: int): Reaction -> bool
  {
    (r: Reaction) => r.id == id
  }

  function ReactionNotId(id: int): Reaction -> bool
  {
    (r: Reaction) => r.id != id
  }

  /** `UPDATE reactions SET type = ... WHERE id = ... RETURNING`. */
  function UpdateReactionTypeWhereId(t: Tables, id: int, rtype: ReactionType): (s: Stmt<seq<Reaction>>)
    ensures s.tables == t.(reactions := SetReactionType(t.reactions, id, rtype))
    ensures s.result == Ok(Filter(s.tables.reactions, ReactionHasId(id)))
    ensures Consistent(t) ==> Consistent(s.tables)
  {
    var rows := SetReactionType(t.reactions, id, rtype);
    var t' := t.(reactions := rows);
    assert Column(rows, ReactionId) == Column(t.reactions, ReactionId);
    assert Consistent(t) ==> Consistent(t') by {
      if Consistent(t) {
        forall r | r in rows ensures r.userId in UserIds(t) {
          var k :| 0 <= k < |rows| && rows[k] == r;
          assert t.reactions[k] in t.reactions;
        }
      }
    }
    Stmt(t', Ok(Filter(rows, ReactionHasId(id))))
  }

  /** `DELETE FROM reactions WHERE id = ...`: the number of rows removed. */
  function DeleteReactionWhereId(t: Tables, id: int): (s: Stmt<nat>)
    ensures s.result.Ok? && s.tables == t.(reactions := Filter(t.reactions, ReactionNotId(id)))
    ensures Consistent(t) ==> Consistent(s.tables)
  {
    var t' := t.(reactions := Filter(t.reactions, ReactionNotId(id)));
    assert Consistent(t) ==> Consistent(t') by {
      if Consistent(t) {
        FilterKeepsSerial(t.reactions, ReactionNotId(id), ReactionId, t.nextReactionId);
        forall r | r in t'.reactions ensures r.userId in UserIds(t') {
          FilterMemberOf(t.reactions, ReactionNotId(id), r);
        }
      }
    }
    Stmt(t', Ok(|t.reactions| - |t'.reactions|))
  }
}
