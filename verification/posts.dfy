/**
  The post handlers of the final application: a listing with vote counts,
  lookup, creation by the authenticated caller, and update and deletion
  guarded first by existence and then by ownership. The caller's id is a
  parameter; resolving it from the bearer token is not part of this model.
 */
module Posts {
  import opened Common
  import opened Schema
  import Search

  /** The request body; `published` may be left out or null. */
  datatype PostIn = PostIn(title: string, content: string, published: BodyFlag)

  /** A post together with its vote count, as listed. */
  datatype PostVote = PostVote(post: Post, votes: nat)

  /** The title test the listing applies, as the handler builds it: the
      unescaped `LIKE '%' || search || '%'`. */
  function TitleFilter(search: string): string -> bool
  {
    title => Search.ContainsAsWritten(search, title)
  }

  /** The title test the listing is meant to apply: plain substring search. */
  function IntendedTitleFilter(search: string): string -> bool
  {
    title => Search.Contains(search, title)
  }

  /** The grouped outer-join rows whose title passes `keep`, in scan order. */
  function Rows(db: Db, order: seq<int>, keep: string -> bool): seq<PostVote>
    requires forall i :: 0 <= i < |order| ==> order[i] in db.posts
  {
    if |order| == 0 then []
    else
      var k := order[0];
      var rest := Rows(db, order[1..], keep);
      if keep(db.posts[k].title) then [PostVote(db.posts[k], VoteCount(db, k))] + rest
      else rest
  }

  /** Every listed row is a stored post whose title passes the filter,
      carrying that post's vote count. */
  lemma {:induction false} RowsSound(db: Db, order: seq<int>, keep: string -> bool)
    requires forall i :: 0 <= i < |order| ==> order[i] in db.posts
    ensures forall e :: e in Rows(db, order, keep) ==>
      && keep(e.post.title)
      && exists k :: k in order && db.posts[k] == e.post && e.votes == VoteCount(db, k)
    decreases |order|
  {
    if |order| > 0 {
      RowsSound(db, order[1..], keep);
      forall e | e in Rows(db, order, keep)
        ensures exists k :: k in order && db.posts[k] == e.post && e.votes == VoteCount(db, k)
      {
        if e !in Rows(db, order[1..], keep) {
          assert order[0] in order && e.post == db.posts[order[0]];
        } else {
          var k :| k in order[1..] && db.posts[k] == e.post && e.votes == VoteCount(db, k);
          assert k in order;
        }
      }
    }
  }

  /** The number of scanned posts whose title passes the filter. */
  function MatchCount(db: Db, order: seq<int>, keep: string -> bool): nat
    requires forall i :: 0 <= i < |order| ==> order[i] in db.posts
  {
    if |order| == 0 then 0
    else (if keep(db.posts[order[0]].title) then 1 else 0) + MatchCount(db, order[1..], keep)
  }

  /** Every scanned post whose title passes the filter is listed, and there
      are exactly as many rows as such posts. */
  lemma {:induction false} RowsComplete(db: Db, order: seq<int>, keep: string -> bool, k: int)
    requires forall i :: 0 <= i < |order| ==> order[i] in db.posts
    requires k in order && keep(db.posts[k].title)
    ensures PostVote(db.posts[k], VoteCount(db, k)) in Rows(db, order, keep)
    ensures |Rows(db, order, keep)| == MatchCount(db, order, keep)
    decreases |order|
  {
    if order[0] != k {
      assert k in order[1..];
      RowsComplete(db, order[1..], keep, k);
    } else if k in order[1..] {
      RowsComplete(db, order[1..], keep, k);
    } else {
      RowsLength(db, order[1..], keep);
    }
  }

  lemma {:induction false} RowsLength(db: Db, order: seq<int>, keep: string -> bool)
    requires forall i :: 0 <= i < |order| ==> order[i] in db.posts
    ensures |Rows(db, order, keep)| == MatchCount(db, order, keep) <= |order|
    decreases |order|
  {
    if |order| > 0 {
      RowsLength(db, order[1..], keep);
    }
  }

  /** Two filters that agree on every scanned title list the same rows. */
  lemma {:induction false} RowsRespectFilter(db: Db, order: seq<int>, f: string -> bool, g: string -> bool)
    requires forall i :: 0 <= i < |order| ==> order[i] in db.posts
    requires forall i :: 0 <= i < |order| ==> f(db.posts[order[i]].title) == g(db.posts[order[i]].title)
    ensures Rows(db, order, f) == Rows(db, order, g)
    decreases |order|
  {
    if |order| > 0 {
      RowsRespectFilter(db, order[1..], f, g);
    }
  }

  /** With the empty search (pattern `%%`) every post of the scan is listed. */
  lemma {:induction false} EmptySearchListsAll(db: Db, order: seq<int>)
    requires forall i :: 0 <= i < |order| ==> order[i] in db.posts
    ensures Rows(db, order, TitleFilter("")) ==
      seq(|order|, i requires 0 <= i < |order| => PostVote(db.posts[order[i]], VoteCount(db, order[i])))
    decreases |order|
  {
    if |order| > 0 {
      Search.EmptySearchMatchesAll(db.posts[order[0]].title);
      EmptySearchListsAll(db, order[1..]);
    }
  }

  /** `LIMIT limit OFFSET offset`: skip `offset` rows, keep at most `limit`. */
  function Page<T>(rows: seq<T>, limit: nat, offset: nat): (r: seq<T>)
    ensures |r| == if offset >= |rows| then 0 else (if limit <= |rows| - offset then limit else |rows| - offset)
    ensures forall i :: 0 <= i < |r| ==> r[i] == rows[offset + i]
  {
    if offset >= |rows| then []
    else if limit <= |rows| - offset then rows[offset..offset + limit]
    else rows[offset..]
  }

  /** Consecutive pages tile the listing: a page of `a + b` rows is a page
      of `a` rows followed by the next page of `b` rows. */
  lemma PagesConcatenate<T>(rows: seq<T>, a: nat, b: nat, offset: nat)
    ensures Page(rows, a, offset) + Page(rows, b, offset + a) == Page(rows, a + b, offset)
  {
    var l := Page(rows, a, offset) + Page(rows, b, offset + a);
    var r := Page(rows, a + b, offset);
    assert |l| == |r|;
    forall i | 0 <= i < |l|
      ensures l[i] == r[i]
    {
      if i >= |Page(rows, a, offset)| {
        assert l[i] == Page(rows, b, offset + a)[i - |Page(rows, a, offset)|];
      }
    }
  }

  /** `get_all_posts` (defaults: limit 10, offset 0, empty search), with
      the title filter the handler actually sends to the database. */
  function ListPosts(db: Db, order: seq<int>, limit: nat, offset: nat, search: string): (r: Outcome<seq<PostVote>>)
    requires IsScan(order, db.posts.Keys)
    ensures r.Ok? && r.status == 200
    ensures |r.value| <= limit
    ensures forall e :: e in r.value ==>
      && Search.ContainsAsWritten(search, e.post.title)
      && exists k :: k in db.posts && db.posts[k] == e.post && e.votes == VoteCount(db, k)
  {
    var rows := Rows(db, order, TitleFilter(search));
    RowsSound(db, order, TitleFilter(search));
    var page := Page(rows, limit, offset);
    assert forall e :: e in page ==> e in rows;
    Ok(200, page)
  }

  /** The listing is exactly the filtered rows from position `offset` on,
      cut to `limit`; and with the empty search, no offset and a large
      enough limit, every post appears, those without votes with count 0. */
  lemma ListPostsPaginates(db: Db, order: seq<int>, limit: nat, offset: nat, search: string)
    requires IsScan(order, db.posts.Keys)
    ensures var r := ListPosts(db, order, limit, offset, search).value;
      var rows := Rows(db, order, TitleFilter(search));
      && (forall i :: 0 <= i < |r| ==> r[i] == rows[offset + i])
      && |r| == if offset >= |rows| then 0 else (if limit <= |rows| - offset then limit else |rows| - offset)
    ensures search == "" && offset == 0 && limit >= |db.posts| ==>
      forall k :: k in db.posts ==>
        PostVote(db.posts[k], VoteCount(db, k)) in ListPosts(db, order, limit, offset, search).value
  {
    if search == "" && offset == 0 && limit >= |db.posts| {
      ScanLength(order, db.posts.Keys);
      RowsLength(db, order, TitleFilter(search));
      var rows := Rows(db, order, TitleFilter(search));
      assert Page(rows, limit, offset) == rows;
      forall k | k in db.posts
        ensures PostVote(db.posts[k], VoteCount(db, k)) in rows
      {
        Search.EmptySearchMatchesAll(db.posts[k].title);
        RowsComplete(db, order, TitleFilter(search), k);
      }
    }
  }

  /** The listing as evidently intended: the same query with a plain
      substring test on the title. */
  function IntendedListPosts(db: Db, order: seq<int>, limit: nat, offset: nat, search: string): (r: Outcome<seq<PostVote>>)
    requires IsScan(order, db.posts.Keys)
    ensures r.Ok? && r.status == 200
    ensures |r.value| <= limit
    ensures forall e :: e in r.value ==>
      && Search.Contains(search, e.post.title)
      && exists k :: k in db.posts && db.posts[k] == e.post && e.votes == VoteCount(db, k)
  {
    var rows := Rows(db, order, IntendedTitleFilter(search));
    RowsSound(db, order, IntendedTitleFilter(search));
    var page := Page(rows, limit, offset);
    assert forall e :: e in page ==> e in rows;
    Ok(200, page)
  }

  /** For a search free of `%`, `_` and `\` the listing as written is the
      intended one, so every listed title contains the search. */
  lemma ListingAgreesOnLiterals(db: Db, order: seq<int>, limit: nat, offset: nat, search: string)
    requires IsScan(order, db.posts.Keys) && Search.Literal(search)
    ensures ListPosts(db, order, limit, offset, search) == IntendedListPosts(db, order, limit, offset, search)
    ensures forall e :: e in ListPosts(db, order, limit, offset, search).value ==> Search.Contains(search, e.post.title)
  {
    forall i | 0 <= i < |order|
      ensures TitleFilter(search)(db.posts[order[i]].title) == IntendedTitleFilter(search)(db.posts[order[i]].title)
    {
      Search.AsWrittenAgreesOnLiterals(search, db.posts[order[i]].title);
    }
    RowsRespectFilter(db, order, TitleFilter(search), IntendedTitleFilter(search));
  }

  /** `get_post`: 404 for a missing id, otherwise the post with its count. */
  function GetPost(db: Db, id: int): (r: Outcome<PostVote>)
    ensures r.Fail? <==> id !in db.posts
    ensures r.Fail? ==> r.error == NotFound
    ensures r.Ok? ==> r.status == 200 && r.value.post == db.posts[id] && r.value.votes == VoteCount(db, id)
  {
    if id !in db.posts then Fail(NotFound)
    else Ok(200, PostVote(db.posts[id], VoteCount(db, id)))
  }

  /** `create_post`: the caller becomes the owner, the fields come from the
      body, `published` is true unless the body sends false (a left-out flag
      takes the schema default, a null one the column's server default), and
      the id is the sequence's next. */
  function CreatePost(db: Db, caller: int, input: PostIn, now: Timestamp): (r: Step<Db, Post>)
    ensures r.out.Ok? && r.out.status == 201
    ensures var p := r.out.value;
      && p.userId == caller
      && p.title == input.title && p.content == input.content
      && p.published == (input.published != Present(Some(false)))
      && r.state.posts == db.posts[p.id := p]
      && (PostsKeyed(db) ==> p.id !in db.posts)
    ensures r.state.users == db.users && r.state.votes == db.votes
  {
    var p := Post(db.nextPostId, input.title, input.content, InsertedFlag(input.published), now, now, caller);
    Step(Ok(201, p), db.(posts := db.posts[p.id := p], nextPostId := db.nextPostId + 1))
  }

  /** A new post has no votes yet, and an existing caller keeps the database valid. */
  lemma CreatePostKeepsValid(db: Db, caller: int, input: PostIn, now: Timestamp)
    requires Valid(db) && caller in db.users.rows
    ensures var r := CreatePost(db, caller, input, now);
      Valid(r.state) && GetPost(r.state, r.out.value.id) == Ok(200, PostVote(r.out.value, 0))
  {
    var r := CreatePost(db, caller, input, now);
    assert VotesOn(r.state.votes, r.out.value.id) == {};
  }

  /** The guard shared by update and delete: existence first, then ownership. */
  function Guard(db: Db, caller: int, id: int): (r: Option<HttpError>)
    ensures r == None <==> id in db.posts && db.posts[id].userId == caller
    ensures r == Some(NotFound) <==> id !in db.posts
    ensures r == Some(Forbidden) <==> id in db.posts && db.posts[id].userId != caller
  {
    if id !in db.posts then Some(NotFound)
    else if db.posts[id].userId != caller then Some(Forbidden)
    else None
  }

  /** `delete_post`: the owner's request removes the post and, by cascade,
      its votes, and is answered with status 404 rather than the route's
      declared 204. */
  function DeletePost(db: Db, caller: int, id: int): (r: Step<Db, ()>)
    ensures id !in db.posts ==> r == Step(Fail(NotFound), db)
    ensures id in db.posts && db.posts[id].userId != caller ==> r == Step(Fail(Forbidden), db)
    ensures id in db.posts && db.posts[id].userId == caller ==>
      && r.out == Ok(404, ())
      && (forall k :: k in r.state.posts <==> k in db.posts && k != id)
      && (forall k :: k in r.state.posts ==> r.state.posts[k] == db.posts[k])
      && (forall v :: v in r.state.votes <==> v in db.votes && v.postId != id)
      && r.state.users == db.users && r.state.nextPostId == db.nextPostId
  {
    match Guard(db, caller, id)
    case Some(e) => Step(Fail(e), db)
    case None => Step(Ok(404, ()), DeletePostCascade(db, id))
  }

  /** `update_post`: the owner's request overwrites title, content and
      published and stamps `updated_at`; id, owner, creation time, votes and
      all other posts are untouched. A null `published` passes both checks
      and then breaks the NOT NULL constraint: 500, and nothing changes. */
  function UpdatePost(db: Db, caller: int, id: int, input: PostIn, now: Timestamp): (r: Step<Db, Post>)
    ensures id !in db.posts ==> r == Step(Fail(NotFound), db)
    ensures id in db.posts && db.posts[id].userId != caller ==> r == Step(Fail(Forbidden), db)
    ensures id in db.posts && db.posts[id].userId == caller && input.published == Present(None) ==>
      r == Step(Fail(InternalError), db)
    ensures id in db.posts && db.posts[id].userId == caller && input.published != Present(None) ==>
      && r.out.Ok? && r.out.status == 200
      && var old_ := db.posts[id];
      var p := r.out.value;
      && p.id == old_.id && p.userId == old_.userId && p.createdAt == old_.createdAt
      && p.title == input.title && p.content == input.content
      && p.published == (input.published != Present(Some(false)))
      && p.updatedAt == now
      && r.state.posts == db.posts[id := p]
      && r.state.users == db.users && r.state.votes == db.votes
  {
    match Guard(db, caller, id)
    case Some(e) => Step(Fail(e), db)
    case None =>
      match FlagColumn(input.published)
      case None => Step(Fail(InternalError), db)
      case Some(b) =>
        var p := db.posts[id].(title := input.title, content := input.content, published := b, updatedAt := now);
        Step(Ok(200, p), db.(posts := db.posts[id := p]))
  }

  /** Update and delete keep the database valid. */
  lemma MutationsKeepValid(db: Db, caller: int, id: int, input: PostIn, now: Timestamp)
    requires Valid(db)
    ensures Valid(UpdatePost(db, caller, id, input, now).state)
    ensures Valid(DeletePost(db, caller, id).state)
  {
    if Guard(db, caller, id) == None {
      DeletePostCascadeKeepsValid(db, id);
    }
  }

  /** Ownership: a post created by `a` can be changed or removed by `a` and
      by nobody else. */
  lemma OnlyOwnerMutates(db: Db, a: int, b: int, input: PostIn, edit: PostIn, now: Timestamp)
    requires a != b
    ensures var c := CreatePost(db, a, input, now);
      var id := c.out.value.id;
      && UpdatePost(c.state, b, id, edit, now).out == Fail(Forbidden)
      && DeletePost(c.state, b, id).out == Fail(Forbidden)
      && (UpdatePost(c.state, a, id, edit, now).out.Ok? <==> edit.published != Present(None))
      && DeletePost(c.state, a, id).out.Ok?
  {
  }
}
