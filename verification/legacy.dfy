/**
  The earlier ORM version of the API: posts carry no owner and no
  `updated_at`, there are no votes, and no handler checks who is calling.
  Users are stored exactly as in the final version.
 */
module Legacy {
  import opened Common
  import Users

  datatype Post = Post(id: int, title: string, content: string, published: bool, createdAt: Timestamp)

  datatype PostIn = PostIn(title: string, content: string, published: BodyFlag)

  datatype Db = Db(posts: map<int, Post>, nextPostId: int, users: Users.UserTable)

  predicate Valid(db: Db)
  {
    && (forall k :: k in db.posts ==> db.posts[k].id == k && k < db.nextPostId)
    && Users.Valid(db.users)
  }

  /** `get_post`: 404 for a missing id, otherwise the stored post. */
  function GetPost(db: Db, id: int): (r: Outcome<Post>)
    ensures r.Fail? <==> id !in db.posts
    ensures r.Fail? ==> r.error == NotFound
    ensures r.Ok? ==> r.status == 200 && r.value == db.posts[id]
  {
    if id in db.posts then Ok(200, db.posts[id]) else Fail(NotFound)
  }

  /** `create_post`: one new post built from the body under a fresh id;
      `published` is true unless the body sends false, since a null flag is
      left out of the INSERT and takes the column's server default. */
  function CreatePost(db: Db, input: PostIn, now: Timestamp): (r: Step<Db, Post>)
    ensures r.out.Ok? && r.out.status == 201
    ensures var p := r.out.value;
      && p.title == input.title && p.content == input.content
      && p.published == (input.published != Present(Some(false)))
      && r.state.posts == db.posts[p.id := p]
      && (Valid(db) ==> p.id !in db.posts && Valid(r.state))
    ensures r.state.users == db.users
  {
    var p := Post(db.nextPostId, input.title, input.content, InsertedFlag(input.published), now);
    Step(Ok(201, p), db.(posts := db.posts[p.id := p], nextPostId := db.nextPostId + 1))
  }

  /** `delete_post`: 404 for a missing id; otherwise only that post goes,
      and the success is also answered with 404. */
  function DeletePost(db: Db, id: int): (r: Step<Db, ()>)
    ensures id !in db.posts ==> r == Step(Fail(NotFound), db)
    ensures id in db.posts ==>
      && r.out == Ok(404, ())
      && (forall k :: k in r.state.posts <==> k in db.posts && k != id)
      && (forall k :: k in r.state.posts ==> r.state.posts[k] == db.posts[k])
      && r.state.users == db.users && r.state.nextPostId == db.nextPostId
    ensures Valid(db) ==> Valid(r.state)
  {
    if id !in db.posts then Step(Fail(NotFound), db)
    else Step(Ok(404, ()), db.(posts := db.posts - {id}))
  }

  /** `update_post`: 404 for a missing id; otherwise title, content and
      published are overwritten, whoever asks, and nothing else changes
      (a null `published` is refused by the column with a 500). */
  function UpdatePost(db: Db, id: int, input: PostIn): (r: Step<Db, Post>)
    ensures id !in db.posts ==> r == Step(Fail(NotFound), db)
    ensures id in db.posts && input.published == Present(None) ==> r == Step(Fail(InternalError), db)
    ensures id in db.posts && input.published != Present(None) ==>
      && r.out.Ok? && r.out.status == 200
      && var p := r.out.value;
      && p.id == db.posts[id].id && p.createdAt == db.posts[id].createdAt
      && p.title == input.title && p.content == input.content
      && p.published == (input.published != Present(Some(false)))
      && r.state.posts == db.posts[id := p]
      && r.state.users == db.users
    ensures Valid(db) ==> Valid(r.state)
  {
    if id !in db.posts then Step(Fail(NotFound), db)
    else
      match FlagColumn(input.published)
      case None => Step(Fail(InternalError), db)
      case Some(b) =>
        var p := db.posts[id].(title := input.title, content := input.content, published := b);
        Step(Ok(200, p), db.(posts := db.posts[id := p]))
  }

  /** `create_user`: the same registration rule as the final version. */
  function CreateUser(db: Db, input: Users.UserIn, hash: string -> string, now: Timestamp): (r: Step<Db, Users.User>)
    ensures Users.EmailTaken(db.users, input.email) ==> r == Step(Fail(UnprocessableEntity), db)
    ensures !Users.EmailTaken(db.users, input.email) ==>
      && r.out.Ok? && r.out.status == 201
      && r.out.value.email == input.email
      && r.out.value.password == hash(input.password)
      && r.state.users.rows == db.users.rows[r.out.value.id := r.out.value]
    ensures r.state.posts == db.posts
  {
    var s := Users.Register(db.users, input, hash, now);
    Step(s.out, db.(users := s.state))
  }

  /** `get_user`: 404 for a missing id, otherwise that user. */
  function GetUser(db: Db, id: int): (r: Outcome<Users.User>)
    ensures r.Fail? <==> id !in db.users.rows
    ensures r.Fail? ==> r.error == NotFound
    ensures r.Ok? ==> r.status == 200 && r.value == db.users.rows[id]
  {
    Users.GetUser(db.users, id)
  }

  /** Registration keeps the e-mails unique. */
  lemma CreateUserKeepsValid(db: Db, input: Users.UserIn, hash: string -> string, now: Timestamp)
    requires Valid(db)
    ensures Valid(CreateUser(db, input, hash, now).state)
  {
    Users.RegisterKeepsValid(db.users, input, hash, now);
  }

  /** A created post reads back under the id the answer carries, and
      deleting it removes exactly that post again. */
  lemma CreateThenGet(db: Db, input: PostIn, now: Timestamp)
    requires Valid(db)
    ensures var c := CreatePost(db, input, now);
      && GetPost(c.state, c.out.value.id) == Ok(200, c.out.value)
      && DeletePost(c.state, c.out.value.id).state.posts == db.posts
  {
    var c := CreatePost(db, input, now);
    assert DeletePost(c.state, c.out.value.id).state.posts == db.posts;
  }

  /** An updated post reads back as the update answered it (a refused update
      leaves the stored post as it was), and a second deletion of the same id
      finds nothing. */
  lemma UpdateThenGet(db: Db, id: int, input: PostIn)
    requires id in db.posts
    ensures var u := UpdatePost(db, id, input);
      GetPost(u.state, id) == (if u.out.Ok? then Ok(200, u.out.value) else GetPost(db, id))
    ensures DeletePost(DeletePost(db, id).state, id).out == Fail(NotFound)
  {
  }
}
