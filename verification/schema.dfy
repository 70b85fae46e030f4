/**
  The database of the final application as three tables: `users`, `posts`
  and `votes`. The declarations fix the invariants every handler must keep:
  post ids are primary keys, every post has an existing owner, a vote is
  identified by its `(user_id, post_id)` pair and references an existing user
  and post, and e-mails are unique. Foreign keys declared `ondelete="cascade"`
  turn deleting a user or a post into the deletion of everything that
  references it.
 */
module Schema {
  import opened Common
  import Users

  datatype Post = Post(
    id: int,
    title: string,
    content: string,
    published: bool,
    createdAt: Timestamp,
    updatedAt: Timestamp,
    userId: int)

  /** The composite primary key of `votes`; the table is a set of these. */
  datatype VoteKey = VoteKey(userId: int, postId: int)

  datatype Db = Db(users: Users.UserTable, posts: map<int, Post>, nextPostId: int, votes: set<VoteKey>)

  /** `posts.id` is the primary key, issued by the table's sequence. */
  predicate PostsKeyed(db: Db)
  {
    forall k :: k in db.posts ==> db.posts[k].id == k && k < db.nextPostId
  }

  /** `posts.user_id` is a non-null foreign key into `users`. */
  predicate OwnersExist(db: Db)
  {
    forall k :: k in db.posts ==> db.posts[k].userId in db.users.rows
  }

  /** Both halves of a vote's key are foreign keys. */
  predicate VotesReferenceRows(db: Db)
  {
    forall v :: v in db.votes ==> v.userId in db.users.rows && v.postId in db.posts
  }

  predicate Valid(db: Db)
  {
    && Users.Valid(db.users)
    && PostsKeyed(db)
    && OwnersExist(db)
    && VotesReferenceRows(db)
  }

  /** The votes cast on post `pid`. */
  function VotesOn(votes: set<VoteKey>, pid: int): set<VoteKey>
  {
    set v | v in votes && v.postId == pid
  }

  /** `count(votes.post_id)` over the outer join grouped by post: zero for a
      post nobody voted on. */
  function VoteCount(db: Db, pid: int): nat
  {
    |VotesOn(db.votes, pid)|
  }

  /** Adding one vote on `pid` raises that post's count by one and no other. */
  lemma VoteCountAdd(votes: set<VoteKey>, key: VoteKey, pid: int)
    requires key !in votes
    ensures |VotesOn(votes + {key}, pid)| == |VotesOn(votes, pid)| + (if key.postId == pid then 1 else 0)
  {
    if key.postId == pid {
      assert VotesOn(votes + {key}, pid) == VotesOn(votes, pid) + {key};
    } else {
      assert VotesOn(votes + {key}, pid) == VotesOn(votes, pid);
    }
  }

  /** Removing one vote on `pid` lowers that post's count by one and no other. */
  lemma VoteCountRemove(votes: set<VoteKey>, key: VoteKey, pid: int)
    requires key in votes
    ensures |VotesOn(votes - {key}, pid)| == |VotesOn(votes, pid)| - (if key.postId == pid then 1 else 0)
  {
    if key.postId == pid {
      assert VotesOn(votes - {key}, pid) == VotesOn(votes, pid) - {key};
    } else {
      assert VotesOn(votes - {key}, pid) == VotesOn(votes, pid);
    }
  }

  /** Deleting the row of post `pid`; the cascade on `votes.post_id` removes
      every vote on it. */
  function DeletePostCascade(db: Db, pid: int): (r: Db)
    ensures pid !in r.posts
    ensures forall k :: k in r.posts <==> k in db.posts && k != pid
    ensures forall k :: k in r.posts ==> r.posts[k] == db.posts[k]
    ensures forall v :: v in r.votes <==> v in db.votes && v.postId != pid
    ensures r.users == db.users && r.nextPostId == db.nextPostId
  {
    db.(posts := db.posts - {pid}, votes := set v | v in db.votes && v.postId != pid)
  }

  /** After the cascade no vote is left on the deleted post, and the
      invariants still hold. */
  lemma DeletePostCascadeKeepsValid(db: Db, pid: int)
    requires Valid(db)
    ensures Valid(DeletePostCascade(db, pid))
    ensures VoteCount(DeletePostCascade(db, pid), pid) == 0
  {
    var r := DeletePostCascade(db, pid);
    assert VotesOn(r.votes, pid) == {};
  }

  /** Deleting the row of user `uid`; the cascade on `posts.user_id` removes
      the user's posts, and the cascades on `votes` remove every vote cast by
      the user or cast on one of those posts. */
  function DeleteUserCascade(db: Db, uid: int): (r: Db)
    ensures uid !in r.users.rows
    ensures forall k :: k in r.users.rows <==> k in db.users.rows && k != uid
    ensures forall k :: k in r.users.rows ==> r.users.rows[k] == db.users.rows[k]
    ensures r.users.nextId == db.users.nextId && r.nextPostId == db.nextPostId
    ensures forall k :: k in r.posts <==> k in db.posts && db.posts[k].userId != uid
    ensures forall k :: k in r.posts ==> r.posts[k] == db.posts[k]
    ensures forall v :: v in r.votes <==>
      v in db.votes && v.userId != uid && !(v.postId in db.posts && db.posts[v.postId].userId == uid)
  {
    var owned := set k | k in db.posts && db.posts[k].userId == uid;
    Db(
      db.users.(rows := db.users.rows - {uid}),
      map k | k in db.posts && k !in owned :: db.posts[k],
      db.nextPostId,
      set v | v in db.votes && v.userId != uid && v.postId !in owned)
  }

  /** The user cascade leaves no dangling reference: no post owned by the
      deleted user and no vote by the user, and the invariants still hold. */
  lemma DeleteUserCascadeKeepsValid(db: Db, uid: int)
    requires Valid(db)
    ensures Valid(DeleteUserCascade(db, uid))
    ensures forall k :: k in DeleteUserCascade(db, uid).posts ==> DeleteUserCascade(db, uid).posts[k].userId != uid
    ensures forall v :: v in DeleteUserCascade(db, uid).votes ==> v.userId != uid
  {
    var r := DeleteUserCascade(db, uid);
    forall a, b | a in r.users.rows && b in r.users.rows && r.users.rows[a].email == r.users.rows[b].email
      ensures a == b
    {
      assert db.users.rows[a].email == db.users.rows[b].email;
    }
    forall v | v in r.votes
      ensures v.userId in r.users.rows && v.postId in r.posts
    {
      assert v.postId in db.posts;
    }
  }

  /** Registering a user (the users table alone changes) keeps the database valid. */
  lemma RegisterKeepsValid(db: Db, input: Users.UserIn, hash: string -> string, now: Timestamp)
    requires Valid(db)
    ensures Valid(db.(users := Users.Register(db.users, input, hash, now).state))
  {
    Users.RegisterKeepsValid(db.users, input, hash, now);
  }
}
