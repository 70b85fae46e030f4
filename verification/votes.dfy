/**
  The vote handler: for one caller and one post there are two states, voted
  and not voted, and a request with direction 1 (vote) or 0 (remove the vote)
  either moves between them or fails without touching the database.
 */
module Votes {
  import opened Common
  import opened Schema

  /** The request schema bounds `dir` to 0 or 1. */
  type Direction = d: int | 0 <= d <= 1

  datatype VoteIn = VoteIn(postId: int, dir: Direction)

  /** The two success messages of the handler. */
  datatype VoteMessage = VoteAdded | VoteDeleted

  /** Whether `caller` has a vote on post `pid`. */
  predicate Voted(db: Db, caller: int, pid: int)
  {
    VoteKey(caller, pid) in db.votes
  }

  /** `vote`: check the post exists, then look up the caller's vote on it. */
  function CastVote(db: Db, caller: int, v: VoteIn): (r: Step<Db, VoteMessage>)
    // every failure leaves the database as it was
    ensures r.out.Fail? ==> r.state == db
    // a missing post is reported whatever the direction
    ensures v.postId !in db.posts ==> r.out == Fail(NotFound)
    // an up-vote succeeds exactly from the not-voted state and ends voted
    ensures v.postId in db.posts && v.dir == 1 ==>
      if Voted(db, caller, v.postId) then r.out == Fail(Conflict)
      else r.out == Ok(201, VoteAdded) && Voted(r.state, caller, v.postId)
    // a removal succeeds exactly from the voted state and ends not voted
    ensures v.postId in db.posts && v.dir == 0 ==>
      if Voted(db, caller, v.postId) then r.out == Ok(201, VoteDeleted) && !Voted(r.state, caller, v.postId)
      else r.out == Fail(NotFound)
    // only the caller's pair on this post can change; the other tables never do
    ensures r.state.votes - {VoteKey(caller, v.postId)} == db.votes - {VoteKey(caller, v.postId)}
    ensures r.state.users == db.users && r.state.posts == db.posts && r.state.nextPostId == db.nextPostId
  {
    if v.postId !in db.posts then
      Step(Fail(NotFound), db)
    else
      var key := VoteKey(caller, v.postId);
      if v.dir == 1 then
        if key !in db.votes then Step(Ok(201, VoteAdded), db.(votes := db.votes + {key}))
        else Step(Fail(Conflict), db)
      else
        if key !in db.votes then Step(Fail(NotFound), db)
        else Step(Ok(201, VoteDeleted), db.(votes := db.votes - {key}))
  }

  /** A vote followed by its removal restores the vote table. */
  lemma VoteThenRemoveRestores(db: Db, caller: int, pid: int)
    requires pid in db.posts && !Voted(db, caller, pid)
    ensures var up := CastVote(db, caller, VoteIn(pid, 1));
      var down := CastVote(up.state, caller, VoteIn(pid, 0));
      up.out.Ok? && down.out.Ok? && down.state == db
  {
    var up := CastVote(db, caller, VoteIn(pid, 1));
    assert up.state.votes - {VoteKey(caller, pid)} == db.votes;
  }

  /** A removal followed by a fresh vote restores the vote table. */
  lemma RemoveThenVoteRestores(db: Db, caller: int, pid: int)
    requires pid in db.posts && Voted(db, caller, pid)
    ensures var down := CastVote(db, caller, VoteIn(pid, 0));
      var up := CastVote(down.state, caller, VoteIn(pid, 1));
      down.out.Ok? && up.out.Ok? && up.state == db
  {
    var down := CastVote(db, caller, VoteIn(pid, 0));
    assert down.state.votes + {VoteKey(caller, pid)} == db.votes;
  }

  /** Up-votes are not idempotent: the second of two identical up-votes is a
      conflict, and the second of two removals finds nothing to remove. */
  lemma RepeatedRequestsFail(db: Db, caller: int, pid: int)
    requires pid in db.posts
    ensures !Voted(db, caller, pid) ==>
      CastVote(CastVote(db, caller, VoteIn(pid, 1)).state, caller, VoteIn(pid, 1)).out == Fail(Conflict)
    ensures Voted(db, caller, pid) ==>
      CastVote(CastVote(db, caller, VoteIn(pid, 0)).state, caller, VoteIn(pid, 0)).out == Fail(NotFound)
  {
  }

  /** A successful vote moves the voted post's count by one and leaves every
      other post's count alone. */
  lemma CastVoteCounts(db: Db, caller: int, v: VoteIn, pid: int)
    ensures var r := CastVote(db, caller, v);
      VoteCount(r.state, pid) ==
        if r.out.Ok? && pid == v.postId then
          (if v.dir == 1 then VoteCount(db, pid) + 1 else VoteCount(db, pid) - 1)
        else VoteCount(db, pid)
  {
    var r := CastVote(db, caller, v);
    var key := VoteKey(caller, v.postId);
    if r.out.Ok? {
      if v.dir == 1 {
        VoteCountAdd(db.votes, key, pid);
      } else {
        VoteCountRemove(db.votes, key, pid);
      }
    }
  }

  /** A caller that exists keeps the database valid; in particular there is
      still at most one vote per pair and none on a missing post. */
  lemma CastVoteKeepsValid(db: Db, caller: int, v: VoteIn)
    requires Valid(db) && caller in db.users.rows
    ensures Valid(CastVote(db, caller, v).state)
  {
  }
}
