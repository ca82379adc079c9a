/** The state-changing side of the follows service: follow and unfollow
    check their cases in the source's order, then write one edge and two
    counters, and a follow notifies the followed user's sockets. */
module FollowsService {
  import opened Common
  import opened UserDirectory
  import opened FollowGraph
  import opened Store
  import opened Gateway

  const UserNotFound := "User not found"
  const CannotFollowSelf := "You cannot follow yourself"
  const AlreadyFollowing := "Already following this user"
  const Followed := "Successfully followed user"
  const NotFollowing := "You are not following this user"
  const Unfollowed := "Successfully unfollowed user"

  /** `followUser(followerId, followingUsername)`. The username must resolve
      to a live user, checked before the self-follow refusal; an existing
      edge is reported and left alone; otherwise exactly one edge is added,
      the two counters rise by one, and a live follower's profile is pushed
      to the followed user's room. */
  method FollowUser(db: Database, gw: WebSocketGateway, followerId: UserId, followingUsername: string, now: int)
    returns (r: Result<string>)
    requires db.Valid()
    modifies db`follows, db`users, gw`sent
    ensures db.Valid()
    ensures var target := FindByUsername(old(db.users), followingUsername);
            target.None? ==> r == Failure(NotFound(UserNotFound))
    ensures var target := FindByUsername(old(db.users), followingUsername);
            target.Some? && target.value.id == followerId ==> r == Failure(BadRequest(CannotFollowSelf))
    ensures var target := FindByUsername(old(db.users), followingUsername);
            target.Some? && target.value.id != followerId && HasEdge(old(db.follows), followerId, target.value.id) ==>
              r == Success(AlreadyFollowing)
    ensures r != Success(Followed) ==>
              db.follows == old(db.follows) && db.users == old(db.users) && gw.sent == old(gw.sent)
    ensures var target := FindByUsername(old(db.users), followingUsername);
            r == Success(Followed) <==>
              target.Some? && target.value.id != followerId && !HasEdge(old(db.follows), followerId, target.value.id)
    ensures var target := FindByUsername(old(db.users), followingUsername);
            r == Success(Followed) ==>
              db.follows == old(db.follows) + [Follow(followerId, target.value.id, now)] &&
              db.users == CountersAfterFollow(old(db.users), followerId, target.value.id) &&
              IsFollowing(db.follows, followerId, target.value.id)
    ensures var target := FindByUsername(old(db.users), followingUsername);
            var follower := FindById(db.users, followerId);
            r == Success(Followed) ==>
              gw.sent == old(gw.sent) +
                (if follower.Some?
                 then [Emission(RoomOf(target.value.id), Message("new-follower", NewFollower(
                         FollowerCard(follower.value.username, follower.value.displayName, follower.value.profileImage))))]
                 else [])
  {
    var target := FindByUsername(db.users, followingUsername);
    if target.None? {
      return Failure(NotFound(UserNotFound));
    }
    var followingId := target.value.id;
    if followerId == followingId {
      return Failure(BadRequest(CannotFollowSelf));
    }
    if IsFollowing(db.follows, followerId, followingId) {
      return Success(AlreadyFollowing);
    }
    var edge := Follow(followerId, followingId, now);
    FollowKeepsEdgesUnique(db.follows, edge);
    FollowKeepsUserInvariants(db.users, db.follows, db.posts, edge);
    db.follows := db.follows + [edge];
    db.users := CountersAfterFollow(db.users, followerId, followingId);
    assert db.follows[|db.follows| - 1] == edge;
    var follower := FindById(db.users, followerId);
    if follower.Some? {
      gw.NotifyFollow(followingId, FollowerCard(follower.value.username, follower.value.displayName, follower.value.profileImage));
    }
    return Success(Followed);
  }

  /** `unfollowUser(followerId, followingUsername)`. The username must
      resolve to a live user (there is no self check: a self-unfollow finds
      no edge); without an edge nothing changes; otherwise the edge is
      removed and the two counters drop by one. */
  method UnfollowUser(db: Database, followerId: UserId, followingUsername: string) returns (r: Result<string>)
    requires db.Valid()
    modifies db`follows, db`users
    ensures db.Valid()
    ensures var target := FindByUsername(old(db.users), followingUsername);
            target.None? ==> r == Failure(NotFound(UserNotFound))
    ensures var target := FindByUsername(old(db.users), followingUsername);
            target.Some? && !HasEdge(old(db.follows), followerId, target.value.id) ==> r == Success(NotFollowing)
    ensures r != Success(Unfollowed) ==> db.follows == old(db.follows) && db.users == old(db.users)
    ensures var target := FindByUsername(old(db.users), followingUsername);
            r == Success(Unfollowed) <==> target.Some? && HasEdge(old(db.follows), followerId, target.value.id)
    ensures var target := FindByUsername(old(db.users), followingUsername);
            r == Success(Unfollowed) ==>
              db.follows == RemoveAt(old(db.follows), FindEdge(old(db.follows), followerId, target.value.id).value) &&
              |db.follows| == |old(db.follows)| - 1 &&
              db.users == CountersAfterUnfollow(old(db.users), followerId, target.value.id) &&
              !IsFollowing(db.follows, followerId, target.value.id)
  {
    var target := FindByUsername(db.users, followingUsername);
    if target.None? {
      return Failure(NotFound(UserNotFound));
    }
    var followingId := target.value.id;
    var found := FindEdge(db.follows, followerId, followingId);
    if found.None? {
      return Success(NotFollowing);
    }
    var k := found.value;
    RemoveAtDropsEdge(db.follows, k);
    UnfollowKeepsUserInvariants(db.users, db.follows, db.posts, k);
    db.follows := RemoveAt(db.follows, k);
    db.users := CountersAfterUnfollow(db.users, followerId, followingId);
    return Success(Unfollowed);
  }
}
