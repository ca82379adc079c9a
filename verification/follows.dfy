/** The follow graph: the collection of directed follower -> followee edges,
    the queries the follows service answers from it, and the invariants its
    follow/unfollow transitions keep (pair uniqueness, no self edge, and the
    denormalised follower/following counters agreeing with the edges). */
module FollowGraph {
  import opened Common
  import opened UserDirectory

  /** One follow document; `createdAt` is the store's timestamp. */
  datatype Follow = Follow(followerId: UserId, followingId: UserId, createdAt: int)

  function FollowTime(e: Follow): int { e.createdAt }

  /** The unique index on `(followerId, followingId)`. */
  ghost predicate UniqueEdges(edges: seq<Follow>)
  {
    forall i, j :: 0 <= i < j < |edges| ==>
      edges[i].followerId != edges[j].followerId || edges[i].followingId != edges[j].followingId
  }

  /** No stored edge is a self-follow: follow refuses one before inserting. */
  ghost predicate NoSelfFollow(edges: seq<Follow>)
  {
    forall i :: 0 <= i < |edges| ==> edges[i].followerId != edges[i].followingId
  }

  ghost predicate HasEdge(edges: seq<Follow>, followerId: UserId, followingId: UserId)
  {
    exists i :: 0 <= i < |edges| && edges[i].followerId == followerId && edges[i].followingId == followingId
  }

  /** `findOne({ followerId, followingId })`: the position of the first such edge. */
  function FindEdge(edges: seq<Follow>, followerId: UserId, followingId: UserId): (r: Option<nat>)
    ensures r.Some? ==> r.value < |edges| && edges[r.value].followerId == followerId && edges[r.value].followingId == followingId
    ensures r.None? <==> !HasEdge(edges, followerId, followingId)
  {
    if |edges| == 0 then None
    else if edges[0].followerId == followerId && edges[0].followingId == followingId then Some(0)
    else
      match FindEdge(edges[1..], followerId, followingId)
      case None =>
        assert forall i :: 1 <= i < |edges| ==> edges[i] == edges[1..][i - 1];
        None
      case Some(k) => Some(k + 1)
  }

  /** `isFollowing(a, b)`: whether the edge a -> b exists. */
  function IsFollowing(edges: seq<Follow>, followerId: UserId, followingId: UserId): (r: bool)
    ensures r <==> HasEdge(edges, followerId, followingId)
  {
    FindEdge(edges, followerId, followingId).Some?
  }

  /** `find({ followingId: userId })`: the edges into a user, in natural order. */
  function EdgesInto(edges: seq<Follow>, userId: UserId): (r: seq<Follow>)
    ensures forall e :: e in r <==> e in edges && e.followingId == userId
    ensures |r| <= |edges|
  {
    if |edges| == 0 then []
    else
      var rest := EdgesInto(edges[1..], userId);
      assert forall e :: e in edges <==> e == edges[0] || e in edges[1..];
      if edges[0].followingId == userId then [edges[0]] + rest else rest
  }

  /** `find({ followerId: userId })`: the edges out of a user, in natural order. */
  function EdgesFrom(edges: seq<Follow>, userId: UserId): (r: seq<Follow>)
    ensures forall e :: e in r <==> e in edges && e.followerId == userId
    ensures |r| <= |edges|
  {
    if |edges| == 0 then []
    else
      var rest := EdgesFrom(edges[1..], userId);
      assert forall e :: e in edges <==> e == edges[0] || e in edges[1..];
      if edges[0].followerId == userId then [edges[0]] + rest else rest
  }

  /** The follower side of a list of edges. */
  function FollowerColumn(edges: seq<Follow>): (r: seq<UserId>)
    ensures |r| == |edges|
    ensures forall i :: 0 <= i < |edges| ==> r[i] == edges[i].followerId
  {
    seq(|edges|, i requires 0 <= i < |edges| => edges[i].followerId)
  }

  /** The followee side of a list of edges. */
  function FollowingColumn(edges: seq<Follow>): (r: seq<UserId>)
    ensures |r| == |edges|
    ensures forall i :: 0 <= i < |edges| ==> r[i] == edges[i].followingId
  {
    seq(|edges|, i requires 0 <= i < |edges| => edges[i].followingId)
  }

  /** `getFollowersIds(userId)`: the follower id of every edge into the user,
      in the store's natural order. */
  function FollowerIds(edges: seq<Follow>, userId: UserId): (r: seq<UserId>)
    ensures forall x :: x in r <==> HasEdge(edges, x, userId)
  {
    var into := EdgesInto(edges, userId);
    FollowerColumnOfEdgesInto(edges, userId, into);
    FollowerColumn(into)
  }

  /** The edges into a user keep the pair uniqueness of the whole collection. */
  lemma {:induction false} EdgesIntoUnique(edges: seq<Follow>, userId: UserId)
    requires UniqueEdges(edges)
    ensures UniqueEdges(EdgesInto(edges, userId))
  {
    if |edges| > 0 {
      var tail := edges[1..];
      assert UniqueEdges(tail) by {
        forall i, j | 0 <= i < j < |tail|
          ensures tail[i].followerId != tail[j].followerId || tail[i].followingId != tail[j].followingId
        {
          assert tail[i] == edges[i + 1] && tail[j] == edges[j + 1];
        }
      }
      EdgesIntoUnique(tail, userId);
      var rest := EdgesInto(tail, userId);
      if edges[0].followingId == userId {
        forall e | e in rest ensures e.followerId != edges[0].followerId || e.followingId != edges[0].followingId {
          var j :| 0 <= j < |tail| && tail[j] == e;
          assert edges[j + 1] == e;
        }
        var r := [edges[0]] + rest;
        forall i, j | 0 <= i < j < |r| ensures r[i].followerId != r[j].followerId || r[i].followingId != r[j].followingId {
          if i > 0 {
            assert r[i] == rest[i - 1] && r[j] == rest[j - 1];
          } else {
            assert r[j] in rest;
          }
        }
      }
    }
  }

  /** The follower ids fanned out to are pairwise distinct, and never the
      followee itself. */
  lemma FollowerIdsDistinct(edges: seq<Follow>, userId: UserId)
    requires UniqueEdges(edges)
    requires NoSelfFollow(edges)
    ensures forall i, j :: 0 <= i < j < |FollowerIds(edges, userId)| ==> FollowerIds(edges, userId)[i] != FollowerIds(edges, userId)[j]
    ensures userId !in FollowerIds(edges, userId)
  {
    var into := EdgesInto(edges, userId);
    EdgesIntoUnique(edges, userId);
    assert forall i :: 0 <= i < |into| ==> into[i] in edges && into[i].followingId == userId;
  }

  /** The denormalised counters agree with the edges: each user's
      `followersCount` is the number of edges into it and `followingCount` the
      number of edges out of it. */
  ghost predicate FollowCountersAgree(users: seq<User>, edges: seq<Follow>)
  {
    forall i :: 0 <= i < |users| ==>
      users[i].followersCount == multiset(FollowingColumn(edges))[users[i].id] &&
      users[i].followingCount == multiset(FollowerColumn(edges))[users[i].id]
  }

  /** With the unique index, removing the edge at `k` leaves no edge for its
      pair, and removal keeps the edge invariants. */
  lemma RemoveAtDropsEdge(edges: seq<Follow>, k: nat)
    requires k < |edges|
    requires UniqueEdges(edges)
    ensures !HasEdge(RemoveAt(edges, k), edges[k].followerId, edges[k].followingId)
    ensures UniqueEdges(RemoveAt(edges, k))
    ensures NoSelfFollow(edges) ==> NoSelfFollow(RemoveAt(edges, k))
  {
    var r := RemoveAt(edges, k);
    forall i | 0 <= i < |r| ensures r[i].followerId != edges[k].followerId || r[i].followingId != edges[k].followingId {
      var j := if i < k then i else i + 1;
      assert r[i] == edges[j];
    }
    forall i, j | 0 <= i < j < |r| ensures r[i].followerId != r[j].followerId || r[i].followingId != r[j].followingId {
      var i' := if i < k then i else i + 1;
      var j' := if j < k then j else j + 1;
      assert r[i] == edges[i'] && r[j] == edges[j'];
    }
  }

  /** The counters after a follow a -> b: `incrementFollowingCount(a)` then
      `incrementFollowersCount(b)`. */
  function CountersAfterFollow(users: seq<User>, followerId: UserId, followingId: UserId): seq<User>
  {
    WithCounterDelta(WithCounterDelta(users, followerId, Following, 1), followingId, Followers, 1)
  }

  /** The counters after an unfollow a -> b: `decrementFollowingCount(a)` then
      `decrementFollowersCount(b)`. */
  function CountersAfterUnfollow(users: seq<User>, followerId: UserId, followingId: UserId): seq<User>
  {
    WithCounterDelta(WithCounterDelta(users, followerId, Following, -1), followingId, Followers, -1)
  }

  /** Unfollowing right after a follow finds the new edge and removes
      exactly it: the edge list is as before the follow. */
  lemma FollowThenUnfollowRestoresEdges(edges: seq<Follow>, e: Follow)
    requires UniqueEdges(edges)
    requires !HasEdge(edges, e.followerId, e.followingId)
    ensures FindEdge(edges + [e], e.followerId, e.followingId) == Some(|edges|)
    ensures RemoveAt(edges + [e], |edges|) == edges
  {
    var edges' := edges + [e];
    assert edges'[|edges|] == e;
    forall i | 0 <= i < |edges| ensures edges'[i].followerId != e.followerId || edges'[i].followingId != e.followingId {
      assert edges'[i] == edges[i];
    }
    assert edges'[..|edges|] == edges;
  }

  /** The counter updates of an unfollow undo those of a follow. */
  lemma FollowThenUnfollowRestoresCounters(users: seq<User>, followerId: UserId, followingId: UserId)
    ensures CountersAfterUnfollow(CountersAfterFollow(users, followerId, followingId), followerId, followingId) == users
  {
    var u1 := WithCounterDelta(users, followerId, Following, 1);
    CounterDeltasCommute(u1, followingId, Followers, 1, followerId, Following, -1);
    CounterDeltaCancels(users, followerId, Following, 1);
    CounterDeltaCancels(users, followingId, Followers, 1);
  }

  /** Inserting one edge and raising the two counters by one keeps the
      counters in agreement with the edges. */
  lemma FollowKeepsCountersAgreeing(users: seq<User>, edges: seq<Follow>, e: Follow)
    requires FollowCountersAgree(users, edges)
    ensures FollowCountersAgree(CountersAfterFollow(users, e.followerId, e.followingId), edges + [e])
  {
    var edges' := edges + [e];
    assert FollowingColumn(edges') == FollowingColumn(edges) + [e.followingId];
    assert FollowerColumn(edges') == FollowerColumn(edges) + [e.followerId];
    var mid := WithCounterDelta(users, e.followerId, Following, 1);
    var users' := WithCounterDelta(mid, e.followingId, Followers, 1);
    forall i | 0 <= i < |users'|
      ensures users'[i].followersCount == multiset(FollowingColumn(edges'))[users'[i].id]
      ensures users'[i].followingCount == multiset(FollowerColumn(edges'))[users'[i].id]
    {
      assert users'[i].id == users[i].id;
    }
  }

  /** Deleting the edge at `k` and lowering the two counters of its ends by
      one keeps the counters in agreement with the edges. */
  lemma UnfollowKeepsCountersAgreeing(users: seq<User>, edges: seq<Follow>, k: nat)
    requires k < |edges|
    requires FollowCountersAgree(users, edges)
    ensures FollowCountersAgree(CountersAfterUnfollow(users, edges[k].followerId, edges[k].followingId), RemoveAt(edges, k))
  {
    var e := edges[k];
    var edges' := RemoveAt(edges, k);
    assert FollowingColumn(edges') == RemoveAt(FollowingColumn(edges), k);
    assert FollowerColumn(edges') == RemoveAt(FollowerColumn(edges), k);
    var mid := WithCounterDelta(users, e.followerId, Following, -1);
    var users' := WithCounterDelta(mid, e.followingId, Followers, -1);
    forall i | 0 <= i < |users'|
      ensures users'[i].followersCount == multiset(FollowingColumn(edges'))[users'[i].id]
      ensures users'[i].followingCount == multiset(FollowerColumn(edges'))[users'[i].id]
    {
      assert users'[i].id == users[i].id;
    }
  }

  /** Appending an edge that does not exist yet keeps the pairs unique. */
  lemma FollowKeepsEdgesUnique(edges: seq<Follow>, e: Follow)
    requires UniqueEdges(edges)
    requires !HasEdge(edges, e.followerId, e.followingId)
    ensures UniqueEdges(edges + [e])
  {
    var edges' := edges + [e];
    forall i, j | 0 <= i < j < |edges'|
      ensures edges'[i].followerId != edges'[j].followerId || edges'[i].followingId != edges'[j].followingId
    {
      if j == |edges| {
        assert edges'[i] == edges[i];
      }
    }
  }

  /** The follower column of any list holding exactly the edges into a user
      names exactly that user's followers. */
  lemma FollowerColumnOfEdgesInto(edges: seq<Follow>, userId: UserId, part: seq<Follow>)
    requires forall e :: e in part ==> e in edges && e.followingId == userId
    ensures forall x :: x in FollowerColumn(part) ==> HasEdge(edges, x, userId)
    ensures (forall e :: e in edges && e.followingId == userId ==> e in part) ==>
              forall x :: HasEdge(edges, x, userId) ==> x in FollowerColumn(part)
  {
    var r := FollowerColumn(part);
    forall x | x in r ensures HasEdge(edges, x, userId) {
      var k :| 0 <= k < |r| && r[k] == x;
      assert part[k] in part;
    }
    if forall e :: e in edges && e.followingId == userId ==> e in part {
      forall x | HasEdge(edges, x, userId) ensures x in r {
        var i :| 0 <= i < |edges| && edges[i].followerId == x && edges[i].followingId == userId;
        var k :| 0 <= k < |part| && part[k] == edges[i];
        assert r[k] == x;
      }
    }
  }

  /** The followee column of any list holding exactly the edges out of a user
      names exactly the users it follows. */
  lemma FollowingColumnOfEdgesFrom(edges: seq<Follow>, userId: UserId, part: seq<Follow>)
    requires forall e :: e in part ==> e in edges && e.followerId == userId
    ensures forall x :: x in FollowingColumn(part) ==> HasEdge(edges, userId, x)
    ensures (forall e :: e in edges && e.followerId == userId ==> e in part) ==>
              forall x :: HasEdge(edges, userId, x) ==> x in FollowingColumn(part)
  {
    var r := FollowingColumn(part);
    forall x | x in r ensures HasEdge(edges, userId, x) {
      var k :| 0 <= k < |r| && r[k] == x;
      assert part[k] in part;
    }
    if forall e :: e in edges && e.followerId == userId ==> e in part {
      forall x | HasEdge(edges, userId, x) ensures x in r {
        var i :| 0 <= i < |edges| && edges[i].followerId == userId && edges[i].followingId == x;
        var k :| 0 <= k < |part| && part[k] == edges[i];
        assert r[k] == x;
      }
    }
  }

  /** `getFollowers(username, page, limit)`: the follower ids of the page of
      edges into the named user, newest edge first. */
  function GetFollowers(users: seq<User>, edges: seq<Follow>, username: string, page: int, limit: int): (r: Result<seq<UserId>>)
    ensures FindByUsername(users, username).None? ==> r == Failure(NotFound("User not found"))
    ensures FindByUsername(users, username).Some? ==> (r.Failure? <==> Skip(page, limit) < 0)
    ensures r.Success? ==> forall x :: x in r.value ==> HasEdge(edges, x, FindByUsername(users, username).value.id)
    ensures r.Success? && limit > 0 ==> |r.value| <= limit
    ensures r.Success? && page == 1 && limit == 0 ==>
              forall x :: x in r.value <==> HasEdge(edges, x, FindByUsername(users, username).value.id)
    ensures r.Success? ==> exists pageEdges ::
              NewestFirstPage(pageEdges, EdgesInto(edges, FindByUsername(users, username).value.id), page, limit, FollowTime) &&
              r.value == FollowerColumn(pageEdges)
  {
    match FindByUsername(users, username)
    case None => Failure(NotFound("User not found"))
    case Some(user) =>
      var into := EdgesInto(edges, user.id);
      var sorted := SortNewestFirst(into, FollowTime);
      match Paginate(sorted, page, limit)
      case Failure(err) => Failure(err)
      case Success(pageEdges) =>
        var r := FollowerColumn(pageEdges);
        assert Paginate(sorted, page, limit) == Success(pageEdges);
        assert NewestFirstPage(pageEdges, EdgesInto(edges, user.id), page, limit, FollowTime);
        SortKeepsMembers(into, FollowTime);
        PageMembers(sorted, page, limit);
        FollowerColumnOfEdgesInto(edges, user.id, pageEdges);
        Success(r)
  }

  /** `getFollowing(username, page, limit)`: the followee ids of the page of
      edges out of the named user, newest edge first. */
  function GetFollowing(users: seq<User>, edges: seq<Follow>, username: string, page: int, limit: int): (r: Result<seq<UserId>>)
    ensures FindByUsername(users, username).None? ==> r == Failure(NotFound("User not found"))
    ensures FindByUsername(users, username).Some? ==> (r.Failure? <==> Skip(page, limit) < 0)
    ensures r.Success? ==> forall x :: x in r.value ==> HasEdge(edges, FindByUsername(users, username).value.id, x)
    ensures r.Success? && limit > 0 ==> |r.value| <= limit
    ensures r.Success? && page == 1 && limit == 0 ==>
              forall x :: x in r.value <==> HasEdge(edges, FindByUsername(users, username).value.id, x)
    ensures r.Success? ==> exists pageEdges ::
              NewestFirstPage(pageEdges, EdgesFrom(edges, FindByUsername(users, username).value.id), page, limit, FollowTime) &&
              r.value == FollowingColumn(pageEdges)
  {
    match FindByUsername(users, username)
    case None => Failure(NotFound("User not found"))
    case Some(user) =>
      var from := EdgesFrom(edges, user.id);
      var sorted := SortNewestFirst(from, FollowTime);
      match Paginate(sorted, page, limit)
      case Failure(err) => Failure(err)
      case Success(pageEdges) =>
        var r := FollowingColumn(pageEdges);
        assert Paginate(sorted, page, limit) == Success(pageEdges);
        assert NewestFirstPage(pageEdges, EdgesFrom(edges, user.id), page, limit, FollowTime);
        SortKeepsMembers(from, FollowTime);
        PageMembers(sorted, page, limit);
        FollowingColumnOfEdgesFrom(edges, user.id, pageEdges);
        Success(r)
  }
}
