/** The document store the services share: one field per collection, and
    the invariant every service operation keeps. */
module Store {
  import opened Common
  import opened UserDirectory
  import opened FollowGraph
  import opened PostRecords
  import opened TimelineFeed

  /** The user, follow, post, like and timeline collections. */
  class Database {
    var users: seq<User>
    var follows: seq<Follow>
    var posts: seq<Post>
    var likes: set<Like>
    var timelines: seq<TimelineEntry>

    /** Unique ids and edges, no self-follow, and every denormalised
        counter in step with the collection it counts. */
    ghost predicate Valid()
      reads this
    {
      UserInvariants(users, follows, posts) && UniqueEdges(follows) && NoSelfFollow(follows) &&
      PostInvariants(posts, likes)
    }

    constructor()
      ensures Valid()
      ensures users == [] && follows == [] && posts == [] && likes == {} && timelines == []
    {
      users := [];
      follows := [];
      posts := [];
      likes := {};
      timelines := [];
    }
  }

  /** The user collection's part of the invariant. */
  ghost predicate UserInvariants(users: seq<User>, follows: seq<Follow>, posts: seq<Post>)
  {
    UniqueUserIds(users) && FollowCountersAgree(users, follows) && PostsCountersAgree(users, posts)
  }

  /** Moving a follow counter keeps ids and `postsCount`, and so the parts
      of the invariant that do not look at follow counters. */
  lemma FollowCounterDeltaKeepsOthers(users: seq<User>, posts: seq<Post>, id: UserId, c: Counter, delta: int)
    requires c != Posts
    requires UniqueUserIds(users) && PostsCountersAgree(users, posts)
    ensures UniqueUserIds(WithCounterDelta(users, id, c, delta))
    ensures PostsCountersAgree(WithCounterDelta(users, id, c, delta), posts)
  {
    var r := WithCounterDelta(users, id, c, delta);
    assert forall i :: 0 <= i < |users| ==> r[i].postsCount == users[i].postsCount;
  }

  /** Moving `postsCount` keeps ids and the follow counters. */
  lemma PostsCounterDeltaKeepsOthers(users: seq<User>, follows: seq<Follow>, id: UserId, delta: int)
    requires UniqueUserIds(users) && FollowCountersAgree(users, follows)
    ensures UniqueUserIds(WithCounterDelta(users, id, Posts, delta))
    ensures FollowCountersAgree(WithCounterDelta(users, id, Posts, delta), follows)
  {
    var r := WithCounterDelta(users, id, Posts, delta);
    assert forall i :: 0 <= i < |users| ==>
      r[i].followersCount == users[i].followersCount && r[i].followingCount == users[i].followingCount;
  }

  /** A follow (one new edge, both counters raised) keeps the user part of
      the invariant. */
  lemma FollowKeepsUserInvariants(users: seq<User>, follows: seq<Follow>, posts: seq<Post>, e: Follow)
    requires UserInvariants(users, follows, posts)
    ensures UserInvariants(CountersAfterFollow(users, e.followerId, e.followingId), follows + [e], posts)
  {
    FollowKeepsCountersAgreeing(users, follows, e);
    var u1 := WithCounterDelta(users, e.followerId, Following, 1);
    FollowCounterDeltaKeepsOthers(users, posts, e.followerId, Following, 1);
    FollowCounterDeltaKeepsOthers(u1, posts, e.followingId, Followers, 1);
  }

  /** An unfollow (the edge at `k` removed, both counters lowered) keeps the
      user part of the invariant. */
  lemma UnfollowKeepsUserInvariants(users: seq<User>, follows: seq<Follow>, posts: seq<Post>, k: nat)
    requires k < |follows|
    requires UserInvariants(users, follows, posts)
    ensures UserInvariants(CountersAfterUnfollow(users, follows[k].followerId, follows[k].followingId), RemoveAt(follows, k), posts)
  {
    UnfollowKeepsCountersAgreeing(users, follows, k);
    var u1 := WithCounterDelta(users, follows[k].followerId, Following, -1);
    FollowCounterDeltaKeepsOthers(users, posts, follows[k].followerId, Following, -1);
    FollowCounterDeltaKeepsOthers(u1, posts, follows[k].followingId, Followers, -1);
  }

  /** A profile update of the record at `k` keeps the user part of the
      invariant: it changes neither ids nor counters. */
  lemma ProfileUpdateKeepsUserInvariants(users: seq<User>, follows: seq<Follow>, posts: seq<Post>, k: nat, upd: ProfileUpdate)
    requires k < |users|
    requires UserInvariants(users, follows, posts)
    ensures UserInvariants(users[k := ApplyProfileUpdate(users[k], upd)], follows, posts)
  {
    var u := ApplyProfileUpdate(users[k], upd);
    assert CounterOf(u, Followers) == CounterOf(users[k], Followers);
    assert CounterOf(u, Following) == CounterOf(users[k], Following);
    assert CounterOf(u, Posts) == CounterOf(users[k], Posts);
  }

  /** Moving a post counter changes no author, so the user part of the
      invariant stays. */
  lemma PostCounterDeltaKeepsUserInvariants(users: seq<User>, follows: seq<Follow>, posts: seq<Post>, id: PostId, c: PostCounter, delta: int)
    requires UserInvariants(users, follows, posts)
    ensures UserInvariants(users, follows, WithPostCounterDelta(posts, id, c, delta))
  {
    assert AuthorColumn(WithPostCounterDelta(posts, id, c, delta)) == AuthorColumn(posts);
  }

  /** Storing a post and raising its author's `postsCount` keeps the user
      part of the invariant. */
  lemma CreateKeepsUserInvariants(users: seq<User>, follows: seq<Follow>, posts: seq<Post>, p: Post)
    requires UserInvariants(users, follows, posts)
    ensures UserInvariants(WithCounterDelta(users, p.authorId, Posts, 1), follows, posts + [p])
  {
    CreateKeepsPostsCountersAgreeing(users, posts, p);
    PostsCounterDeltaKeepsOthers(users, follows, p.authorId, 1);
  }

  /** Removing the post at `k` and lowering its author's `postsCount` keeps
      the user part of the invariant. */
  lemma DeleteKeepsUserInvariants(users: seq<User>, follows: seq<Follow>, posts: seq<Post>, k: nat)
    requires k < |posts|
    requires UserInvariants(users, follows, posts)
    ensures UserInvariants(WithCounterDelta(users, posts[k].authorId, Posts, -1), follows, RemoveAt(posts, k))
  {
    DeleteKeepsPostsCountersAgreeing(users, posts, k);
    PostsCounterDeltaKeepsOthers(users, follows, posts[k].authorId, -1);
  }
}
