/** The state-changing side of the posts service: creating a post (with
    its reply bookkeeping and the fan-out that follows it), liking,
    unliking and deleting. */
module PostsService {
  import opened Common
  import opened UserDirectory
  import opened FollowGraph
  import opened PostRecords
  import opened TimelineFeed
  import opened Store
  import TimelineService

  const OriginalNotFound := "Original post not found"
  const ContentPath := "content"
  const PostNotFound := "Post not found"
  const AlreadyLiked := "Already liked"
  const Liked := "Post liked successfully"
  const LikeNotFound := "Like not found"
  const Unliked := "Post unliked successfully"
  const OnlyOwnPosts := "You can only delete your own posts"
  const Deleted := "Post deleted successfully"

  /** A request is a reply when its `replyToPostId` is a non-empty string. */
  predicate IsReplyRequest(replyToPostId: Option<PostId>)
  {
    replyToPostId.Some? && replyToPostId.value != []
  }

  /** The posts once a reply's target has had its `repliesCount` raised. */
  function AfterReplyCount(posts: seq<Post>, replyToPostId: Option<PostId>): seq<Post>
  {
    if IsReplyRequest(replyToPostId) then WithPostCounterDelta(posts, replyToPostId.value, Replies, 1) else posts
  }

  /** `create(userId, { content, replyToPostId })`. A reply must name a
      stored post, which is checked first; its `repliesCount` is raised
      before the new post is validated, so content the schema refuses still
      leaves that count raised. An accepted post is stored with the mentioned
      live users' ids, the lower-cased hashtags and zeroed counters; then its
      author's `postsCount` rises and the post is fanned out. `freshId` and
      `now` stand for the id and time the store assigns. */
  method Create(db: Database, userId: UserId, content: string, replyToPostId: Option<PostId>, freshId: PostId, now: int)
    returns (r: Result<Post>)
    requires db.Valid()
    requires FreshPostId(db.posts, db.likes, freshId)
    modifies db`posts, db`users, db`timelines
    ensures db.Valid()
    ensures IsReplyRequest(replyToPostId) && !HasPost(old(db.posts), replyToPostId.value) ==>
              r == Failure(NotFound(OriginalNotFound)) &&
              db.posts == old(db.posts) && db.users == old(db.users) && db.timelines == old(db.timelines)
    ensures (!IsReplyRequest(replyToPostId) || HasPost(old(db.posts), replyToPostId.value)) && !ContentAccepted(content) ==>
              r == Failure(ValidationFailed(ContentPath)) &&
              db.posts == AfterReplyCount(old(db.posts), replyToPostId) &&
              db.users == old(db.users) && db.timelines == old(db.timelines)
    ensures r.Success? <==>
              (!IsReplyRequest(replyToPostId) || HasPost(old(db.posts), replyToPostId.value)) && ContentAccepted(content)
    ensures r.Success? ==>
              r.value.id == freshId && r.value.authorId == userId && r.value.content == content &&
              r.value.createdAt == now && r.value.likesCount == 0 && r.value.repliesCount == 0 &&
              r.value.hashtags == ExtractHashtags(content) &&
              r.value.mentions == UserIds(FindByUsernames(old(db.users), ExtractMentions(content)))
    ensures r.Success? ==>
              forall m :: m in r.value.mentions ==>
                exists u :: u in old(db.users) && u.id == m && !u.isDeleted && u.username in ExtractMentions(content)
    ensures r.Success? ==>
              r.value.isReply == IsReplyRequest(replyToPostId) &&
              (r.value.isReply ==>
                 r.value.replyToPostId == replyToPostId &&
                 r.value.replyToUserId == Some(old(db.posts)[FindPost(old(db.posts), replyToPostId.value).value].authorId)) &&
              (!r.value.isReply ==> r.value.replyToPostId.None? && r.value.replyToUserId.None?)
    ensures r.Success? ==>
              db.posts == AfterReplyCount(old(db.posts), replyToPostId) + [r.value] &&
              db.users == WithCounterDelta(old(db.users), userId, Posts, 1) &&
              db.timelines == old(db.timelines) + FanOutBatch(FollowerIds(db.follows, userId), freshId, userId, now)
  {
    var mentions := ExtractMentions(content);
    var hashtags := ExtractHashtags(content);
    var isReply := IsReplyRequest(replyToPostId);
    var replyToUserId: Option<UserId> := None;
    if isReply {
      var found := FindPost(db.posts, replyToPostId.value);
      if found.None? {
        return Failure(NotFound(OriginalNotFound));
      }
      replyToUserId := Some(db.posts[found.value].authorId);
      ReplyCountRaiseKeepsInvariants(db.posts, db.likes, replyToPostId.value);
      PostCounterDeltaKeepsUserInvariants(db.users, db.follows, db.posts, replyToPostId.value, Replies, 1);
      db.posts := WithPostCounterDelta(db.posts, replyToPostId.value, Replies, 1);
    }

    var mentionUserIds := MentionUserIds(db.users, mentions);

    if !ContentAccepted(content) {
      return Failure(ValidationFailed(ContentPath));
    }

    var post := Post(freshId, userId, content, mentionUserIds, hashtags, 0, 0, isReply,
                     if isReply then replyToPostId else None, replyToUserId, now);
    CreateKeepsPostInvariants(old(db.posts), db.likes, post);
    CreateKeepsUserInvariants(db.users, db.follows, db.posts, post);
    db.posts := db.posts + [post];
    db.users := WithCounterDelta(db.users, userId, Posts, 1);

    var before := db.timelines;
    assert before == old(db.timelines);
    TimelineService.FanOutPostToFollowers(db, freshId, userId, now);
    assert db.timelines == before + FanOutBatch(FollowerIds(db.follows, userId), freshId, userId, now);
    return Success(post);
  }

  /** The ids of the live users named by the mentions, looked up only when
      there is at least one mention. */
  method MentionUserIds(users: seq<User>, mentions: seq<string>) returns (ids: seq<UserId>)
    ensures ids == UserIds(FindByUsernames(users, mentions))
    ensures forall m :: m in ids ==> exists u :: u in users && u.id == m && !u.isDeleted && u.username in mentions
  {
    var found := FindByUsernames(users, mentions);
    ids := [];
    if |mentions| > 0 {
      ids := ids + UserIds(found);
    } else {
      NoUsernamesFindNoUsers(users);
    }
    forall m | m in ids
      ensures exists u :: u in users && u.id == m && !u.isDeleted && u.username in mentions
    {
      var i :| 0 <= i < |ids| && ids[i] == m;
      assert found[i] in found;
    }
  }

  /** `likePost(postId, userId)`: a missing post is refused; an existing
      like is reported and left alone; otherwise exactly one like is added
      and the post's `likesCount` rises by one. */
  method LikePost(db: Database, postId: PostId, userId: UserId) returns (r: Result<string>)
    requires db.Valid()
    modifies db`likes, db`posts
    ensures db.Valid()
    ensures !HasPost(old(db.posts), postId) ==> r == Failure(NotFound(PostNotFound))
    ensures HasPost(old(db.posts), postId) && Like(userId, postId) in old(db.likes) ==> r == Success(AlreadyLiked)
    ensures r != Success(Liked) ==> db.likes == old(db.likes) && db.posts == old(db.posts)
    ensures r == Success(Liked) <==> HasPost(old(db.posts), postId) && Like(userId, postId) !in old(db.likes)
    ensures r == Success(Liked) ==>
              db.likes == old(db.likes) + {Like(userId, postId)} &&
              db.posts == WithPostCounterDelta(old(db.posts), postId, Likes, 1)
  {
    var found := FindPost(db.posts, postId);
    if found.None? {
      return Failure(NotFound(PostNotFound));
    }
    var like := Like(userId, postId);
    if like in db.likes {
      return Success(AlreadyLiked);
    }
    LikeKeepsCountersAgreeing(db.posts, db.likes, like);
    LikesDeltaKeepsIdsAndReplies(db.posts, postId, 1);
    PostCounterDeltaKeepsUserInvariants(db.users, db.follows, db.posts, postId, Likes, 1);
    db.likes := db.likes + {like};
    db.posts := WithPostCounterDelta(db.posts, postId, Likes, 1);
    return Success(Liked);
  }

  /** `unlikePost(postId, userId)`: without a like nothing changes;
      otherwise the like is removed and the post's `likesCount` drops by one
      (a post deleted meanwhile is simply not found by the update). */
  method UnlikePost(db: Database, postId: PostId, userId: UserId) returns (r: Result<string>)
    requires db.Valid()
    modifies db`likes, db`posts
    ensures db.Valid()
    ensures r.Success?
    ensures Like(userId, postId) !in old(db.likes) ==>
              r == Success(LikeNotFound) && db.likes == old(db.likes) && db.posts == old(db.posts)
    ensures Like(userId, postId) in old(db.likes) ==>
              r == Success(Unliked) &&
              db.likes == old(db.likes) - {Like(userId, postId)} &&
              db.posts == WithPostCounterDelta(old(db.posts), postId, Likes, -1)
  {
    var like := Like(userId, postId);
    if like !in db.likes {
      return Success(LikeNotFound);
    }
    UnlikeKeepsCountersAgreeing(db.posts, db.likes, like);
    LikesDeltaKeepsIdsAndReplies(db.posts, postId, -1);
    PostCounterDeltaKeepsUserInvariants(db.users, db.follows, db.posts, postId, Likes, -1);
    db.likes := db.likes - {like};
    db.posts := WithPostCounterDelta(db.posts, postId, Likes, -1);
    return Success(Unliked);
  }

  /** `delete(postId, userId)`: a missing post is refused, then a post of
      another author; otherwise the post is removed and its author's
      `postsCount` drops by one. Its likes, its timeline entries and the
      `repliesCount` of the post it replied to stay as they are. */
  method DeletePost(db: Database, postId: PostId, userId: UserId) returns (r: Result<string>)
    requires db.Valid()
    modifies db`posts, db`users
    ensures db.Valid()
    ensures !HasPost(old(db.posts), postId) ==> r == Failure(NotFound(PostNotFound))
    ensures HasPost(old(db.posts), postId) && old(db.posts)[FindPost(old(db.posts), postId).value].authorId != userId ==>
              r == Failure(Forbidden(OnlyOwnPosts))
    ensures r.Failure? ==> db.posts == old(db.posts) && db.users == old(db.users)
    ensures r.Success? <==>
              HasPost(old(db.posts), postId) && old(db.posts)[FindPost(old(db.posts), postId).value].authorId == userId
    ensures r.Success? ==>
              r.value == Deleted &&
              db.posts == RemoveAt(old(db.posts), FindPost(old(db.posts), postId).value) &&
              db.users == WithCounterDelta(old(db.users), userId, Posts, -1) &&
              !HasPost(db.posts, postId)
  {
    var found := FindPost(db.posts, postId);
    if found.None? {
      return Failure(NotFound(PostNotFound));
    }
    var k := found.value;
    if db.posts[k].authorId != userId {
      return Failure(Forbidden(OnlyOwnPosts));
    }
    DeleteKeepsPostInvariants(db.posts, db.likes, k);
    DeleteKeepsUserInvariants(db.users, db.follows, db.posts, k);
    RemoveAtDropsPost(db.posts, k);
    db.posts := RemoveAt(db.posts, k);
    db.users := WithCounterDelta(db.users, userId, Posts, -1);
    return Success(Deleted);
  }
}
