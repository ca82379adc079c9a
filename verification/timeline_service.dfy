/** The state-changing side of the timeline service. */
module TimelineService {
  import opened Common
  import opened FollowGraph
  import opened TimelineFeed
  import opened Store

  /** `fanOutPostToFollowers(postId, authorId)`: reads the author's follower
      ids, builds one entry per follower and one for the author, and appends
      the batch to the timeline collection. Nothing already stored changes,
      and nothing is deduplicated. */
  method FanOutPostToFollowers(db: Database, postId: PostId, authorId: UserId, now: int)
    requires db.Valid()
    modifies db`timelines
    ensures db.Valid()
    ensures db.timelines == old(db.timelines) + FanOutBatch(FollowerIds(db.follows, authorId), postId, authorId, now)
  {
    var followerIds := FollowerIds(db.follows, authorId);
    var entries := BuildFanOutEntries(followerIds, postId, authorId, now);
    if |entries| > 0 {
      db.timelines := db.timelines + entries;
    }
  }
}
