/** The timeline collection and the pure side of the timeline service: the
    batch of entries a fan-out writes, and the home-timeline read. The store
    has no unique index on `(userId, postId)`, so writing a batch is a plain
    append and a repeated fan-out stores every entry again. */
module TimelineFeed {
  import opened Common
  import opened FollowGraph
  import opened PostRecords

  /** "This post is in this user's feed"; `createdAt` is the write time. */
  datatype TimelineEntry = TimelineEntry(userId: UserId, postId: PostId, createdAt: int)

  function EntryTime(e: TimelineEntry): int { e.createdAt }

  /** One entry per owner, all for the same post and time. */
  function EntriesFor(owners: seq<UserId>, postId: PostId, now: int): (r: seq<TimelineEntry>)
    ensures |r| == |owners|
    ensures forall k :: 0 <= k < |owners| ==> r[k] == TimelineEntry(owners[k], postId, now)
  {
    seq(|owners|, k requires 0 <= k < |owners| => TimelineEntry(owners[k], postId, now))
  }

  /** The owners of a list of entries, in order. */
  function OwnerColumn(entries: seq<TimelineEntry>): (r: seq<UserId>)
    ensures |r| == |entries|
    ensures forall k :: 0 <= k < |entries| ==> r[k] == entries[k].userId
  {
    seq(|entries|, k requires 0 <= k < |entries| => entries[k].userId)
  }

  /** The batch a fan-out writes: one entry per follower id, in the order
      given, then the author's own entry. */
  function FanOutBatch(followerIds: seq<UserId>, postId: PostId, authorId: UserId, now: int): (r: seq<TimelineEntry>)
    ensures |r| == |followerIds| + 1
    ensures OwnerColumn(r) == followerIds + [authorId]
    ensures forall k :: 0 <= k < |r| ==> r[k].postId == postId && r[k].createdAt == now
  {
    var r := EntriesFor(followerIds, postId, now) + [TimelineEntry(authorId, postId, now)];
    assert OwnerColumn(r) == followerIds + [authorId];
    r
  }

  /** Builds the fan-out batch as the service does: map every follower id to
      an entry, then push the author's entry. */
  method BuildFanOutEntries(followerIds: seq<UserId>, postId: PostId, authorId: UserId, now: int)
    returns (entries: seq<TimelineEntry>)
    ensures entries == FanOutBatch(followerIds, postId, authorId, now)
  {
    entries := [];
    var i := 0;
    while i < |followerIds|
      invariant 0 <= i <= |followerIds|
      invariant entries == EntriesFor(followerIds[..i], postId, now)
    {
      entries := entries + [TimelineEntry(followerIds[i], postId, now)];
      i := i + 1;
    }
    assert followerIds[..i] == followerIds;
    entries := entries + [TimelineEntry(authorId, postId, now)];
  }

  /** The number of entries that put `postId` in `owner`'s feed. */
  function Copies(entries: seq<TimelineEntry>, owner: UserId, postId: PostId): nat
  {
    if |entries| == 0 then 0
    else (if entries[0].userId == owner && entries[0].postId == postId then 1 else 0) + Copies(entries[1..], owner, postId)
  }

  lemma {:induction false} CopiesConcat(a: seq<TimelineEntry>, b: seq<TimelineEntry>, owner: UserId, postId: PostId)
    ensures Copies(a + b, owner, postId) == Copies(a, owner, postId) + Copies(b, owner, postId)
  {
    if |a| > 0 {
      assert (a + b)[1..] == a[1..] + b;
      CopiesConcat(a[1..], b, owner, postId);
    } else {
      assert a + b == b;
    }
  }

  /** Over a list of distinct owners, each listed owner gets exactly one
      copy and every other user none. */
  lemma {:induction false} CopiesOfDistinctOwners(owners: seq<UserId>, postId: PostId, now: int, owner: UserId)
    requires forall i, j :: 0 <= i < j < |owners| ==> owners[i] != owners[j]
    ensures Copies(EntriesFor(owners, postId, now), owner, postId) == if owner in owners then 1 else 0
  {
    if |owners| > 0 {
      assert EntriesFor(owners, postId, now)[1..] == EntriesFor(owners[1..], postId, now);
      CopiesOfDistinctOwners(owners[1..], postId, now, owner);
      assert owner in owners <==> owner == owners[0] || owner in owners[1..];
      assert owners[0] !in owners[1..];
    }
  }

  /** Fan-out only appends, and it does not deduplicate: with the follower
      ids distinct and not containing the author (as the follow graph
      guarantees), running it twice for the same post leaves exactly two
      more copies for every recipient and none for anybody else. */
  lemma FanOutTwiceStoresTwoCopies(timeline: seq<TimelineEntry>, followerIds: seq<UserId>, postId: PostId,
                                   authorId: UserId, t1: int, t2: int, owner: UserId)
    requires forall i, j :: 0 <= i < j < |followerIds| ==> followerIds[i] != followerIds[j]
    requires authorId !in followerIds
    ensures var after := timeline + FanOutBatch(followerIds, postId, authorId, t1)
                                  + FanOutBatch(followerIds, postId, authorId, t2);
            Copies(after, owner, postId) ==
              Copies(timeline, owner, postId) + (if owner in followerIds + [authorId] then 2 else 0)
  {
    var owners := followerIds + [authorId];
    assert forall i, j :: 0 <= i < j < |owners| ==> owners[i] != owners[j] by {
      forall i, j | 0 <= i < j < |owners| ensures owners[i] != owners[j] {
        if j == |followerIds| {
          assert owners[i] in followerIds;
        }
      }
    }
    var b1 := FanOutBatch(followerIds, postId, authorId, t1);
    var b2 := FanOutBatch(followerIds, postId, authorId, t2);
    assert b1 == EntriesFor(owners, postId, t1);
    assert b2 == EntriesFor(owners, postId, t2);
    CopiesOfDistinctOwners(owners, postId, t1, owner);
    CopiesOfDistinctOwners(owners, postId, t2, owner);
    CopiesConcat(timeline, b1, owner, postId);
    CopiesConcat(timeline + b1, b2, owner, postId);
  }

  /** `find({ userId })`: one user's entries, in natural order. */
  function EntriesOf(entries: seq<TimelineEntry>, userId: UserId): (r: seq<TimelineEntry>)
    ensures forall e :: e in r <==> e in entries && e.userId == userId
    ensures forall e :: multiset(r)[e] == if e.userId == userId then multiset(entries)[e] else 0
  {
    if |entries| == 0 then []
    else
      var rest := EntriesOf(entries[1..], userId);
      assert multiset(entries) == multiset{entries[0]} + multiset(entries[1..]) by {
        assert entries == [entries[0]] + entries[1..];
      }
      if entries[0].userId == userId then
        assert multiset([entries[0]] + rest) == multiset{entries[0]} + multiset(rest);
        [entries[0]] + rest
      else rest
  }

  /** The post side of a list of entries. */
  function PostIdColumn(entries: seq<TimelineEntry>): (r: seq<PostId>)
    ensures |r| == |entries|
    ensures forall k :: 0 <= k < |entries| ==> r[k] == entries[k].postId
  {
    seq(|entries|, k requires 0 <= k < |entries| => entries[k].postId)
  }

  /** `find({ _id: { $in: postIds } })`: the stored posts with a listed id,
      each once, in natural order. */
  function PostsWithIds(posts: seq<Post>, ids: seq<PostId>): (r: seq<Post>)
    ensures forall p :: p in r <==> p in posts && p.id in ids
    ensures UniquePostIds(posts) ==> UniquePostIds(r)
    ensures ids == [] ==> r == []
  {
    if |posts| == 0 then []
    else
      var rest := PostsWithIds(posts[1..], ids);
      assert forall p :: p in posts <==> p == posts[0] || p in posts[1..];
      assert UniquePostIds(posts) ==> UniquePostIds(posts[1..]) by {
        if UniquePostIds(posts) {
          forall i, j | 0 <= i < j < |posts[1..]| ensures posts[1..][i].id != posts[1..][j].id {
            assert posts[1..][i] == posts[i + 1] && posts[1..][j] == posts[j + 1];
          }
        }
      }
      if posts[0].id in ids then
        assert UniquePostIds(posts) ==> forall p :: p in rest ==> p.id != posts[0].id by {
          if UniquePostIds(posts) {
            forall p | p in rest ensures p.id != posts[0].id {
              var j :| 1 <= j < |posts| && posts[j] == p;
            }
          }
        }
        [posts[0]] + rest
      else rest
  }

  /** The page of a user's entries the home timeline reads:
      `find({ userId }).sort({ createdAt: -1 }).skip(skip).limit(limit)`. */
  function HomePage(entries: seq<TimelineEntry>, userId: UserId, page: int, limit: int): (r: Result<seq<TimelineEntry>>)
    ensures r.Failure? <==> Skip(page, limit) < 0
    ensures r.Success? ==> forall e :: e in r.value ==> e in entries && e.userId == userId
    ensures r.Success? ==> NewestFirst(r.value, EntryTime)
    ensures r.Success? && limit != 0 ==> |r.value| <= if limit < 0 then -limit else limit
    ensures r.Success? && page == 1 && limit == 0 ==> forall e :: e in entries && e.userId == userId ==> e in r.value
    ensures r.Success? ==> NewestFirstPage(r.value, EntriesOf(entries, userId), page, limit, EntryTime)
  {
    var mine := EntriesOf(entries, userId);
    var sorted := SortNewestFirst(mine, EntryTime);
    SortKeepsMembers(mine, EntryTime);
    var r := Paginate(sorted, page, limit);
    if r.Failure? then r
    else
      assert Paginate(sorted, page, limit) == Success(r.value);
      PageMembers(sorted, page, limit);
      PageOfSortedIsSorted(sorted, page, limit, EntryTime);
      r
  }

  /** Distinct ids drawn from a set number at most its size. */
  lemma {:induction false} DistinctIdsBound(ps: seq<Post>, ids: set<PostId>)
    requires UniquePostIds(ps)
    requires forall p :: p in ps ==> p.id in ids
    ensures |ps| <= |ids|
  {
    if |ps| > 0 {
      var rest := ps[1..];
      assert UniquePostIds(rest) by {
        forall i, j | 0 <= i < j < |rest| ensures rest[i].id != rest[j].id {
          assert rest[i] == ps[i + 1] && rest[j] == ps[j + 1];
        }
      }
      forall p | p in rest ensures p.id in ids - {ps[0].id} {
        var j :| 0 <= j < |rest| && rest[j] == p;
        assert ps[j + 1] == p;
      }
      DistinctIdsBound(rest, ids - {ps[0].id});
    }
  }

  /** A sequence has at most as many distinct members as elements. */
  lemma {:induction false} SetOfSeqBound(s: seq<PostId>)
    ensures |set x | x in s| <= |s|
  {
    if |s| > 0 {
      SetOfSeqBound(s[1..]);
      assert (set x | x in s) == (set x | x in s[1..]) + {s[0]};
    }
  }

  /** `getHomeTimeline(userId, page, limit)`: the stored posts whose ids the
      selected page of the user's entries names, newest post first; an empty
      page yields no posts. */
  function HomeTimeline(entries: seq<TimelineEntry>, posts: seq<Post>, userId: UserId, page: int, limit: int): (r: Result<seq<Post>>)
    ensures r.Failure? <==> Skip(page, limit) < 0
    ensures r.Success? ==> HomePage(entries, userId, page, limit).Success?
    ensures r.Success? && HomePage(entries, userId, page, limit).value == [] ==> r.value == []
    ensures r.Success? ==> forall p :: p in r.value <==>
              p in posts && p.id in PostIdColumn(HomePage(entries, userId, page, limit).value)
    ensures r.Success? ==> NewestFirst(r.value, PostTime)
    ensures r.Success? ==>
              multiset(r.value) == multiset(PostsWithIds(posts, PostIdColumn(HomePage(entries, userId, page, limit).value)))
    ensures r.Success? && UniquePostIds(posts) ==> UniquePostIds(r.value)
    ensures r.Success? && limit != 0 && UniquePostIds(posts) ==> |r.value| <= if limit < 0 then -limit else limit
  {
    match HomePage(entries, userId, page, limit)
    case Failure(err) => Failure(err)
    case Success(selected) =>
      var postIds := PostIdColumn(selected);
      if |postIds| == 0 then Success([])
      else
        var found := PostsWithIds(posts, postIds);
        var sorted := SortNewestFirst(found, PostTime);
        SortKeepsMembers(found, PostTime);
        assert |sorted| == |found| by {
          assert |multiset(sorted)| == |multiset(found)|;
        }
        assert UniquePostIds(posts) ==> UniquePostIds(sorted) by {
          if UniquePostIds(posts) {
            PermutationKeepsUniqueIds(found, sorted);
          }
        }
        assert UniquePostIds(posts) ==> |found| <= |postIds| by {
          if UniquePostIds(posts) {
            DistinctIdsBound(found, set x | x in postIds);
            SetOfSeqBound(postIds);
          }
        }
        Success(sorted)
  }

  /** After a fan-out, the post is in the full first page of the feed of the
      author and of every follower the fan-out read. */
  lemma FanOutReachesFollowers(timeline: seq<TimelineEntry>, posts: seq<Post>, edges: seq<Follow>,
                               p: Post, now: int, user: UserId)
    requires p in posts
    ensures var after := timeline + FanOutBatch(FollowerIds(edges, p.authorId), p.id, p.authorId, now);
            (HasEdge(edges, user, p.authorId) || user == p.authorId) ==>
              p in HomeTimeline(after, posts, user, 1, 0).value
  {
    var ids := FollowerIds(edges, p.authorId);
    var batch := FanOutBatch(ids, p.id, p.authorId, now);
    var after := timeline + batch;
    if HasEdge(edges, user, p.authorId) || user == p.authorId {
      assert user in ids + [p.authorId];
      assert user in OwnerColumn(batch);
      var k :| 0 <= k < |batch| && OwnerColumn(batch)[k] == user;
      assert batch[k] in after;
      EntryShowsPost(after, posts, batch[k], p);
    }
  }

  /** A user with an entry for a stored post sees that post on the full first
      page of the home timeline. */
  lemma EntryShowsPost(entries: seq<TimelineEntry>, posts: seq<Post>, e: TimelineEntry, p: Post)
    requires e in entries && p in posts && e.postId == p.id
    ensures p in HomeTimeline(entries, posts, e.userId, 1, 0).value
  {
    var page := HomePage(entries, e.userId, 1, 0);
    assert page.Success? && e in page.value;
    var full := page.value;
    var j :| 0 <= j < |full| && full[j] == e;
    assert PostIdColumn(full)[j] == p.id;
    assert p.id in PostIdColumn(full);
    var r := HomeTimeline(entries, posts, e.userId, 1, 0);
    assert r.Success?;
  }

  /** A fan-out reaches nobody else: a user who neither follows the author
      nor is the author, and had no entry for the post, sees it on no page. */
  lemma FanOutReachesNoOneElse(timeline: seq<TimelineEntry>, posts: seq<Post>, edges: seq<Follow>,
                               p: Post, now: int, user: UserId, page: int, limit: int)
    requires !HasEdge(edges, user, p.authorId) && user != p.authorId
    requires forall e :: e in timeline && e.userId == user ==> e.postId != p.id
    ensures var after := timeline + FanOutBatch(FollowerIds(edges, p.authorId), p.id, p.authorId, now);
            var r := HomeTimeline(after, posts, user, page, limit);
            r.Success? ==> p !in r.value
  {
  }

  /** A deleted post disappears from every page of every home timeline,
      although its entries stay in the timeline collection. */
  lemma DeletedPostLeavesFeeds(entries: seq<TimelineEntry>, posts: seq<Post>, k: nat, userId: UserId, page: int, limit: int)
    requires k < |posts|
    requires UniquePostIds(posts)
    ensures var r := HomeTimeline(entries, RemoveAt(posts, k), userId, page, limit);
            r.Success? ==> forall p :: p in r.value ==> p.id != posts[k].id
  {
    RemoveAtDropsPost(posts, k);
  }
}
