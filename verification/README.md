# mini-twitter-mongo: a Dafny model of the feed core

This project models the core of the mini-twitter-mongo backend, a NestJS service on MongoDB. The core is:

- the **follow graph**: follow, unfollow, membership and follower queries, and the denormalised `followersCount` / `followingCount` on user records;
- the **fan-out** of a new post into per-user timeline entries, and the home-timeline read;
- the **socket.io gateway**: it authenticates a connecting socket from its handshake token, keeps the `userSockets` registry (user id to set of socket ids), and pushes notifications to `user:<id>` rooms;
- the **post bookkeeping**: `@mention` / `#hashtag` extraction, like and unlike with `likesCount`, delete, the reply branch of create, and the paginated listings;
- the **user directory**: soft-delete aware lookups and the field-wise profile update.

## Layout

| file | module | holds |
|---|---|---|
| `common.dfy` | `Common` | ids, `Option`/`Result`, the error kinds, sort newest-first, skip/limit pagination |
| `users.dfy` | `UserDirectory` | user records, lookups, counter updates, profile update |
| `follows.dfy` | `FollowGraph` | edges, edge queries, follower/following pages, counter agreement |
| `posts.dfy` | `PostRecords` | posts, likes, tag extraction, listings, post-side invariants |
| `timeline.dfy` | `TimelineFeed` | timeline entries, the fan-out batch, the home timeline |
| `gateway.dfy` | `Gateway` | the `Client` and `WebSocketGateway` classes, the registry |
| `store.dfy` | `Store` | the `Database` class that holds all collections, and its `Valid` invariant |
| `users_service.dfy` | `UsersService` | `UpdateProfile` |
| `follows_service.dfy` | `FollowsService` | `FollowUser`, `UnfollowUser` |
| `timeline_service.dfy` | `TimelineService` | `FanOutPostToFollowers` |
| `posts_service.dfy` | `PostsService` | `Create`, `LikePost`, `UnlikePost`, `DeletePost` |

## Modelling choices

- **Collections.** Each collection is a sequence in the store's natural order, so `findOne` returns the first match. The like collection is a set, because of its unique index.
- **Services.** The state-changing operations are methods on a `Database` object. Their `modifies` clauses name only the collections they write.
- **The invariant.** Every method keeps `Database.Valid`:
  - unique user ids, post ids and edges;
  - no self-follow edge;
  - `followersCount`, `followingCount` and `postsCount` equal the number of matching documents;
  - `likesCount` equals the number of likes of the post;
  - `repliesCount` is at least the number of stored replies.
- **Sorting.** `.sort({ createdAt: -1 })` is an insertion sort by key. Only "newest first" and "same documents" are claimed, never the order of equal timestamps, because the store fixes none.
- **Pagination.** `.skip((page - 1) * limit).limit(limit)` follows the store's rules:
  - a negative skip is an error (`NegativeSkip`);
  - a limit of 0 means no limit;
  - a negative limit means its absolute value.
- **Parameters for the world.** The clock (`now`) and the id the store assigns to a new post (`freshId`) are parameters. The JWT check is a parameter `verify` that returns `None` where the library throws.
- **What the program does, where a reader might expect otherwise:**
  - Fan-out is not idempotent. It is a plain append (`insertMany`), and the timeline collection has no unique index on (owner, post). Running it twice stores two copies (`FanOutTwiceStoresTwoCopies`).
  - `followUser` checks that the username exists before it refuses a self-follow, and the refusal is a `BadRequest`.
  - Deleting a post does not cascade. Its timeline entries and likes stay, and the parent's `repliesCount` is not lowered. The home timeline simply no longer finds the post (`DeletedPostLeavesFeeds`).
  - The home timeline has no secondary sort key. Its result is the page's posts re-sorted by the post's own `createdAt`, not by entry time.
  - Post creation calls fan-out directly (it does not enqueue a job). The model runs it to completion after the post is stored.
  - The schema's `maxlength` on `content` compares the JavaScript `length`, which counts UTF-16 code units, so a character outside the Basic Multilingual Plane counts twice (`AstralContentTooLong`). The request DTO's `MaxLength(280)` counts characters and runs in the controller, outside this model.

## Model

| member | source | states |
|---|---|---|
| Common.SortNewestFirst | src/modules/timeline/services/timeline.service.ts:27 | the result is a permutation of the input and is ordered by non-increasing `createdAt` |
| Common.InsertByKey | src/modules/timeline/services/timeline.service.ts:27 | inserting into a newest-first list gives a newest-first list with the element added |
| Common.PrependKeepsNewestFirst | src/modules/timeline/services/timeline.service.ts:27 | an element no older than a newest-first list can go in front of it |
| Common.InsertBehindHead | src/modules/timeline/services/timeline.service.ts:27 | inserting behind an older head keeps the list newest-first and holding exactly the old elements and the new one |
| Common.Paginate | src/modules/timeline/services/timeline.service.ts:23-29 | fails exactly when `(page-1)*limit` is negative; otherwise returns the elements from the offset on, in order: a full page of `|limit|` when that many remain, all of the remainder when fewer remain or `limit` is 0 |
| Common.PageMembers | src/modules/posts/services/posts.service.ts:103-109 | a page holds only elements of the listing; page 1 with limit 0 is the whole listing |
| Common.PageOfSortedIsSorted | src/modules/posts/services/posts.service.ts:107-109 | a page of a newest-first listing is newest-first |
| Common.SortKeepsMembers | src/modules/posts/services/posts.service.ts:119 | sorting neither adds nor drops a document |
| Common.RemoveAt | src/modules/follows/services/follows.service.ts:81-84 | deleting one document: one shorter, the same multiset less that document, the order of the rest kept |
| UserDirectory.FirstMatch | src/modules/users/services/users.service.ts:25 | returns the first index whose record matches the query, or none when no record matches |
| UserDirectory.FindById | src/modules/users/services/users.service.ts:10-21 | returns a record exactly when a record with the id exists and is not soft-deleted |
| UserDirectory.FindByUsername | src/modules/users/services/users.service.ts:23-28 | returns a record exactly when a live record has that exact username; the record returned is such a record |
| UserDirectory.FindByEmail | src/modules/users/services/users.service.ts:30-32 | returns a record exactly when a live record has that exact email |
| UserDirectory.FindByUsernameOrEmail | src/modules/users/services/users.service.ts:34-43 | returns a record exactly when a live record has the key as username or as email; it succeeds whenever either single-field lookup does |
| UserDirectory.FindByUsernames | src/modules/posts/services/posts.service.ts:48 | the result holds exactly the live records whose username is listed (assumed behaviour of the helper) |
| UserDirectory.NoUsernamesFindNoUsers | src/modules/posts/services/posts.service.ts:47 | looking up no usernames finds nobody, so the `length > 0` guard changes no result |
| UserDirectory.WithCounterDelta | src/modules/follows/services/follows.service.ts:51-54 | the `$inc` helpers: only the record with the id changes, only in the named counter, by exactly `delta` |
| UserDirectory.CounterDeltaCancels | src/modules/follows/services/follows.service.ts:90-93 | a decrement undoes an increment of the same counter |
| UserDirectory.CounterDeltasCommute | src/modules/follows/services/follows.service.ts:51-54 | the two counter updates run under `Promise.all` give the same records in either order |
| UserDirectory.ApplyProfileUpdate | src/modules/users/services/users.service.ts:54-59 | each supplied field is overwritten; every other field, id, username, email, deletion flag and counter is kept |
| UserDirectory.EmptyUpdateIsIdentity | src/modules/users/services/users.service.ts:57 | an update supplying no field leaves the record as it is |
| FollowGraph.FindEdge | src/modules/follows/services/follows.service.ts:37-40 | finds an edge for the pair exactly when one exists, at a matching position |
| FollowGraph.IsFollowing | src/modules/follows/services/follows.service.ts:142-148 | true if and only if the edge follower -> following exists |
| FollowGraph.EdgesInto | src/modules/follows/services/follows.service.ts:151-152 | exactly the edges whose `followingId` is the user |
| FollowGraph.EdgesFrom | src/modules/follows/services/follows.service.ts:128-129 | exactly the edges whose `followerId` is the user |
| FollowGraph.FollowerIds | src/modules/follows/services/follows.service.ts:150-158 | an id is in the result if and only if it follows the user |
| FollowGraph.EdgesIntoUnique | src/modules/follows/schema/follow.schema.ts:17 | the edges into one user are still pairwise distinct |
| FollowGraph.FollowerIdsDistinct | src/modules/follows/services/follows.service.ts:150-158 | with unique edges and no self-follow, the follower ids are distinct and never the user itself |
| FollowGraph.RemoveAtDropsEdge | src/modules/follows/services/follows.service.ts:81-84 | with the unique index, deleting the matching edge leaves no edge for the pair and keeps the edge invariants |
| FollowGraph.FollowThenUnfollowRestoresEdges | src/modules/follows/services/follows.service.ts:46-88 | unfollow right after follow finds the new edge at the end and removes exactly it, restoring the edge list |
| FollowGraph.FollowThenUnfollowRestoresCounters | src/modules/follows/services/follows.service.ts:51-93 | the unfollow's two decrements undo the follow's two increments on every user |
| FollowGraph.FollowKeepsCountersAgreeing | src/modules/follows/services/follows.service.ts:46-54 | adding one edge and raising both counters keeps every user's counters equal to its in- and out-degree |
| FollowGraph.UnfollowKeepsCountersAgreeing | src/modules/follows/services/follows.service.ts:81-93 | removing one edge and lowering both counters keeps the counters equal to the degrees |
| FollowGraph.FollowKeepsEdgesUnique | src/modules/follows/services/follows.service.ts:37-49 | inserting an edge whose pair is absent keeps the pairs unique |
| FollowGraph.FollowerColumnOfEdgesInto | src/modules/follows/services/follows.service.ts:106-117 | the follower ids of a subset of a user's edges are followers, and of all of them are all followers |
| FollowGraph.FollowingColumnOfEdgesFrom | src/modules/follows/services/follows.service.ts:128-139 | the followee ids of a subset of a user's out-edges are followees, and of all of them are all followees |
| FollowGraph.GetFollowers | src/modules/follows/services/follows.service.ts:98-118 | an unknown username gives NotFound; otherwise it fails only on a negative skip, and returns the follower ids of page `page` of the user's in-edges arranged newest first, so only followers, a full page when enough remain, and all of them on page 1 with no limit |
| FollowGraph.GetFollowing | src/modules/follows/services/follows.service.ts:120-140 | as GetFollowers, for the followee ids of the user's out-edges |
| PostRecords.WordRun | src/modules/posts/services/posts.service.ts:192 | the longest prefix made of `\w` characters |
| PostRecords.ScanTags | src/modules/posts/services/posts.service.ts:192-194 | the global regex scan; every tag is a non-empty run of `\w` characters |
| PostRecords.SkipWordRun | src/modules/posts/services/posts.service.ts:192 | no match can start inside a run of word characters |
| PostRecords.ScanFindsEveryStart | src/modules/posts/services/posts.service.ts:192-194 | the scan equals the reference definition: the maximal word run after every sigil not preceded by a match |
| PostRecords.NoTagsIffNoStart | src/modules/posts/services/posts.service.ts:194 | there is no tag if and only if no position starts a match |
| PostRecords.ExtractMentions | src/modules/posts/services/posts.service.ts:191-195 | the mentions are, left to right, the maximal word runs after each `@`, without the `@`; empty exactly when there is none |
| PostRecords.LowerWord | src/modules/posts/services/posts.service.ts:200 | `toLowerCase` on a tag: same length, no upper-case letter, equal to the input up to ASCII case, and a word when the input is |
| PostRecords.LowerWordIsUnique | src/modules/posts/services/posts.service.ts:200 | those properties determine the lower-cased tag, and lower-casing twice changes nothing more |
| PostRecords.ExtractHashtags | src/modules/posts/services/posts.service.ts:197-201 | the lower-cased `#` tags, left to right; each is a non-empty word with no upper-case letter; empty exactly when there is none |
| PostRecords.Utf16Length | src/modules/posts/schema/post.schema.ts:11-12 | the JavaScript `length` the schema's `maxlength` compares: between the number of characters and twice that, and zero only for the empty string |
| PostRecords.BmpLengthIsCharCount | src/modules/posts/schema/post.schema.ts:11-12 | on text inside the Basic Multilingual Plane the length is the number of characters |
| PostRecords.AstralRunLength | src/modules/posts/schema/post.schema.ts:11-12 | a run of characters outside the Basic Multilingual Plane has twice their number as length |
| PostRecords.AstralContentTooLong | src/modules/posts/schema/post.schema.ts:11-12 | 141 emoji are at most 280 characters, yet the schema rejects them as content |
| PostRecords.FindPost | src/modules/posts/services/posts.service.ts:127 | finds a post exactly when one has the id, at a matching position |
| PostRecords.PostsBy | src/modules/posts/services/posts.service.ts:106 | exactly the posts of the author |
| PostRecords.UniqueIdsOccurOnce | src/modules/timeline/services/timeline.service.ts:38-42 | with unique ids, no post is stored twice |
| PostRecords.PermutationKeepsUniqueIds | src/modules/timeline/services/timeline.service.ts:38-44 | re-sorting posts with unique ids keeps them unique |
| PostRecords.FindByUser | src/modules/posts/services/posts.service.ts:98-112 | also `getUserPosts` (timeline.service.ts:47-61): fails only on a negative skip; the result is page `page` of the user's posts arranged newest first (so a full page when enough remain); only the order of equal timestamps is open |
| PostRecords.FindAll | src/modules/posts/services/posts.service.ts:114-124 | fails only on a negative skip; the result is page `page` of all posts arranged newest first, a full page when enough remain; every post on page 1 with no limit |
| PostRecords.WithPostCounterDelta | src/modules/posts/services/posts.service.ts:146-148 | only the post with the id changes, only in the named counter, by `delta`; a missing post changes nothing |
| PostRecords.LikeKeepsCountersAgreeing | src/modules/posts/services/posts.service.ts:141-148 | adding a new like and raising `likesCount` keeps every count equal to the post's number of likes |
| PostRecords.UnlikeKeepsCountersAgreeing | src/modules/posts/services/posts.service.ts:157-168 | removing a like and lowering `likesCount` keeps the counts equal |
| PostRecords.LikeThenUnlikeRestores | src/modules/posts/services/posts.service.ts:141-168 | unlike right after like restores the like set and every post |
| PostRecords.CreateKeepsPostsCountersAgreeing | src/modules/posts/services/posts.service.ts:52-64 | storing a post and raising its author's `postsCount` keeps each count equal to the user's number of posts |
| PostRecords.DeleteKeepsPostsCountersAgreeing | src/modules/posts/services/posts.service.ts:184-186 | deleting a post and lowering its author's `postsCount` keeps the counts equal |
| PostRecords.LikesDeltaKeepsIdsAndReplies | src/modules/posts/services/posts.service.ts:146-148 | a `likesCount` update keeps ids unique and the reply counts |
| PostRecords.ReplyCountRaiseKeepsInvariants | src/modules/posts/services/posts.service.ts:41-43 | raising a post's `repliesCount` keeps the post invariants |
| PostRecords.ReplyRaiseMakesRoom | src/modules/posts/services/posts.service.ts:41-43 | raising the parent's `repliesCount` leaves room for one more stored reply to it and changes no id or reply target |
| PostRecords.AppendKeepsRepliesCounted | src/modules/posts/services/posts.service.ts:52-62 | appending a post keeps the reply counts when each post has room for the reply it gains |
| PostRecords.AppendFreshKeepsUniqueIds | src/modules/posts/services/posts.service.ts:52-62 | appending a post with an unused id keeps ids unique |
| PostRecords.AppendFreshKeepsLikeCounts | src/modules/posts/services/posts.service.ts:52-62 | appending a post without likes keeps every `likesCount` equal to the post's likes |
| PostRecords.CreateKeepsPostInvariants | src/modules/posts/services/posts.service.ts:31-62 | storing a fresh post with zeroed counters, after raising its reply target's count, keeps ids unique, like counts exact and reply counts sufficient |
| PostRecords.DeleteKeepsPostInvariants | src/modules/posts/services/posts.service.ts:184 | removing a post keeps the post invariants although its likes and replies stay |
| PostRecords.RemoveAtKeepsUniqueIds | src/modules/posts/services/posts.service.ts:184 | removing a post keeps ids unique |
| PostRecords.RemoveAtKeepsRepliesCounted | src/modules/posts/services/posts.service.ts:184 | removing a post (possibly a reply) keeps every `repliesCount` at least the number of stored replies |
| PostRecords.RemoveAtDropsPost | src/modules/posts/services/posts.service.ts:184 | after `findByIdAndDelete` no post has the id |
| TimelineFeed.FanOutBatch | src/modules/timeline/services/timeline.service.ts:66-76 | exactly one entry per follower id, in order, then the author's last; all carry the post id; never empty |
| TimelineFeed.BuildFanOutEntries | src/modules/timeline/services/timeline.service.ts:66-76 | the `map` and `push` build exactly the fan-out batch |
| TimelineFeed.CopiesConcat | src/modules/timeline/services/timeline.service.ts:79 | the copies of a (owner, post) pair in appended lists add up |
| TimelineFeed.CopiesOfDistinctOwners | src/modules/timeline/services/timeline.service.ts:66-70 | over distinct owners each listed owner gets one copy, anyone else none |
| TimelineFeed.FanOutTwiceStoresTwoCopies | src/modules/timeline/services/timeline.service.ts:78-80 | two fan-outs of a post leave each recipient exactly two more copies and everybody else none (no deduplication) |
| TimelineFeed.EntriesOf | src/modules/timeline/services/timeline.service.ts:25-26 | exactly the user's entries, each as many times as it is stored (a repeated fan-out's copies all stay) |
| TimelineFeed.PostsWithIds | src/modules/timeline/services/timeline.service.ts:38-42 | exactly the stored posts whose id is listed, each once when ids are unique; no ids find no posts |
| TimelineFeed.HomePage | src/modules/timeline/services/timeline.service.ts:23-30 | fails only on a negative skip; the result is page `page` of the user's own entries arranged newest first, a full page when enough remain, at most `|limit|`; all of them on page 1 with no limit |
| TimelineFeed.DistinctIdsBound | src/modules/timeline/services/timeline.service.ts:38-42 | posts with distinct ids drawn from a set are at most as many as the set |
| TimelineFeed.SetOfSeqBound | src/modules/timeline/services/timeline.service.ts:32 | a list of post ids names at most as many ids as it has entries |
| TimelineFeed.HomeTimeline | src/modules/timeline/services/timeline.service.ts:18-45 | fails only on a negative skip; an empty page gives no posts; the result holds the same posts as the `$in` lookup of the page's post ids, so a post is returned if and only if it is stored and the page names it, and each post once even when the page names it twice; newest first; at most `|limit|` posts |
| TimelineFeed.FanOutReachesFollowers | src/modules/timeline/services/timeline.service.ts:63-81 | after fan-out the post is in the full first page of the author and of each follower |
| TimelineFeed.EntryShowsPost | src/modules/timeline/services/timeline.service.ts:25-42 | a user with an entry for a stored post sees the post on the full first page |
| TimelineFeed.FanOutReachesNoOneElse | src/modules/timeline/services/timeline.service.ts:63-81 | a user who neither follows the author nor is the author, and had no entry for the post, sees it on no page after the fan-out |
| TimelineFeed.DeletedPostLeavesFeeds | src/modules/timeline/services/timeline.service.ts:38-42 | once the post is deleted, no home-timeline page contains it |
| Gateway.RoomOf | src/modules/websocket/websocket.gateway.ts:111 | the room name is the prefix `user:` followed by the user id |
| Gateway.RoomOfInjective | src/modules/websocket/websocket.gateway.ts:78 | different users have different rooms, so a notification reaches only its user's sockets |
| Gateway.ChooseToken | src/modules/websocket/websocket.gateway.ts:47-51 | a non-empty `auth.token` string wins; otherwise a non-empty `query.token` string; otherwise no token |
| Gateway.Admit | src/modules/websocket/websocket.gateway.ts:47-71 | no token, a failed check, a payload without a non-empty `sub`, or admission with the payload's `sub` and `username` |
| Gateway.AddSocket | src/modules/websocket/websocket.gateway.ts:73-76 | the user's set gains the socket, created if absent; other users are untouched; no empty set appears |
| Gateway.RemoveSocket | src/modules/websocket/websocket.gateway.ts:97-103 | the socket leaves the user's set; the user is dropped exactly when the set becomes empty; other users are untouched |
| Gateway.ConnectThenDisconnect | src/modules/websocket/websocket.gateway.ts:73-102 | connecting a new socket and disconnecting it restores the registry |
| Gateway.OnlineCountAfterConnect | src/modules/websocket/websocket.gateway.ts:138-140 | a connection adds an online user exactly when it is the user's first socket |
| Gateway.OnlineCountAfterDisconnect | src/modules/websocket/websocket.gateway.ts:138-140 | a disconnection removes an online user exactly when it closes the last socket |
| Gateway.WebSocketGateway.constructor | src/modules/websocket/websocket.gateway.ts:38 | the registry starts empty |
| Gateway.Client.constructor | src/modules/websocket/websocket.gateway.ts:45 | a new socket is connected, has no user, room or message |
| Gateway.Client.Disconnect | src/modules/websocket/websocket.gateway.ts:55 | the socket is no longer connected, and nothing else about it changes |
| Gateway.Client.Join | src/modules/websocket/websocket.gateway.ts:78 | the socket's rooms gain the room |
| Gateway.Client.Emit | src/modules/websocket/websocket.gateway.ts:84-88 | the socket's inbox gains the message, last |
| Gateway.WebSocketGateway.HandleConnection | src/modules/websocket/websocket.gateway.ts:45-93 | an admitted socket is registered under its user, joins `user:<id>` and gets one `connected` event with the user id; any other socket is disconnected and the registry unchanged |
| Gateway.WebSocketGateway.HandleDisconnect | src/modules/websocket/websocket.gateway.ts:95-108 | a socket with a user id is unregistered as RemoveSocket says; one without changes nothing; no empty set remains |
| Gateway.WebSocketGateway.NotifyNewPost | src/modules/websocket/websocket.gateway.ts:110-115 | one `new-post` message to the user's room |
| Gateway.WebSocketGateway.NotifyLike | src/modules/websocket/websocket.gateway.ts:117-122 | one `post-liked` message to the user's room |
| Gateway.WebSocketGateway.NotifyMention | src/modules/websocket/websocket.gateway.ts:124-129 | one `mentioned` message to the user's room |
| Gateway.WebSocketGateway.NotifyFollow | src/modules/websocket/websocket.gateway.ts:131-136 | one `new-follower` message to the user's room |
| Gateway.WebSocketGateway.GetOnlineUsersCount | src/modules/websocket/websocket.gateway.ts:138-140 | the number of users with at least one registered socket |
| Store.FollowCounterDeltaKeepsOthers | src/modules/follows/services/follows.service.ts:51-54 | a follow-counter update keeps user ids unique and `postsCount` exact |
| Store.PostsCounterDeltaKeepsOthers | src/modules/posts/services/posts.service.ts:64 | a `postsCount` update keeps user ids unique and the follow counters exact |
| Store.FollowKeepsUserInvariants | src/modules/follows/services/follows.service.ts:46-54 | a follow keeps the user invariants |
| Store.UnfollowKeepsUserInvariants | src/modules/follows/services/follows.service.ts:81-93 | an unfollow keeps the user invariants |
| Store.ProfileUpdateKeepsUserInvariants | src/modules/users/services/users.service.ts:54-59 | a profile update keeps the user invariants |
| Store.PostCounterDeltaKeepsUserInvariants | src/modules/posts/services/posts.service.ts:146-148 | a post-counter update keeps the user invariants |
| Store.CreateKeepsUserInvariants | src/modules/posts/services/posts.service.ts:52-64 | storing a post and raising `postsCount` keeps the user invariants |
| Store.DeleteKeepsUserInvariants | src/modules/posts/services/posts.service.ts:184-186 | deleting a post and lowering `postsCount` keeps the user invariants |
| Store.Database.constructor | src/modules/follows/schema/follow.schema.ts:17 | an empty store satisfies the invariant |
| UsersService.UpdateProfile | src/modules/users/services/users.service.ts:50-62 | with no record for the id it returns null and changes nothing; otherwise only that record changes, as ApplyProfileUpdate says, and is returned; deleted records are updated too |
| TimelineService.FanOutPostToFollowers | src/modules/timeline/services/timeline.service.ts:63-81 | appends exactly the fan-out batch for the current followers; nothing stored before changes |
| FollowsService.FollowUser | src/modules/follows/services/follows.service.ts:20-66 | NotFound for an unknown username, then BadRequest for self-follow, then "Already following" for an existing edge, each changing nothing; otherwise one edge added, both counters +1, and a `new-follower` notification exactly when the follower is a live user |
| FollowsService.UnfollowUser | src/modules/follows/services/follows.service.ts:68-96 | NotFound for an unknown username; "not following" without an edge, changing nothing; otherwise that edge removed, both counters -1, and the pair no longer followed |
| PostsService.MentionUserIds | src/modules/posts/services/posts.service.ts:46-50 | the ids of the live users named by a mention, and only such ids |
| PostsService.Create | src/modules/posts/services/posts.service.ts:23-73 | a reply to a missing post gives NotFound and changes nothing; invalid content gives a validation failure after the reply count was raised; otherwise the stored post has the extracted mentions and hashtags, zero counters, the reply fields, and `postsCount` +1 and the fan-out follow |
| PostsService.LikePost | src/modules/posts/services/posts.service.ts:126-151 | NotFound for a missing post; "Already liked" changing nothing; otherwise one like added and `likesCount` +1 |
| PostsService.UnlikePost | src/modules/posts/services/posts.service.ts:153-171 | "Like not found" changing nothing; otherwise the like removed and `likesCount` -1 |
| PostsService.DeletePost | src/modules/posts/services/posts.service.ts:173-189 | NotFound for a missing post, then Forbidden for another author, each changing nothing; otherwise the post removed, its author's `postsCount` -1, and no post with the id remains |

## Left out

- The BullMQ producer, processor and queue (retries, backoff, the failed-job set): library behaviour. Post creation does not use them.
- Concurrency: `Promise.all` and the fire-and-forget fan-out are modelled as sequential steps that complete, and a failure of the fan-out is not modelled.
- Store and transport failures, and the exceptions `new Types.ObjectId(...)` throws on a malformed id: ids are plain strings here.
- `populate` joins, `select('-password')` projections and `.lean()`: they shape the returned documents, not which documents are returned.
- Mongoose `timestamps`: the `createdAt` of a document is the `now` parameter of the operation that stores it. All entries of one fan-out get the same time.
- Media, repost and view fields of posts, and the `password` and other schema fields of users.
- `users.create` and `posts.findById`: they are outside the modelled core.
- The JWT library: `verify` is a parameter. A `sub` claim that is not a string is not modelled.
- `console` logging.
- The socket.io transport: `client.disconnect()`, `client.join()` and `client.emit()` set a flag, add a room or record a message on the `Client` object. `server.to(room).emit()` records the emission in the gateway's `sent` list.
- UserDirectory.WithCounterDelta: the six counter helpers and `findByUsernames` are called by the services but are not part of this model. They are taken to be the `$inc` by ±1 and the live-username lookup their names describe.
- UsersService.UpdateProfile: updates carry the five profile fields only. Arbitrary keys in a `Record<string, unknown>` update and `runValidation` are not modelled.
- PostsService.Create: the id and creation time the store assigns are the `freshId` and `now` parameters, and `freshId` is required to be unused. Of the schema's validators, only those on `content` are modelled: required, and at most 280 UTF-16 code units. The request DTO's `MaxLength(280)` runs before the service and is not modelled, so content of more than 280 characters, which the controller turns away, reaches the service's schema check here.
- Common.SortNewestFirst: it fixes one order for equal timestamps. Nothing proved about it depends on that order, because the store gives none.
