/** The post and like collections and the pure side of the posts service:
    `@mention` and `#hashtag` extraction, post lookups and listings, and the
    invariants that its state changes keep (unique post ids, and the
    denormalised `likesCount` and `postsCount` agreeing with the collections). */
module PostRecords {
  import opened Common
  import opened UserDirectory

  /** A post document (media and repost fields are not modelled). */
  datatype Post = Post(
    id: PostId,
    authorId: UserId,
    content: string,
    mentions: seq<UserId>,
    hashtags: seq<string>,
    likesCount: int,
    repliesCount: int,
    isReply: bool,
    replyToPostId: Option<PostId>,
    replyToUserId: Option<UserId>,
    createdAt: int)

  function PostTime(p: Post): int { p.createdAt }

  /** A like document; the unique index on `(userId, postId)` makes the
      collection a set. */
  datatype Like = Like(userId: UserId, postId: PostId)

  /** The longest post content the schema accepts. */
  const MaxContentLength := 280

  /** The width of one character in the UTF-16 encoding JavaScript strings
      use: a character outside the Basic Multilingual Plane is a surrogate
      pair. */
  function Utf16Width(c: char): nat
  {
    if c as int >= 0x10000 then 2 else 1
  }

  /** A string's JavaScript `length`: the number of UTF-16 code units. */
  function Utf16Length(s: string): (n: nat)
    ensures |s| <= n <= 2 * |s|
    ensures n == 0 <==> |s| == 0
  {
    if |s| == 0 then 0 else Utf16Width(s[0]) + Utf16Length(s[1..])
  }

  /** On text inside the Basic Multilingual Plane, `length` counts characters. */
  lemma {:induction false} BmpLengthIsCharCount(s: string)
    requires forall k :: 0 <= k < |s| ==> s[k] as int < 0x10000
    ensures Utf16Length(s) == |s|
  {
    if |s| > 0 {
      BmpLengthIsCharCount(s[1..]);
    }
  }

  /** `n` characters outside the Basic Multilingual Plane (emoji, say) have
      a `length` of `2 * n`. */
  lemma {:induction false} AstralRunLength(n: nat, c: char)
    requires c as int >= 0x10000
    ensures Utf16Length(seq(n, _ => c)) == 2 * n
  {
    if n > 0 {
      AstralRunLength(n - 1, c);
      assert seq(n, _ => c)[1..] == seq(n - 1, _ => c);
    }
  }

  /** The schema's validators on `content`: required (so not empty) and a
      `length` of at most `MaxContentLength` UTF-16 code units. */
  predicate ContentAccepted(content: string)
  {
    0 < Utf16Length(content) <= MaxContentLength
  }

  /** The schema measures in code units, so 141 emoji, which count as 141
      characters, are already too long a post. */
  lemma AstralContentTooLong(c: char)
    requires c as int >= 0x10000
    ensures |seq(141, _ => c)| <= MaxContentLength
    ensures !ContentAccepted(seq(141, _ => c))
  {
    AstralRunLength(141, c);
  }

  // ---------------------------------------------------------------------------
  // Mention and hashtag extraction: the global regular expressions
  // /@(\w+)/g and /#(\w+)/g, where \w is [A-Za-z0-9_].

  predicate IsWordChar(c: char)
  {
    ('a' <= c <= 'z') || ('A' <= c <= 'Z') || ('0' <= c <= '9') || c == '_'
  }

  predicate IsWord(t: string)
  {
    |t| > 0 && forall k :: 0 <= k < |t| ==> IsWordChar(t[k])
  }

  /** The greedy `\w+`: the longest prefix of word characters. */
  function WordRun(s: string): (r: string)
    ensures |r| <= |s| && r == s[..|r|]
    ensures forall k :: 0 <= k < |r| ==> IsWordChar(r[k])
    ensures |r| == |s| || !IsWordChar(s[|r|])
  {
    if |s| > 0 && IsWordChar(s[0]) then [s[0]] + WordRun(s[1..]) else []
  }

  /** A match of the expression can start here: the sigil followed by a word character. */
  predicate TagStartsAt(s: string, sigil: char)
  {
    |s| >= 2 && s[0] == sigil && IsWordChar(s[1])
  }

  /** The matcher as `String.prototype.match` runs it: try each position in
      turn; after a match, resume right after the matched text. Each match
      is returned without its sigil. */
  function ScanTags(s: string, sigil: char): (r: seq<string>)
    ensures forall k :: 0 <= k < |r| ==> IsWord(r[k])
    decreases |s|
  {
    if |s| == 0 then []
    else if TagStartsAt(s, sigil) then
      var w := WordRun(s[1..]);
      [w] + ScanTags(s[1 + |w|..], sigil)
    else ScanTags(s[1..], sigil)
  }

  /** A reference reading of the same extraction: one tag for every position
      where the sigil is followed by a word character, left to right. */
  function TagsAtEveryStart(s: string, sigil: char): seq<string>
  {
    if |s| == 0 then []
    else (if TagStartsAt(s, sigil) then [WordRun(s[1..])] else []) + TagsAtEveryStart(s[1..], sigil)
  }

  /** No tag starts inside a run of word characters when the sigil is not one. */
  lemma {:induction false} SkipWordRun(s: string, n: nat, sigil: char)
    requires !IsWordChar(sigil)
    requires n <= |s|
    requires forall k :: 0 <= k < n ==> IsWordChar(s[k])
    ensures TagsAtEveryStart(s, sigil) == TagsAtEveryStart(s[n..], sigil)
  {
    if n > 0 {
      assert !TagStartsAt(s, sigil);
      assert s[1..][n - 1..] == s[n..];
      SkipWordRun(s[1..], n - 1, sigil);
    }
  }

  /** Resuming after each match misses nothing: the scan finds a tag at every
      position where the sigil is followed by a word character. */
  lemma {:induction false} ScanFindsEveryStart(s: string, sigil: char)
    requires !IsWordChar(sigil)
    ensures ScanTags(s, sigil) == TagsAtEveryStart(s, sigil)
    decreases |s|
  {
    if |s| > 0 {
      if TagStartsAt(s, sigil) {
        var w := WordRun(s[1..]);
        assert s[1..][|w|..] == s[1 + |w|..];
        SkipWordRun(s[1..], |w|, sigil);
        ScanFindsEveryStart(s[1 + |w|..], sigil);
      } else {
        ScanFindsEveryStart(s[1..], sigil);
      }
    }
  }

  /** There are no tags exactly when no sigil is followed by a word character. */
  lemma {:induction false} NoTagsIffNoStart(s: string, sigil: char)
    ensures TagsAtEveryStart(s, sigil) == [] <==> forall i :: 0 <= i < |s| ==> !TagStartsAt(s[i..], sigil)
    decreases |s|
  {
    if |s| > 0 {
      NoTagsIffNoStart(s[1..], sigil);
      assert s[0..] == s;
      assert forall i :: 1 <= i < |s| ==> s[i..] == s[1..][i - 1..];
    }
  }

  /** `extractMentions(content)`: the names after each `@`, left to right. */
  function ExtractMentions(content: string): (r: seq<string>)
    ensures forall k :: 0 <= k < |r| ==> IsWord(r[k])
    ensures r == TagsAtEveryStart(content, '@')
    ensures r == [] <==> forall i :: 0 <= i < |content| ==> !TagStartsAt(content[i..], '@')
  {
    ScanFindsEveryStart(content, '@');
    NoTagsIffNoStart(content, '@');
    ScanTags(content, '@')
  }

  predicate IsUpper(c: char) { 'A' <= c <= 'Z' }

  predicate IsLower(c: char) { 'a' <= c <= 'z' }

  /** The ASCII upper-case form of a character; any other character is its
      own. */
  function UpperChar(c: char): char
  {
    if IsLower(c) then (c - 'a' + 'A') as char else c
  }

  /** `toLowerCase` on a word: only `A`..`Z` have a lower-case form among
      word characters. The result agrees with the word up to ASCII case,
      has no upper-case letter, and is a word when the input is. */
  function LowerWord(t: string): (r: string)
    ensures |r| == |t|
    ensures forall k :: 0 <= k < |r| ==> !IsUpper(r[k])
    ensures forall k :: 0 <= k < |t| ==> UpperChar(r[k]) == UpperChar(t[k])
    ensures IsWord(t) ==> IsWord(r)
  {
    seq(|t|, k requires 0 <= k < |t| => if IsUpper(t[k]) then (t[k] - 'A' + 'a') as char else t[k])
  }

  /** The two properties of LowerWord fix it: a string of the same length
      with no upper-case letter that agrees with `t` up to case is
      LowerWord(t). So lower-casing is idempotent, too. */
  lemma {:induction false} LowerWordIsUnique(t: string, s: string)
    requires |s| == |t|
    requires forall k :: 0 <= k < |s| ==> !IsUpper(s[k]) && UpperChar(s[k]) == UpperChar(t[k])
    ensures s == LowerWord(t)
    ensures LowerWord(LowerWord(t)) == LowerWord(t)
  {
    var r := LowerWord(t);
    forall k | 0 <= k < |s| ensures s[k] == r[k] {
      assert UpperChar(s[k]) == UpperChar(r[k]);
    }
    var rr := LowerWord(r);
    forall k | 0 <= k < |r| ensures rr[k] == r[k] {
      assert UpperChar(rr[k]) == UpperChar(r[k]);
    }
  }

  function LowerAll(ts: seq<string>): (r: seq<string>)
    ensures |r| == |ts|
    ensures forall k :: 0 <= k < |ts| ==> r[k] == LowerWord(ts[k])
  {
    seq(|ts|, k requires 0 <= k < |ts| => LowerWord(ts[k]))
  }

  /** `extractHashtags(content)`: the tags after each `#`, left to right,
      lower-cased. */
  function ExtractHashtags(content: string): (r: seq<string>)
    ensures r == LowerAll(TagsAtEveryStart(content, '#'))
    ensures forall k :: 0 <= k < |r| ==> IsWord(r[k]) && forall m :: 0 <= m < |r[k]| ==> !IsUpper(r[k][m])
    ensures r == [] <==> forall i :: 0 <= i < |content| ==> !TagStartsAt(content[i..], '#')
  {
    ScanFindsEveryStart(content, '#');
    NoTagsIffNoStart(content, '#');
    LowerAll(ScanTags(content, '#'))
  }

  // ---------------------------------------------------------------------------
  // Lookups and listings.

  /** The `_id` index: no two posts share an id. */
  ghost predicate UniquePostIds(posts: seq<Post>)
  {
    forall i, j :: 0 <= i < j < |posts| ==> posts[i].id != posts[j].id
  }

  /** With unique ids, no post is stored twice. */
  lemma {:induction false} UniqueIdsOccurOnce(posts: seq<Post>)
    requires UniquePostIds(posts)
    ensures forall p :: multiset(posts)[p] <= 1
  {
    if |posts| > 0 {
      var rest := posts[1..];
      assert UniquePostIds(rest) by {
        forall i, j | 0 <= i < j < |rest| ensures rest[i].id != rest[j].id {
          assert rest[i] == posts[i + 1] && rest[j] == posts[j + 1];
        }
      }
      UniqueIdsOccurOnce(rest);
      forall k | 0 <= k < |rest| ensures rest[k] != posts[0] {
        assert rest[k] == posts[k + 1];
      }
      assert posts == [posts[0]] + rest;
    }
  }

  /** Rearranging posts with unique ids keeps the ids unique. */
  lemma PermutationKeepsUniqueIds(a: seq<Post>, b: seq<Post>)
    requires multiset(a) == multiset(b)
    requires UniquePostIds(a)
    ensures UniquePostIds(b)
  {
    UniqueIdsOccurOnce(a);
    forall i, j | 0 <= i < j < |b| ensures b[i].id != b[j].id {
      assert b == b[..j] + [b[j]] + b[j+1..];
      assert b[i] in b[..j];
      assert multiset(b)[b[j]] == multiset(b[..j])[b[j]] + 1 + multiset(b[j+1..])[b[j]];
      assert b[i] != b[j];
      assert b[i] in multiset(a) && b[j] in multiset(a);
      var x :| 0 <= x < |a| && a[x] == b[i];
      var y :| 0 <= y < |a| && a[y] == b[j];
    }
  }

  ghost predicate HasPost(posts: seq<Post>, id: PostId)
  {
    exists i :: 0 <= i < |posts| && posts[i].id == id
  }

  /** `findById(postId)`: the position of the post with this id. */
  function FindPost(posts: seq<Post>, id: PostId): (r: Option<nat>)
    ensures r.Some? ==> r.value < |posts| && posts[r.value].id == id
    ensures r.None? <==> !HasPost(posts, id)
  {
    if |posts| == 0 then None
    else if posts[0].id == id then Some(0)
    else
      match FindPost(posts[1..], id)
      case None =>
        assert forall i :: 1 <= i < |posts| ==> posts[i] == posts[1..][i - 1];
        None
      case Some(k) => Some(k + 1)
  }

  /** `find({ authorId: userId })`: the posts of one author, in natural order. */
  function PostsBy(posts: seq<Post>, userId: UserId): (r: seq<Post>)
    ensures forall p :: p in r <==> p in posts && p.authorId == userId
  {
    if |posts| == 0 then []
    else
      var rest := PostsBy(posts[1..], userId);
      assert forall p :: p in posts <==> p == posts[0] || p in posts[1..];
      if posts[0].authorId == userId then [posts[0]] + rest else rest
  }

  /** `findByUser(userId, page, limit)` (and the identical `getUserPosts` of
      the timeline service): a page of the author's posts, newest first. */
  function FindByUser(posts: seq<Post>, userId: UserId, page: int, limit: int): (r: Result<seq<Post>>)
    ensures r.Failure? <==> Skip(page, limit) < 0
    ensures r.Success? ==> forall p :: p in r.value ==> p in posts && p.authorId == userId
    ensures r.Success? ==> NewestFirst(r.value, PostTime)
    ensures r.Success? && limit > 0 ==> |r.value| <= limit
    ensures r.Success? && page == 1 && limit == 0 ==> forall p :: p in posts && p.authorId == userId ==> p in r.value
    ensures r.Success? ==> NewestFirstPage(r.value, PostsBy(posts, userId), page, limit, PostTime)
  {
    var mine := PostsBy(posts, userId);
    var sorted := SortNewestFirst(mine, PostTime);
    SortKeepsMembers(mine, PostTime);
    var r := Paginate(sorted, page, limit);
    if r.Failure? then r
    else
      assert Paginate(sorted, page, limit) == Success(r.value);
      PageMembers(sorted, page, limit);
      PageOfSortedIsSorted(sorted, page, limit, PostTime);
      r
  }

  /** `findAll(page, limit)`: a page of all posts, newest first. */
  function FindAll(posts: seq<Post>, page: int, limit: int): (r: Result<seq<Post>>)
    ensures r.Failure? <==> Skip(page, limit) < 0
    ensures r.Success? ==> forall p :: p in r.value ==> p in posts
    ensures r.Success? ==> NewestFirst(r.value, PostTime)
    ensures r.Success? && limit > 0 ==> |r.value| <= limit
    ensures r.Success? && page == 1 && limit == 0 ==> multiset(r.value) == multiset(posts)
    ensures r.Success? ==> NewestFirstPage(r.value, posts, page, limit, PostTime)
  {
    var sorted := SortNewestFirst(posts, PostTime);
    SortKeepsMembers(posts, PostTime);
    var r := Paginate(sorted, page, limit);
    if r.Failure? then r
    else
      assert Paginate(sorted, page, limit) == Success(r.value);
      PageMembers(sorted, page, limit);
      PageOfSortedIsSorted(sorted, page, limit, PostTime);
      r
  }

  // ---------------------------------------------------------------------------
  // Counters on posts.

  datatype PostCounter = Likes | Replies

  function PostCounterOf(p: Post, c: PostCounter): int
  {
    match c
    case Likes => p.likesCount
    case Replies => p.repliesCount
  }

  function WithPostCounter(p: Post, c: PostCounter, value: int): Post
  {
    match c
    case Likes => p.(likesCount := value)
    case Replies => p.(repliesCount := value)
  }

  /** `findByIdAndUpdate(postId, { $inc: { <counter>: delta } })`: the post
      with this id has its counter moved by `delta`; a missing post leaves
      the collection as it is. */
  function WithPostCounterDelta(posts: seq<Post>, id: PostId, c: PostCounter, delta: int): (r: seq<Post>)
    ensures |r| == |posts|
    ensures forall i :: 0 <= i < |posts| && posts[i].id != id ==> r[i] == posts[i]
    ensures forall i :: 0 <= i < |posts| && posts[i].id == id ==>
              PostCounterOf(r[i], c) == PostCounterOf(posts[i], c) + delta && r[i] == WithPostCounter(posts[i], c, PostCounterOf(r[i], c))
    ensures !HasPost(posts, id) ==> r == posts
  {
    seq(|posts|, i requires 0 <= i < |posts| =>
      if posts[i].id == id then WithPostCounter(posts[i], c, PostCounterOf(posts[i], c) + delta) else posts[i])
  }

  /** The likes of one post. */
  function LikesOf(likes: set<Like>, postId: PostId): set<Like>
  {
    set l | l in likes && l.postId == postId
  }

  /** Each post's `likesCount` is the number of its likes. */
  ghost predicate LikeCountersAgree(posts: seq<Post>, likes: set<Like>)
  {
    forall i :: 0 <= i < |posts| ==> posts[i].likesCount == |LikesOf(likes, posts[i].id)|
  }

  /** Adding a like that was not there and raising that post's `likesCount`
      keeps every post's count equal to its number of likes. */
  lemma LikeKeepsCountersAgreeing(posts: seq<Post>, likes: set<Like>, l: Like)
    requires LikeCountersAgree(posts, likes)
    requires l !in likes
    ensures LikeCountersAgree(WithPostCounterDelta(posts, l.postId, Likes, 1), likes + {l})
  {
    var posts' := WithPostCounterDelta(posts, l.postId, Likes, 1);
    forall i | 0 <= i < |posts'| ensures posts'[i].likesCount == |LikesOf(likes + {l}, posts'[i].id)| {
      if posts[i].id == l.postId {
        assert LikesOf(likes + {l}, l.postId) == LikesOf(likes, l.postId) + {l};
      } else {
        assert LikesOf(likes + {l}, posts[i].id) == LikesOf(likes, posts[i].id);
      }
    }
  }

  /** Removing a like and lowering that post's `likesCount` keeps every
      post's count equal to its number of likes. */
  lemma UnlikeKeepsCountersAgreeing(posts: seq<Post>, likes: set<Like>, l: Like)
    requires LikeCountersAgree(posts, likes)
    requires l in likes
    ensures LikeCountersAgree(WithPostCounterDelta(posts, l.postId, Likes, -1), likes - {l})
  {
    var posts' := WithPostCounterDelta(posts, l.postId, Likes, -1);
    forall i | 0 <= i < |posts'| ensures posts'[i].likesCount == |LikesOf(likes - {l}, posts'[i].id)| {
      if posts[i].id == l.postId {
        assert LikesOf(likes - {l}, l.postId) == LikesOf(likes, l.postId) - {l};
      } else {
        assert LikesOf(likes - {l}, posts[i].id) == LikesOf(likes, posts[i].id);
      }
    }
  }

  /** The author side of a list of posts. */
  function AuthorColumn(posts: seq<Post>): (r: seq<UserId>)
    ensures |r| == |posts|
    ensures forall i :: 0 <= i < |posts| ==> r[i] == posts[i].authorId
  {
    seq(|posts|, i requires 0 <= i < |posts| => posts[i].authorId)
  }

  /** Each user's `postsCount` is the number of posts it authored. */
  ghost predicate PostsCountersAgree(users: seq<User>, posts: seq<Post>)
  {
    forall i :: 0 <= i < |users| ==> users[i].postsCount == multiset(AuthorColumn(posts))[users[i].id]
  }

  /** Storing a post and raising its author's `postsCount` keeps the counts right. */
  lemma CreateKeepsPostsCountersAgreeing(users: seq<User>, posts: seq<Post>, p: Post)
    requires PostsCountersAgree(users, posts)
    ensures PostsCountersAgree(WithCounterDelta(users, p.authorId, Posts, 1), posts + [p])
  {
    assert AuthorColumn(posts + [p]) == AuthorColumn(posts) + [p.authorId];
    var users' := WithCounterDelta(users, p.authorId, Posts, 1);
    forall i | 0 <= i < |users'| ensures users'[i].postsCount == multiset(AuthorColumn(posts + [p]))[users'[i].id] {
      assert users'[i].id == users[i].id;
    }
  }

  /** Deleting the post at `k` and lowering its author's `postsCount` keeps
      the counts right. */
  lemma DeleteKeepsPostsCountersAgreeing(users: seq<User>, posts: seq<Post>, k: nat)
    requires k < |posts|
    requires PostsCountersAgree(users, posts)
    ensures PostsCountersAgree(WithCounterDelta(users, posts[k].authorId, Posts, -1), RemoveAt(posts, k))
  {
    assert AuthorColumn(RemoveAt(posts, k)) == RemoveAt(AuthorColumn(posts), k);
    var users' := WithCounterDelta(users, posts[k].authorId, Posts, -1);
    forall i | 0 <= i < |users'| ensures users'[i].postsCount == multiset(AuthorColumn(RemoveAt(posts, k)))[users'[i].id] {
      assert users'[i].id == users[i].id;
    }
  }

  // ---------------------------------------------------------------------------
  // Reply counters and the invariants of the post collection.

  /** The reply target of every post, in order. */
  function ReplyColumn(posts: seq<Post>): (r: seq<Option<PostId>>)
    ensures |r| == |posts|
    ensures forall i :: 0 <= i < |posts| ==> r[i] == posts[i].replyToPostId
  {
    seq(|posts|, i requires 0 <= i < |posts| => posts[i].replyToPostId)
  }

  /** Each post's `repliesCount` is at least the number of stored replies to
      it: creating a reply raises the count, deleting a reply leaves it. */
  ghost predicate RepliesCounted(posts: seq<Post>)
  {
    forall i :: 0 <= i < |posts| ==> posts[i].repliesCount >= multiset(ReplyColumn(posts))[Some(posts[i].id)]
  }

  /** What the post and like collections keep across every operation. */
  ghost predicate PostInvariants(posts: seq<Post>, likes: set<Like>)
  {
    UniquePostIds(posts) && LikeCountersAgree(posts, likes) && RepliesCounted(posts)
  }

  /** A new document id: no stored post has it or replies to it, and no
      like names it. */
  ghost predicate FreshPostId(posts: seq<Post>, likes: set<Like>, id: PostId)
  {
    !HasPost(posts, id) && Some(id) !in ReplyColumn(posts) && forall l :: l in likes ==> l.postId != id
  }

  /** Moving a post's `likesCount` touches neither ids nor reply targets. */
  lemma LikesDeltaKeepsIdsAndReplies(posts: seq<Post>, id: PostId, delta: int)
    requires UniquePostIds(posts) && RepliesCounted(posts)
    ensures UniquePostIds(WithPostCounterDelta(posts, id, Likes, delta))
    ensures RepliesCounted(WithPostCounterDelta(posts, id, Likes, delta))
  {
    var r := WithPostCounterDelta(posts, id, Likes, delta);
    assert forall i :: 0 <= i < |posts| ==> r[i].id == posts[i].id && r[i].repliesCount == posts[i].repliesCount;
    assert ReplyColumn(r) == ReplyColumn(posts);
  }

  /** Raising the `repliesCount` of a post keeps the invariants. */
  lemma {:induction false} ReplyCountRaiseKeepsInvariants(posts: seq<Post>, likes: set<Like>, id: PostId)
    requires PostInvariants(posts, likes)
    ensures PostInvariants(WithPostCounterDelta(posts, id, Replies, 1), likes)
  {
    var r := WithPostCounterDelta(posts, id, Replies, 1);
    assert forall i :: 0 <= i < |posts| ==>
      r[i].id == posts[i].id && r[i].likesCount == posts[i].likesCount && r[i].repliesCount >= posts[i].repliesCount;
    assert ReplyColumn(r) == ReplyColumn(posts);
  }

  /** Appending a post whose id no stored post has keeps ids unique. */
  lemma AppendFreshKeepsUniqueIds(posts: seq<Post>, p: Post)
    requires UniquePostIds(posts) && !HasPost(posts, p.id)
    ensures UniquePostIds(posts + [p])
  {
    var after := posts + [p];
    forall i, j | 0 <= i < j < |after| ensures after[i].id != after[j].id {
      if j == |posts| {
        assert after[i] == posts[i];
      }
    }
  }

  /** Appending a post without likes, whose id no like names, keeps every
      `likesCount` equal to the post's number of likes. */
  lemma AppendFreshKeepsLikeCounts(posts: seq<Post>, likes: set<Like>, p: Post)
    requires LikeCountersAgree(posts, likes)
    requires p.likesCount == 0 && forall l :: l in likes ==> l.postId != p.id
    ensures LikeCountersAgree(posts + [p], likes)
  {
    assert LikesOf(likes, p.id) == {};
    var after := posts + [p];
    forall i | 0 <= i < |after| ensures after[i].likesCount == |LikesOf(likes, after[i].id)| {
      if i < |posts| {
        assert after[i] == posts[i];
      }
    }
  }

  /** Raising `repliesCount` of the post with id `id` leaves room for one
      more stored reply to it, and changes no id and no reply target. */
  lemma ReplyRaiseMakesRoom(posts: seq<Post>, id: PostId)
    requires RepliesCounted(posts)
    ensures var r := WithPostCounterDelta(posts, id, Replies, 1);
            ReplyColumn(r) == ReplyColumn(posts) &&
            (forall i :: 0 <= i < |r| ==> r[i].id == posts[i].id) &&
            forall i :: 0 <= i < |r| ==>
              r[i].repliesCount >= multiset(ReplyColumn(r))[Some(r[i].id)] + (if r[i].id == id then 1 else 0)
  {
    var r := WithPostCounterDelta(posts, id, Replies, 1);
    assert forall i :: 0 <= i < |r| ==> r[i].id == posts[i].id && r[i].replyToPostId == posts[i].replyToPostId;
    assert ReplyColumn(r) == ReplyColumn(posts);
  }

  /** Appending a reply (or a top-level post) keeps the reply counts when
      every stored post has room for the replies it gains. */
  lemma AppendKeepsRepliesCounted(base: seq<Post>, p: Post)
    requires p.repliesCount == 0 && Some(p.id) !in ReplyColumn(base) && Some(p.id) != p.replyToPostId
    requires forall i :: 0 <= i < |base| ==>
               base[i].repliesCount >= multiset(ReplyColumn(base))[Some(base[i].id)] + (if p.replyToPostId == Some(base[i].id) then 1 else 0)
    ensures RepliesCounted(base + [p])
  {
    var after := base + [p];
    assert ReplyColumn(after) == ReplyColumn(base) + [p.replyToPostId];
    forall i | 0 <= i < |after|
      ensures after[i].repliesCount >= multiset(ReplyColumn(after))[Some(after[i].id)]
    {
      if i < |base| {
        assert after[i] == base[i];
      }
    }
  }

  /** Storing a new post (with zeroed counters), after raising its reply
      target's `repliesCount` when it is a reply, keeps the invariants. */
  lemma CreateKeepsPostInvariants(posts: seq<Post>, likes: set<Like>, p: Post)
    requires PostInvariants(posts, likes)
    requires FreshPostId(posts, likes, p.id)
    requires p.likesCount == 0 && p.repliesCount == 0
    requires p.replyToPostId.Some? ==> HasPost(posts, p.replyToPostId.value)
    ensures var base := if p.replyToPostId.Some? then WithPostCounterDelta(posts, p.replyToPostId.value, Replies, 1) else posts;
            PostInvariants(base + [p], likes)
  {
    var base := if p.replyToPostId.Some? then WithPostCounterDelta(posts, p.replyToPostId.value, Replies, 1) else posts;
    if p.replyToPostId.Some? {
      ReplyCountRaiseKeepsInvariants(posts, likes, p.replyToPostId.value);
    }
    if p.replyToPostId.Some? {
      ReplyRaiseMakesRoom(posts, p.replyToPostId.value);
    }
    assert |base| == |posts| && forall i :: 0 <= i < |base| ==> base[i].id == posts[i].id;
    assert !HasPost(base, p.id);
    assert Some(p.id) != p.replyToPostId;
    AppendFreshKeepsUniqueIds(base, p);
    AppendFreshKeepsLikeCounts(base, likes, p);
    AppendKeepsRepliesCounted(base, p);
  }

  /** Removing the post at `k` keeps the invariants: the remaining posts keep
      their counters, and a removed reply only lowers its target's count of
      stored replies. */
  lemma DeleteKeepsPostInvariants(posts: seq<Post>, likes: set<Like>, k: nat)
    requires k < |posts|
    requires PostInvariants(posts, likes)
    ensures PostInvariants(RemoveAt(posts, k), likes)
  {
    RemoveAtKeepsUniqueIds(posts, k);
    RemoveAtKeepsRepliesCounted(posts, k);
  }

  lemma {:induction false} RemoveAtKeepsUniqueIds(posts: seq<Post>, k: nat)
    requires k < |posts|
    requires UniquePostIds(posts)
    ensures UniquePostIds(RemoveAt(posts, k))
  {
    var r := RemoveAt(posts, k);
    forall i, j | 0 <= i < j < |r| ensures r[i].id != r[j].id {
      var i' := if i < k then i else i + 1;
      var j' := if j < k then j else j + 1;
      assert r[i] == posts[i'] && r[j] == posts[j'];
    }
  }

  lemma {:induction false} RemoveAtKeepsRepliesCounted(posts: seq<Post>, k: nat)
    requires k < |posts|
    requires RepliesCounted(posts)
    ensures RepliesCounted(RemoveAt(posts, k))
  {
    var r := RemoveAt(posts, k);
    assert ReplyColumn(r) == RemoveAt(ReplyColumn(posts), k);
    forall i | 0 <= i < |r| ensures r[i].repliesCount >= multiset(ReplyColumn(r))[Some(r[i].id)] {
      var j := if i < k then i else i + 1;
      assert r[i] == posts[j];
    }
  }

  /** Unliking right after a like restores both the like set and the
      posts. */
  lemma LikeThenUnlikeRestores(posts: seq<Post>, likes: set<Like>, l: Like)
    requires l !in likes
    ensures likes + {l} - {l} == likes
    ensures WithPostCounterDelta(WithPostCounterDelta(posts, l.postId, Likes, 1), l.postId, Likes, -1) == posts
  {
    var r := WithPostCounterDelta(WithPostCounterDelta(posts, l.postId, Likes, 1), l.postId, Likes, -1);
    forall i | 0 <= i < |posts| ensures r[i] == posts[i] {
    }
  }

  /** With unique ids, the post removed at `k` is no longer found. */
  lemma RemoveAtDropsPost(posts: seq<Post>, k: nat)
    requires k < |posts|
    requires UniquePostIds(posts)
    ensures !HasPost(RemoveAt(posts, k), posts[k].id)
  {
    var r := RemoveAt(posts, k);
    forall i | 0 <= i < |r| ensures r[i].id != posts[k].id {
      var j := if i < k then i else i + 1;
      assert r[i] == posts[j];
    }
  }
}
