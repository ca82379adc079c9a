/** The user collection and the read side of the users service: soft-delete
    aware lookups, the `$inc` counter updates the other services call, and the
    field-wise `$set` of a profile update. The collection is a sequence in the
    store's natural order, so "the first match" is what `findOne` returns. */
module UserDirectory {
  import opened Common

  datatype User = User(
    id: UserId,
    username: string,
    email: string,
    displayName: string,
    bio: string,
    profileImage: string,
    location: string,
    website: string,
    followersCount: int,
    followingCount: int,
    postsCount: int,
    isDeleted: bool)

  /** The `_id` index: no two records share an id. */
  ghost predicate UniqueUserIds(users: seq<User>)
  {
    forall i, j :: 0 <= i < j < |users| ==> users[i].id != users[j].id
  }

  /** Index of the first record (in natural order) that satisfies `query`. */
  function FirstMatch(users: seq<User>, query: User -> bool): (r: Option<nat>)
    ensures r.Some? ==> r.value < |users| && query(users[r.value])
    ensures r.Some? ==> forall j :: 0 <= j < r.value ==> !query(users[j])
    ensures r.None? ==> forall j :: 0 <= j < |users| ==> !query(users[j])
  {
    if |users| == 0 then None
    else if query(users[0]) then Some(0)
    else match FirstMatch(users[1..], query)
      case None => None
      case Some(k) => Some(k + 1)
  }

  /** `findById`: the record with this id, or nothing when there is none or
      it is soft-deleted. */
  function FindById(users: seq<User>, id: UserId): (r: Option<User>)
    requires UniqueUserIds(users)
    ensures r.Some? <==> exists i :: 0 <= i < |users| && users[i].id == id && !users[i].isDeleted
    ensures r.Some? ==> r.value in users && r.value.id == id && !r.value.isDeleted
  {
    match FirstMatch(users, (u: User) => u.id == id)
    case None => None
    case Some(k) => if users[k].isDeleted then None else Some(users[k])
  }

  /** `findOne({ username, isDeleted: false })`. */
  function FindByUsername(users: seq<User>, username: string): (r: Option<User>)
    ensures r.Some? <==> exists i :: 0 <= i < |users| && users[i].username == username && !users[i].isDeleted
    ensures r.Some? ==> r.value in users && r.value.username == username && !r.value.isDeleted
  {
    match FirstMatch(users, (u: User) => u.username == username && !u.isDeleted)
    case None => None
    case Some(k) => Some(users[k])
  }

  /** `findOne({ email, isDeleted: false })`. */
  function FindByEmail(users: seq<User>, email: string): (r: Option<User>)
    ensures r.Some? <==> exists i :: 0 <= i < |users| && users[i].email == email && !users[i].isDeleted
    ensures r.Some? ==> r.value in users && r.value.email == email && !r.value.isDeleted
  {
    match FirstMatch(users, (u: User) => u.email == email && !u.isDeleted)
    case None => None
    case Some(k) => Some(users[k])
  }

  /** `findOne({ $or: [{ username }, { email }], isDeleted: false })`: the
      first live record matching either field. */
  function FindByUsernameOrEmail(users: seq<User>, key: string): (r: Option<User>)
    ensures r.Some? <==> exists i :: 0 <= i < |users| && (users[i].username == key || users[i].email == key) && !users[i].isDeleted
    ensures r.Some? ==> r.value in users && (r.value.username == key || r.value.email == key) && !r.value.isDeleted
    ensures FindByUsername(users, key).Some? ==> r.Some?
    ensures FindByEmail(users, key).Some? ==> r.Some?
  {
    match FirstMatch(users, (u: User) => (u.username == key || u.email == key) && !u.isDeleted)
    case None => None
    case Some(k) => Some(users[k])
  }

  /** `findByUsernames` (called by posts.service.ts but not shown there),
      taken to be `find({ username: { $in: usernames }, isDeleted: false })`:
      the live records whose username is listed, each once, in natural order. */
  function FindByUsernames(users: seq<User>, usernames: seq<string>): (r: seq<User>)
    ensures forall u :: u in r <==> u in users && u.username in usernames && !u.isDeleted
    ensures |r| <= |users|
  {
    if |users| == 0 then []
    else
      var rest := FindByUsernames(users[1..], usernames);
      assert forall u :: u in users <==> u == users[0] || u in users[1..];
      if users[0].username in usernames && !users[0].isDeleted then [users[0]] + rest else rest
  }

  /** Looking up no usernames finds no users. */
  lemma {:induction false} NoUsernamesFindNoUsers(users: seq<User>)
    ensures FindByUsernames(users, []) == []
  {
    if |users| > 0 {
      NoUsernamesFindNoUsers(users[1..]);
    }
  }

  /** The ids of a list of records, in order (`users.map((u) => u._id)`). */
  function UserIds(users: seq<User>): (r: seq<UserId>)
    ensures |r| == |users|
    ensures forall i :: 0 <= i < |users| ==> r[i] == users[i].id
  {
    seq(|users|, i requires 0 <= i < |users| => users[i].id)
  }

  /** The three denormalised counters on a user record. */
  datatype Counter = Followers | Following | Posts

  function CounterOf(u: User, c: Counter): int
  {
    match c
    case Followers => u.followersCount
    case Following => u.followingCount
    case Posts => u.postsCount
  }

  function WithCounter(u: User, c: Counter, value: int): User
  {
    match c
    case Followers => u.(followersCount := value)
    case Following => u.(followingCount := value)
    case Posts => u.(postsCount := value)
  }

  /** `$inc: { <counter>: delta }` on the record with this id: that record's
      counter moves by `delta` and nothing else anywhere changes. This is the
      behaviour assumed for the increment/decrement helpers that the users
      service is called with but does not show. */
  function WithCounterDelta(users: seq<User>, id: UserId, c: Counter, delta: int): (r: seq<User>)
    ensures |r| == |users|
    ensures forall i :: 0 <= i < |users| && users[i].id != id ==> r[i] == users[i]
    ensures forall i :: 0 <= i < |users| && users[i].id == id ==>
              CounterOf(r[i], c) == CounterOf(users[i], c) + delta && r[i] == WithCounter(users[i], c, CounterOf(r[i], c))
    ensures forall i :: 0 <= i < |users| ==> r[i].id == users[i].id
  {
    seq(|users|, i requires 0 <= i < |users| =>
      if users[i].id == id then WithCounter(users[i], c, CounterOf(users[i], c) + delta) else users[i])
  }

  /** Moving a counter by `delta` and then by `-delta` restores the records. */
  lemma CounterDeltaCancels(users: seq<User>, id: UserId, c: Counter, delta: int)
    ensures WithCounterDelta(WithCounterDelta(users, id, c, delta), id, c, -delta) == users
  {
    var r := WithCounterDelta(WithCounterDelta(users, id, c, delta), id, c, -delta);
    forall i | 0 <= i < |users| ensures r[i] == users[i] {
      if users[i].id == id {
        match c
        case Followers =>
        case Following =>
        case Posts =>
      }
    }
  }

  /** Updates of two different counters may be applied in either order. */
  lemma CounterDeltasCommute(users: seq<User>, a: UserId, ca: Counter, da: int, b: UserId, cb: Counter, db: int)
    requires ca != cb
    ensures WithCounterDelta(WithCounterDelta(users, a, ca, da), b, cb, db) ==
            WithCounterDelta(WithCounterDelta(users, b, cb, db), a, ca, da)
  {
    var r1 := WithCounterDelta(WithCounterDelta(users, a, ca, da), b, cb, db);
    var r2 := WithCounterDelta(WithCounterDelta(users, b, cb, db), a, ca, da);
    forall i | 0 <= i < |users| ensures r1[i] == r2[i] {
      match ca
      case Followers =>
      case Following =>
      case Posts =>
    }
  }

  /** The fields a profile update may carry; an absent field is `None`. */
  datatype ProfileUpdate = ProfileUpdate(
    displayName: Option<string>,
    bio: Option<string>,
    profileImage: Option<string>,
    location: Option<string>,
    website: Option<string>)

  function Pick(update: Option<string>, current: string): string
  {
    if update.Some? then update.value else current
  }

  /** `$set: updateData`: every supplied field overwrites the stored one. */
  function ApplyProfileUpdate(u: User, upd: ProfileUpdate): (r: User)
    ensures r.displayName == Pick(upd.displayName, u.displayName)
    ensures r.bio == Pick(upd.bio, u.bio)
    ensures r.profileImage == Pick(upd.profileImage, u.profileImage)
    ensures r.location == Pick(upd.location, u.location)
    ensures r.website == Pick(upd.website, u.website)
    ensures r.id == u.id && r.username == u.username && r.email == u.email && r.isDeleted == u.isDeleted
    ensures forall c :: CounterOf(r, c) == CounterOf(u, c)
  {
    u.(displayName := Pick(upd.displayName, u.displayName),
       bio := Pick(upd.bio, u.bio),
       profileImage := Pick(upd.profileImage, u.profileImage),
       location := Pick(upd.location, u.location),
       website := Pick(upd.website, u.website))
  }

  /** An update that supplies no field changes nothing. */
  lemma EmptyUpdateIsIdentity(u: User)
    ensures ApplyProfileUpdate(u, ProfileUpdate(None, None, None, None, None)) == u
  {
  }
}
