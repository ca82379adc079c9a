/** The socket.io gateway: it authenticates a connecting socket from the
    token in its handshake, keeps the registry of open sockets per user, puts
    every socket in its user's room `user:<id>`, and pushes notifications to
    such rooms. The token check is a parameter (`verify`), which answers
    `None` where the real check throws. */
module Gateway {
  import opened Common

  /** A handshake field as received: a string, or anything else (absent,
      an array, a number). */
  datatype HandshakeValue = Text(s: string) | NotText

  /** The claims a valid token carries; either may be missing. */
  datatype JwtPayload = JwtPayload(sub: Option<string>, username: Option<string>)

  /** The profile fields a new-follower notification carries. */
  datatype FollowerCard = FollowerCard(username: string, displayName: string, profileImage: string)

  datatype Payload =
    | Connected(message: string, userId: UserId, username: Option<string>)
    | NewPost(postId: PostId)
    | PostLiked(postId: PostId, liker: UserId)
    | Mentioned(postId: PostId, author: UserId)
    | NewFollower(follower: FollowerCard)

  /** An event name and its payload; room notifications repeat the name in
      the payload's `type` field, which `name` stands for. */
  datatype Message = Message(name: string, payload: Payload)

  /** A message sent to every socket in a room. */
  datatype Emission = Emission(room: string, message: Message)

  const WelcomeText := "Connected to Twitter Clone WebSocket"

  /** The room of one user's sockets. */
  function RoomOf(userId: UserId): (r: string)
    ensures |r| == |userId| + 5 && r[..5] == "user:" && r[5..] == userId
  {
    "user:" + userId
  }

  /** Rooms of different users are different, so a notification for one user
      reaches no socket of another. */
  lemma RoomOfInjective(a: UserId, b: UserId)
    requires RoomOf(a) == RoomOf(b)
    ensures a == b
  {
    assert a == RoomOf(a)[5..];
  }

  /** The handshake token: a non-empty `auth.token` string, failing that a
      non-empty `query.token` string, failing that none. */
  function ChooseToken(authToken: HandshakeValue, queryToken: HandshakeValue): (r: Option<string>)
    ensures authToken.Text? && authToken.s != [] ==> r == Some(authToken.s)
    ensures r.Some? ==> r.value != [] && (authToken == Text(r.value) || queryToken == Text(r.value))
    ensures r.None? <==> !(authToken.Text? && authToken.s != []) && !(queryToken.Text? && queryToken.s != [])
  {
    if authToken.Text? && authToken.s != [] then Some(authToken.s)
    else if queryToken.Text? && queryToken.s != [] then Some(queryToken.s)
    else None
  }

  /** How a connection attempt ends. */
  datatype Admission =
    | NoToken
    | Rejected
    | NoSubject(sub: Option<string>, username: Option<string>)
    | Admitted(userId: UserId, username: Option<string>)

  /** The decision `handleConnection` takes: no token, a token the check
      refuses, a token without a non-empty subject, or a user. */
  function Admit(authToken: HandshakeValue, queryToken: HandshakeValue, verify: string -> Option<JwtPayload>): (r: Admission)
    ensures r.NoToken? <==> ChooseToken(authToken, queryToken).None?
    ensures r.Rejected? <==> ChooseToken(authToken, queryToken).Some? && verify(ChooseToken(authToken, queryToken).value).None?
    ensures r.NoSubject? ==> r.sub.None? || r.sub.value == []
    ensures r.NoSubject? ==>
              ChooseToken(authToken, queryToken).Some? &&
              verify(ChooseToken(authToken, queryToken).value) == Some(JwtPayload(r.sub, r.username))
    ensures r.Admitted? ==>
              r.userId != [] && ChooseToken(authToken, queryToken).Some? &&
              verify(ChooseToken(authToken, queryToken).value) == Some(JwtPayload(Some(r.userId), r.username))
  {
    match ChooseToken(authToken, queryToken)
    case None => NoToken
    case Some(token) =>
      match verify(token)
      case None => Rejected
      case Some(payload) =>
        if payload.sub.None? || payload.sub.value == [] then NoSubject(payload.sub, payload.username)
        else Admitted(payload.sub.value, payload.username)
  }

  /** The registry never keeps a user with an empty socket set. */
  ghost predicate NoEmptySocketSets(m: map<UserId, set<SocketId>>)
  {
    forall u :: u in m ==> m[u] != {}
  }

  /** Registers socket `s` for user `u`, creating the user's set if needed. */
  function AddSocket(m: map<UserId, set<SocketId>>, u: UserId, s: SocketId): (r: map<UserId, set<SocketId>>)
    ensures r.Keys == m.Keys + {u}
    ensures r[u] == (if u in m then m[u] else {}) + {s}
    ensures forall v :: v in m && v != u ==> r[v] == m[v]
    ensures NoEmptySocketSets(m) ==> NoEmptySocketSets(r)
  {
    m[u := (if u in m then m[u] else {}) + {s}]
  }

  /** Unregisters socket `s` of user `u`, dropping the user once no socket
      is left. */
  function RemoveSocket(m: map<UserId, set<SocketId>>, u: UserId, s: SocketId): (r: map<UserId, set<SocketId>>)
    ensures forall v :: v in m && v != u ==> v in r && r[v] == m[v]
    ensures u in r <==> u in m && m[u] - {s} != {}
    ensures u in r ==> r[u] == m[u] - {s}
    ensures r.Keys <= m.Keys
    ensures NoEmptySocketSets(m) ==> NoEmptySocketSets(r)
  {
    if u !in m then m
    else if m[u] - {s} == {} then m - {u}
    else m[u := m[u] - {s}]
  }

  /** Disconnecting a socket that connected undoes the registration. */
  lemma ConnectThenDisconnect(m: map<UserId, set<SocketId>>, u: UserId, s: SocketId)
    requires NoEmptySocketSets(m)
    requires u !in m || s !in m[u]
    ensures RemoveSocket(AddSocket(m, u, s), u, s) == m
  {
    var r := RemoveSocket(AddSocket(m, u, s), u, s);
    if u in m {
      assert m[u] + {s} - {s} == m[u];
    }
    assert r.Keys == m.Keys;
  }

  /** A connection adds one online user exactly when it is the user's first
      socket. */
  lemma OnlineCountAfterConnect(m: map<UserId, set<SocketId>>, u: UserId, s: SocketId)
    ensures |AddSocket(m, u, s)| == |m| + (if u in m then 0 else 1)
  {
    var r := AddSocket(m, u, s);
    if u !in m {
      assert r.Keys == m.Keys + {u};
      assert |r.Keys| == |m.Keys| + 1;
    } else {
      assert r.Keys == m.Keys;
    }
  }

  /** A disconnection removes one online user exactly when it closes the
      user's last socket. */
  lemma OnlineCountAfterDisconnect(m: map<UserId, set<SocketId>>, u: UserId, s: SocketId)
    ensures |RemoveSocket(m, u, s)| == |m| - (if u in m && m[u] - {s} == {} then 1 else 0)
  {
    var r := RemoveSocket(m, u, s);
    if u in m && m[u] - {s} == {} {
      assert r.Keys == m.Keys - {u};
    } else {
      assert r.Keys == m.Keys;
    }
  }

  /** A socket as the gateway sees it. */
  class Client {
    const id: SocketId
    var userId: Option<string>
    var username: Option<string>
    var connected: bool
    var rooms: set<string>
    /** Messages emitted to this socket alone. */
    var inbox: seq<Message>

    constructor(id: SocketId)
      ensures this.id == id && userId.None? && username.None?
      ensures connected && rooms == {} && inbox == []
    {
      this.id := id;
      userId := None;
      username := None;
      connected := true;
      rooms := {};
      inbox := [];
    }

    method Disconnect()
      modifies this`connected
      ensures !connected
    {
      connected := false;
    }

    method Join(room: string)
      modifies this`rooms
      ensures rooms == old(rooms) + {room}
    {
      rooms := rooms + {room};
    }

    method Emit(m: Message)
      modifies this`inbox
      ensures inbox == old(inbox) + [m]
    {
      inbox := inbox + [m];
    }
  }

  class WebSocketGateway {
    /** Open sockets per user id. */
    var userSockets: map<UserId, set<SocketId>>
    /** Every room message sent so far, in order. */
    var sent: seq<Emission>

    ghost predicate Valid()
      reads this
    {
      NoEmptySocketSets(userSockets)
    }

    constructor()
      ensures Valid() && userSockets == map[] && sent == []
    {
      userSockets := map[];
      sent := [];
    }

    /** `handleConnection`: an admitted socket is registered under its user,
        joins the user's room and is greeted; any other socket is
        disconnected and the registry is left alone. */
    method HandleConnection(client: Client, authToken: HandshakeValue, queryToken: HandshakeValue,
                            verify: string -> Option<JwtPayload>)
      requires Valid()
      modifies this`userSockets, client`userId, client`username, client`connected, client`rooms, client`inbox
      ensures Valid()
      ensures var a := Admit(authToken, queryToken, verify);
              a.Admitted? ==>
                userSockets == AddSocket(old(userSockets), a.userId, client.id) &&
                client.userId == Some(a.userId) && client.username == a.username &&
                client.connected == old(client.connected) &&
                client.rooms == old(client.rooms) + {RoomOf(a.userId)} &&
                client.inbox == old(client.inbox) + [Message("connected", Connected(WelcomeText, a.userId, a.username))]
      ensures var a := Admit(authToken, queryToken, verify);
              !a.Admitted? ==>
                userSockets == old(userSockets) && !client.connected &&
                client.rooms == old(client.rooms) && client.inbox == old(client.inbox)
      ensures var a := Admit(authToken, queryToken, verify);
              a.NoSubject? ==> client.userId == a.sub && client.username == a.username
      ensures var a := Admit(authToken, queryToken, verify);
              (a.NoToken? || a.Rejected?) ==> client.userId == old(client.userId) && client.username == old(client.username)
    {
      var token := ChooseToken(authToken, queryToken);
      if token.None? {
        client.Disconnect();
        return;
      }
      var verified := verify(token.value);
      if verified.None? {
        client.Disconnect();
        return;
      }
      var payload := verified.value;
      client.userId := payload.sub;
      client.username := payload.username;
      if payload.sub.None? || payload.sub.value == [] {
        client.Disconnect();
        return;
      }
      var uid := payload.sub.value;
      userSockets := AddSocket(userSockets, uid, client.id);
      client.Join(RoomOf(uid));
      client.Emit(Message("connected", Connected(WelcomeText, uid, payload.username)));
    }

    /** `handleDisconnect`: a socket that was admitted leaves the registry. */
    method HandleDisconnect(client: Client)
      requires Valid()
      modifies this`userSockets
      ensures Valid()
      ensures client.userId.Some? && client.userId.value != [] ==>
                userSockets == RemoveSocket(old(userSockets), client.userId.value, client.id)
      ensures !(client.userId.Some? && client.userId.value != []) ==> userSockets == old(userSockets)
    {
      if client.userId.Some? && client.userId.value != [] {
        userSockets := RemoveSocket(userSockets, client.userId.value, client.id);
      }
    }

    method NotifyNewPost(userId: UserId, postId: PostId)
      modifies this`sent
      ensures sent == old(sent) + [Emission(RoomOf(userId), Message("new-post", NewPost(postId)))]
    {
      sent := sent + [Emission(RoomOf(userId), Message("new-post", NewPost(postId)))];
    }

    method NotifyLike(userId: UserId, postId: PostId, liker: UserId)
      modifies this`sent
      ensures sent == old(sent) + [Emission(RoomOf(userId), Message("post-liked", PostLiked(postId, liker)))]
    {
      sent := sent + [Emission(RoomOf(userId), Message("post-liked", PostLiked(postId, liker)))];
    }

    method NotifyMention(userId: UserId, postId: PostId, author: UserId)
      modifies this`sent
      ensures sent == old(sent) + [Emission(RoomOf(userId), Message("mentioned", Mentioned(postId, author)))]
    {
      sent := sent + [Emission(RoomOf(userId), Message("mentioned", Mentioned(postId, author)))];
    }

    method NotifyFollow(userId: UserId, follower: FollowerCard)
      modifies this`sent
      ensures sent == old(sent) + [Emission(RoomOf(userId), Message("new-follower", NewFollower(follower)))]
    {
      sent := sent + [Emission(RoomOf(userId), Message("new-follower", NewFollower(follower)))];
    }

    /** `getOnlineUsersCount`: the number of users with an open socket. */
    method GetOnlineUsersCount() returns (n: nat)
      requires Valid()
      ensures n == |set u | u in userSockets && userSockets[u] != {}|
    {
      assert (set u | u in userSockets && userSockets[u] != {}) == userSockets.Keys;
      n := |userSockets|;
    }
  }
}
