/** The collaborative-editing server: connection authentication, the
    registry of editing rooms, the handlers of `join-room`, `text-update`,
    `leave-room` and `disconnect`, and the `save-chapter` autosave. Each
    handler is a transition of the registry that also yields the messages it
    sends, each with a symbolic recipient. */
module CollabServer {
  import opened Wrappers
  import opened JsText
  import opened Documents
  import opened Store
  import C = ChapterModel
  import ChapterController

  type ConnId = string
  type RoomId = string

  // ---------------------------------------------------------------------
  // Authentication
  // ---------------------------------------------------------------------

  /** The identity claims a verified token may carry, each possibly
      missing: a top-level `id`, a top-level `userId`, and the `id` nested
      under `user`. */
  datatype Claims = Claims(id: Option<UserId>, userId: Option<UserId>, userField: Option<UserId>)

  /** The payload the `/api/auth` register and login endpoints sign:
      `{ userId }`. */
  function AuthIssuedClaims(user: UserId): Claims {
    Claims(None, Some(user), None)
  }

  /** The payload the `/api/users` register and login endpoints sign:
      `{ user: { id } }`. */
  function UsersIssuedClaims(user: UserId): Claims {
    Claims(None, None, Some(user))
  }

  /** Whether `claims` is a payload the site signs for `user`, from either
      pair of endpoints. */
  predicate IssuedFor(claims: Claims, user: UserId) {
    claims == AuthIssuedClaims(user) || claims == UsersIssuedClaims(user)
  }

  /** An admitted connection and the identity the token carried. */
  datatype Connection = Connection(conn: ConnId, userId: Option<UserId>)

  /** The connection middleware: a missing or empty token is refused, and so
      is one `verify` rejects (an invalid signature, an expired token, any
      error it throws); otherwise the connection is admitted with the token's
      `id` as its identity. `verify` stands for `jwt.verify` with the
      server's secret. */
  function Authenticate(conn: ConnId, token: Option<string>, verify: string -> Option<Claims>): (r: Option<Connection>)
    ensures r.Some? <==> Truthy(token) && verify(token.value).Some?
    ensures r.Some? ==> r.value.conn == conn && r.value.userId == verify(token.value).value.id
  {
    if !Truthy(token) then None
    else match verify(token.value)
      case None => None
      case Some(claims) => Some(Connection(conn, claims.id))
  }

  /** As written, a token the site itself issued, by either pair of
      endpoints, admits the connection with no identity, so every autosave of
      an existing chapter by it is refused. */
  lemma IssuedTokenHasNoIdentity(conn: ConnId, token: string, verify: string -> Option<Claims>, user: UserId)
    requires token != "" && verify(token).Some? && IssuedFor(verify(token).value, user)
    ensures Authenticate(conn, Some(token), verify) == Some(Connection(conn, None))
    ensures forall db: Db, req: SaveRequest, now: int :: req.chapterId in db.chapters ==>
              SaveChapter(db, Connection(conn, None), req, now).out[0].event.SaveError?
  {
  }

  /** The middleware as evidently intended: the identity is the `userId`
      claim when present, and otherwise the nested `user.id` claim, so the
      tokens of both pairs of endpoints identify their user. */
  function AuthenticateCorrected(conn: ConnId, token: Option<string>, verify: string -> Option<Claims>): (r: Option<Connection>)
    ensures r.Some? <==> Truthy(token) && verify(token.value).Some?
    ensures r.Some? ==> r.value.conn == conn
    ensures r.Some? && verify(token.value).value.userId.Some? ==> r.value.userId == verify(token.value).value.userId
    ensures r.Some? && verify(token.value).value.userId.None? ==> r.value.userId == verify(token.value).value.userField
    ensures forall u :: Truthy(token) && verify(token.value).Some? && IssuedFor(verify(token.value).value, u) ==>
              r == Some(Connection(conn, Some(u)))
  {
    if !Truthy(token) then None
    else match verify(token.value)
      case None => None
      case Some(claims) =>
        Some(Connection(conn, if claims.userId.Some? then claims.userId else claims.userField))
  }

  // ---------------------------------------------------------------------
  // The room registry
  // ---------------------------------------------------------------------

  /** A room: the connections in it and the last text sent to it. */
  datatype Room = Room(users: set<ConnId>, lastContent: string)

  /** The `rooms` Map: its entries, and the order its `forEach` visits them
      (insertion order). */
  datatype Registry = Registry(order: seq<RoomId>, rooms: map<RoomId, Room>)

  const EmptyRegistry: Registry := Registry([], map[])

  predicate Distinct(xs: seq<RoomId>) {
    forall i, j :: 0 <= i < j < |xs| ==> xs[i] != xs[j]
  }

  /** Removing a room from a list without repeats leaves none. */
  lemma {:induction false} WithoutKeepsDistinct(xs: seq<RoomId>, x: RoomId)
    requires Distinct(xs)
    ensures Distinct(Without(xs, x))
  {
    if xs != [] {
      DropHeadDistinct(xs);
      WithoutKeepsDistinct(xs[1..], x);
      var rest := Without(xs[1..], x);
      if xs[0] != x {
        assert xs[0] !in xs[1..];
        assert xs[0] !in rest;
        assert Without(xs, x) == [xs[0]] + rest;
      }
    }
  }

  /** The registry invariant: `order` lists each room once, and no room is
      kept once its last connection has gone. */
  ghost predicate Valid(reg: Registry) {
    && Distinct(reg.order)
    && (forall r :: r in reg.order <==> r in reg.rooms)
    && (forall r :: r in reg.rooms ==> reg.rooms[r].users != {})
  }

  /** Room `r` is the same in both registries: present in both with equal
      contents, or absent from both. */
  ghost predicate SameRoom(a: Registry, b: Registry, r: RoomId) {
    (r in a.rooms <==> r in b.rooms) && (r in a.rooms ==> a.rooms[r] == b.rooms[r])
  }

  // ---------------------------------------------------------------------
  // Messages
  // ---------------------------------------------------------------------

  /** `socket.emit` answers the sender alone; `socket.to(room).emit` reaches
      every connection in the room except the sender. */
  datatype Recipient = ToSender(conn: ConnId) | OthersIn(room: RoomId, except: ConnId)

  datatype SaveErrorReason = ChapterMissing | NotAuthor | TryAgainLater

  /** The outbound events. */
  datatype Event =
    | InitContent(text: string)
    | UserConnected(userId: ConnId, userCount: nat)
    | UserDisconnected(userId: ConnId, userCount: nat)
    | TextUpdated(text: string, cursorPosition: Option<int>, userId: ConnId)
    | SaveSuccess(chapterId: ChapterId, updatedAt: int)
    | SaveError(chapterId: ChapterId, reason: SaveErrorReason)

  datatype Message = Message(to: Recipient, event: Event)

  /** The registry after a handler ran, and what it sent. */
  datatype Step = Step(registry: Registry, out: seq<Message>)

  /** The connections a message reaches once the handler has run. The
      transport's rooms hold exactly the registry's members: both gain a
      connection on join and lose it on leave and on disconnect. */
  function Audience(reg: Registry, to: Recipient): (r: set<ConnId>)
    ensures to.OthersIn? ==> to.except !in r
    ensures to.ToSender? ==> r == {to.conn}
  {
    match to
    case ToSender(c) => {c}
    case OthersIn(room, c) => (if room in reg.rooms then reg.rooms[room].users else {}) - {c}
  }

  // ---------------------------------------------------------------------
  // join-room
  // ---------------------------------------------------------------------

  /** `join-room`: the room is created empty when absent, the connection is
      added, the last content (if any) goes to the joiner alone, and the
      others hear the new member count. The connection stays in every other
      room it joined before. */
  function Join(reg: Registry, s: ConnId, r: RoomId): (st: Step)
    ensures r in st.registry.rooms && s in st.registry.rooms[r].users
    ensures r !in reg.rooms ==> st.registry.rooms[r] == Room({s}, "")
    ensures r in reg.rooms ==> st.registry.rooms[r] == reg.rooms[r].(users := reg.rooms[r].users + {s})
    ensures forall q :: q != r ==> SameRoom(reg, st.registry, q)
    ensures Valid(reg) ==> Valid(st.registry)
    ensures var content := if r in reg.rooms then reg.rooms[r].lastContent else "";
            && |st.out| == (if content == "" then 1 else 2)
            && (content != "" ==> st.out[0] == Message(ToSender(s), InitContent(content)))
            && st.out[|st.out| - 1] == Message(OthersIn(r, s), UserConnected(s, |st.registry.rooms[r].users|))
  {
    var room := if r in reg.rooms then reg.rooms[r] else Room({}, "");
    var order := if r in reg.rooms then reg.order else reg.order + [r];
    var joined := room.(users := room.users + {s});
    var registry := Registry(order, reg.rooms[r := joined]);
    var init := if room.lastContent != "" then [Message(ToSender(s), InitContent(room.lastContent))] else [];
    Step(registry, init + [Message(OthersIn(r, s), UserConnected(s, |joined.users|))])
  }

  /** The joiner learns the room's content only from `init-content`, exactly
      once when there is content and never otherwise; `user-connected`
      reaches exactly the members who were there before, with a count that
      includes the joiner. */
  lemma JoinNotifies(reg: Registry, s: ConnId, r: RoomId)
    ensures var st := Join(reg, s, r);
            var before := if r in reg.rooms then reg.rooms[r].users else {};
            var note := st.out[|st.out| - 1];
            && Audience(st.registry, note.to) == before - {s}
            && note.event.userCount == |before - {s}| + 1
            && (forall k :: 0 <= k < |st.out| && st.out[k].event.InitContent? ==> Audience(st.registry, st.out[k].to) == {s})
  {
    var before := if r in reg.rooms then reg.rooms[r].users else {};
    assert before + {s} == (before - {s}) + {s};
  }

  // ---------------------------------------------------------------------
  // text-update
  // ---------------------------------------------------------------------

  /** `text-update`: an existing room's content becomes the text (last write
      wins: no merge, no check that the sender is a member); an unknown room
      is left alone. The text goes to the others in the room and never back
      to the sender. */
  function TextUpdate(reg: Registry, s: ConnId, r: RoomId, text: string, cursor: Option<int>): (st: Step)
    ensures r in reg.rooms ==> st.registry == Registry(reg.order, reg.rooms[r := reg.rooms[r].(lastContent := text)])
    ensures r !in reg.rooms ==> st.registry == reg
    ensures st.out == [Message(OthersIn(r, s), TextUpdated(text, cursor, s))]
    ensures s !in Audience(st.registry, st.out[0].to)
    ensures Valid(reg) ==> Valid(st.registry)
  {
    var registry := if r in reg.rooms then Registry(reg.order, reg.rooms[r := reg.rooms[r].(lastContent := text)]) else reg;
    Step(registry, [Message(OthersIn(r, s), TextUpdated(text, cursor, s))])
  }

  /** Two updates in a row leave exactly what the second alone would have
      left: the first text is lost, not merged. */
  lemma LastWriteWins(reg: Registry, a: ConnId, b: ConnId, r: RoomId, t1: string, t2: string, c1: Option<int>, c2: Option<int>)
    ensures TextUpdate(TextUpdate(reg, a, r, t1, c1).registry, b, r, t2, c2).registry == TextUpdate(reg, b, r, t2, c2).registry
    ensures r in reg.rooms ==> TextUpdate(TextUpdate(reg, a, r, t1, c1).registry, b, r, t2, c2).registry.rooms[r].lastContent == t2
  {
  }

  // ---------------------------------------------------------------------
  // leave-room and disconnect
  // ---------------------------------------------------------------------

  /** `handleLeaveRoom`: an unknown room is a no-op. Otherwise the connection
      is removed (a no-op when absent), the others hear the remaining count,
      and the room is deleted when nobody is left. No other room changes. */
  function Leave(reg: Registry, s: ConnId, r: RoomId): (st: Step)
    ensures r !in reg.rooms ==> st == Step(reg, [])
    ensures r in reg.rooms ==> st.out == [Message(OthersIn(r, s), UserDisconnected(s, |reg.rooms[r].users - {s}|))]
    ensures r in reg.rooms ==> (r in st.registry.rooms <==> reg.rooms[r].users - {s} != {})
    ensures r in reg.rooms && r in st.registry.rooms ==> st.registry.rooms[r] == reg.rooms[r].(users := reg.rooms[r].users - {s})
    ensures r in st.registry.rooms ==> s !in st.registry.rooms[r].users || r !in reg.rooms
    ensures forall q :: q != r ==> SameRoom(reg, st.registry, q)
    ensures Valid(reg) ==> Valid(st.registry)
  {
    if r !in reg.rooms then Step(reg, [])
    else
      var room := reg.rooms[r];
      var users := room.users - {s};
      var note := [Message(OthersIn(r, s), UserDisconnected(s, |users|))];
      if users == {} then
        assert Valid(reg) ==> Distinct(Without(reg.order, r)) by {
          if Valid(reg) { WithoutKeepsDistinct(reg.order, r); }
        }
        Step(Registry(Without(reg.order, r), reg.rooms - {r}), note)
      else Step(Registry(reg.order, reg.rooms[r := room.(users := users)]), note)
  }

  /** The reported count is the number of connections the notice reaches. */
  lemma LeaveCountIsAudience(reg: Registry, s: ConnId, r: RoomId)
    requires r in reg.rooms
    ensures var st := Leave(reg, s, r);
            st.out[0].event.userCount == |Audience(st.registry, st.out[0].to)|
  {
  }

  /** The `user-disconnected` notices a disconnect sends, computed from the
      registry as it was before: one per room of `scan` holding `s`, in scan
      order. */
  function Farewells(reg: Registry, s: ConnId, scan: seq<RoomId>): (r: seq<Message>)
    ensures |r| <= |scan|
    ensures forall k :: 0 <= k < |r| ==> r[k].to.OthersIn? && r[k].to.except == s && r[k].to.room in scan
                                         && r[k].to.room in reg.rooms && s in reg.rooms[r[k].to.room].users
    decreases |scan|
  {
    if scan == [] then []
    else
      var q := scan[0];
      var rest := Farewells(reg, s, scan[1..]);
      if q in reg.rooms && s in reg.rooms[q].users then
        [Message(OthersIn(q, s), UserDisconnected(s, |reg.rooms[q].users - {s}|))] + rest
      else rest
  }

  /** The `forEach` of the disconnect handler over the rooms in `scan`,
      leaving each room that still holds the connection. */
  function DisconnectScan(reg: Registry, s: ConnId, scan: seq<RoomId>): (r: Step)
    ensures |r.out| <= |scan|
    ensures forall k :: 0 <= k < |r.out| ==>
              r.out[k].to.OthersIn? && r.out[k].to.except == s && r.out[k].to.room in scan
              && r.out[k].event.UserDisconnected? && r.out[k].event.userId == s
    ensures forall q :: q in r.registry.rooms ==> q in reg.rooms
    decreases |scan|
  {
    if scan == [] then Step(reg, [])
    else
      var q := scan[0];
      var first := if q in reg.rooms && s in reg.rooms[q].users then Leave(reg, s, q) else Step(reg, []);
      var rest := DisconnectScan(first.registry, s, scan[1..]);
      Step(rest.registry, first.out + rest.out)
  }


  /** Room `q` after `s` left it, as `handleLeaveRoom` leaves it. */
  ghost predicate LeftRoom(a: Registry, b: Registry, s: ConnId, q: RoomId)
    requires q in a.rooms
  {
    && (q in b.rooms <==> a.rooms[q].users - {s} != {})
    && (q in b.rooms ==> b.rooms[q] == a.rooms[q].(users := a.rooms[q].users - {s}))
  }

  lemma {:induction false} ScanKeepsValid(reg: Registry, s: ConnId, scan: seq<RoomId>)
    requires Valid(reg)
    ensures Valid(DisconnectScan(reg, s, scan).registry)
    decreases |scan|
  {
    if scan != [] {
      var q := scan[0];
      var first := if q in reg.rooms && s in reg.rooms[q].users then Leave(reg, s, q) else Step(reg, []);
      ScanKeepsValid(first.registry, s, scan[1..]);
    }
  }

  /** A room the scan does not visit is untouched. */
  lemma {:induction false} ScanSkipsRoom(reg: Registry, s: ConnId, scan: seq<RoomId>, q: RoomId)
    requires q !in scan
    ensures SameRoom(reg, DisconnectScan(reg, s, scan).registry, q)
    decreases |scan|
  {
    if scan != [] {
      var p := scan[0];
      var first := if p in reg.rooms && s in reg.rooms[p].users then Leave(reg, s, p) else Step(reg, []);
      assert q != p && q !in scan[1..];
      ScanSkipsRoom(first.registry, s, scan[1..], q);
    }
  }

  /** A room the scan visits once is left exactly when it held the
      connection. */
  lemma {:induction false} ScanVisitsRoom(reg: Registry, s: ConnId, scan: seq<RoomId>, q: RoomId)
    requires q in scan
    requires Distinct(scan)
    ensures var after := DisconnectScan(reg, s, scan).registry;
            && (q in reg.rooms && s !in reg.rooms[q].users ==> SameRoom(reg, after, q))
            && (q in reg.rooms && s in reg.rooms[q].users ==> LeftRoom(reg, after, s, q))
            && (q !in reg.rooms ==> q !in after.rooms)
    decreases |scan|
  {
    var p := scan[0];
    var first := if p in reg.rooms && s in reg.rooms[p].users then Leave(reg, s, p) else Step(reg, []);
    if p == q {
      assert q !in scan[1..];
      ScanSkipsRoom(first.registry, s, scan[1..], q);
    } else {
      DropHeadDistinct(scan);
      assert q in scan[1..];
      ScanVisitsRoom(first.registry, s, scan[1..], q);
    }
  }

  lemma DropHeadDistinct(scan: seq<RoomId>)
    requires scan != []
    requires Distinct(scan)
    ensures Distinct(scan[1..])
    ensures scan[0] !in scan[1..]
  {
    forall i, j | 0 <= i < j < |scan[1..]| ensures scan[1..][i] != scan[1..][j] {
      assert scan[1..][i] == scan[i + 1] && scan[1..][j] == scan[j + 1];
    }
  }

  /** The notices of the scan are those computed from the registry before
      it: a room not yet visited is unchanged when its turn comes. */
  lemma {:induction false} ScanSendsFarewells(reg: Registry, s: ConnId, scan: seq<RoomId>)
    requires Distinct(scan)
    ensures DisconnectScan(reg, s, scan).out == Farewells(reg, s, scan)
    decreases |scan|
  {
    if scan != [] {
      var q := scan[0];
      var first := if q in reg.rooms && s in reg.rooms[q].users then Leave(reg, s, q) else Step(reg, []);
      DropHeadDistinct(scan);
      ScanSendsFarewells(first.registry, s, scan[1..]);
      forall x | x in scan[1..] ensures SameRoom(reg, first.registry, x) {
        var j :| 0 <= j < |scan[1..]| && scan[1..][j] == x;
        assert scan[j + 1] == x && x != q;
      }
      FarewellsIgnoreOtherRooms(reg, first.registry, s, scan[1..]);
    }
  }

  /** The notices depend only on the rooms scanned. */
  lemma {:induction false} FarewellsIgnoreOtherRooms(a: Registry, b: Registry, s: ConnId, scan: seq<RoomId>)
    requires forall q :: q in scan ==> SameRoom(a, b, q)
    ensures Farewells(a, s, scan) == Farewells(b, s, scan)
    decreases |scan|
  {
    if scan != [] {
      assert scan[0] in scan;
      assert forall q :: q in scan[1..] ==> q in scan;
      FarewellsIgnoreOtherRooms(a, b, s, scan[1..]);
    }
  }

  /** `disconnect`: visits every room in Map order. Afterwards no room
      holds the connection; every room that did not hold it is untouched;
      every room that did has lost exactly that connection and is gone if it
      became empty; one `user-disconnected` goes to each room that held it,
      in Map order; the registry stays valid. */
  function Disconnect(reg: Registry, s: ConnId): (st: Step)
    ensures Valid(reg) ==> Valid(st.registry)
    ensures Valid(reg) ==> forall q :: q in st.registry.rooms ==> s !in st.registry.rooms[q].users
    ensures Valid(reg) ==> forall q :: q in reg.rooms && s !in reg.rooms[q].users ==> SameRoom(reg, st.registry, q)
    ensures Valid(reg) ==> forall q :: q in reg.rooms && s in reg.rooms[q].users ==> LeftRoom(reg, st.registry, s, q)
    ensures forall q :: q !in reg.rooms ==> q !in st.registry.rooms
    ensures Valid(reg) ==> st.out == Farewells(reg, s, reg.order)
  {
    var st := DisconnectScan(reg, s, reg.order);
    assert Valid(reg) ==> Valid(st.registry) && st.out == Farewells(reg, s, reg.order) by {
      if Valid(reg) {
        ScanKeepsValid(reg, s, reg.order);
        ScanSendsFarewells(reg, s, reg.order);
      }
    }
    assert Valid(reg) ==>
             && (forall q :: q in reg.rooms && s !in reg.rooms[q].users ==> SameRoom(reg, st.registry, q))
             && (forall q :: q in reg.rooms && s in reg.rooms[q].users ==> LeftRoom(reg, st.registry, s, q)) by {
      if Valid(reg) {
        forall q | q in reg.rooms
          ensures (s !in reg.rooms[q].users ==> SameRoom(reg, st.registry, q))
          ensures (s in reg.rooms[q].users ==> LeftRoom(reg, st.registry, s, q))
        {
          ScanVisitsRoom(reg, s, reg.order, q);
        }
      }
    }
    st
  }

  /** Two editors join a fresh room; the first's "Hello" reaches only the
      second, the second's "Hello world" reaches only the first, and the room
      keeps "Hello world" (the first text is overwritten, not merged). */
  lemma TwoEditorsScenario(a: ConnId, b: ConnId, room: RoomId)
    requires a != b
    ensures var s1 := Join(EmptyRegistry, a, room);
            var s2 := Join(s1.registry, b, room);
            var s3 := TextUpdate(s2.registry, a, room, "Hello", None);
            var s4 := TextUpdate(s3.registry, b, room, "Hello world", None);
            && s1.out == [Message(OthersIn(room, a), UserConnected(a, 1))]
            && s2.out == [Message(OthersIn(room, b), UserConnected(b, 2))]
            && s3.out == [Message(OthersIn(room, a), TextUpdated("Hello", None, a))]
            && Audience(s3.registry, s3.out[0].to) == {b}
            && s4.out == [Message(OthersIn(room, b), TextUpdated("Hello world", None, b))]
            && Audience(s4.registry, s4.out[0].to) == {a}
            && s4.registry == Registry([room], map[room := Room({a, b}, "Hello world")])
  {
    var s1 := Join(EmptyRegistry, a, room);
    var r1 := Registry([room], map[room := Room({a}, "")]);
    assert s1.registry == r1;
    var s2 := Join(r1, b, room);
    var r2 := Registry([room], map[room := Room({a, b}, "")]);
    assert {a} + {b} == {a, b};
    assert s2.registry == r2;
    var s3 := TextUpdate(r2, a, room, "Hello", None);
    var r3 := Registry([room], map[room := Room({a, b}, "Hello")]);
    assert s3.registry == r3;
    assert Audience(r3, OthersIn(room, a)) == {b} by {
      assert {a, b} - {a} == {b};
    }
    var s4 := TextUpdate(r3, b, room, "Hello world", None);
    var r4 := Registry([room], map[room := Room({a, b}, "Hello world")]);
    assert s4.registry == r4;
    assert Audience(r4, OthersIn(room, b)) == {a} by {
      assert {a, b} - {b} == {a};
    }
  }

  /** A late joiner of that room is sent "Hello world" alone, and when the
      first editor disconnects the two left hear a count of two and the room
      stays. */
  lemma LateJoinerScenario(a: ConnId, b: ConnId, c: ConnId, room: RoomId)
    requires a != b && b != c && a != c
    ensures var reg := Registry([room], map[room := Room({a, b}, "Hello world")]);
            var s5 := Join(reg, c, room);
            var s6 := Disconnect(s5.registry, a);
            && s5.out == [Message(ToSender(c), InitContent("Hello world")), Message(OthersIn(room, c), UserConnected(c, 3))]
            && Audience(s5.registry, s5.out[1].to) == {a, b}
            && s6.out == [Message(OthersIn(room, a), UserDisconnected(a, 2))]
            && s6.registry == Registry([room], map[room := Room({b, c}, "Hello world")])
  {
    var reg := Registry([room], map[room := Room({a, b}, "Hello world")]);
    var s5 := Join(reg, c, room);
    assert {a, b} + {c} == {a, b, c};
    assert s5.registry == Registry([room], map[room := Room({a, b, c}, "Hello world")]);
    assert {a, b, c} - {a} == {b, c} && {a, b, c} - {c} == {a, b};
    var left := Leave(s5.registry, a, room);
    assert left.registry == Registry([room], map[room := Room({b, c}, "Hello world")]);
    assert [room][1..] == [];
    assert left.out + [] == left.out;
    assert DisconnectScan(s5.registry, a, [room]) == Step(left.registry, left.out);
  }

  // ---------------------------------------------------------------------
  // save-chapter
  // ---------------------------------------------------------------------

  /** The `save-chapter` payload. */
  datatype SaveRequest = SaveRequest(chapterId: ChapterId, fields: C.ChapterFields)

  /** The store after an autosave, and the replies it sent. */
  datatype SaveOutcome = SaveOutcome(db: Db, out: seq<Message>)

  /** `save-chapter`: look the chapter up, check that the connection's
      identity is the author of the chapter's novel, merge the fields and
      save. Every outcome is one reply to the requester alone; nothing is
      broadcast. A chapter whose novel is gone, and a save the document layer
      refuses, both end in the generic failure. */
  function SaveChapter(db: Db, c: Connection, req: SaveRequest, now: int): (r: SaveOutcome)
    ensures |r.out| == 1 && r.out[0].to == ToSender(c.conn)
    ensures r.out[0].event.SaveSuccess? || r.out[0].event.SaveError?
    ensures r.out[0].event.chapterId == req.chapterId
    ensures req.chapterId !in db.chapters ==> r == SaveOutcome(db, [Message(ToSender(c.conn), SaveError(req.chapterId, ChapterMissing))])
    ensures (req.chapterId in db.chapters && db.chapters[req.chapterId].novel in db.novels
             && c.userId != Some(db.novels[db.chapters[req.chapterId].novel].author))
            ==> r == SaveOutcome(db, [Message(ToSender(c.conn), SaveError(req.chapterId, NotAuthor))])
    ensures r.out[0].event.SaveError? ==> r.db == db
    ensures r.out[0].event.SaveSuccess? ==>
              var before := db.chapters[req.chapterId];
              && req.chapterId in db.chapters && before.novel in db.novels
              && c.userId == Some(db.novels[before.novel].author)
              && r.out[0].event.updatedAt == now
              && r.db.novels == db.novels
              && r.db.chapters == db.chapters[req.chapterId := C.Merge(before, req.fields).(updatedAt := now)]
    ensures (req.chapterId in db.chapters && db.chapters[req.chapterId].novel in db.novels
             && c.userId == Some(db.novels[db.chapters[req.chapterId].novel].author)) ==>
              var merged := C.Merge(db.chapters[req.chapterId], req.fields);
              (r.out[0].event.SaveSuccess? <==> C.Valid(merged) && !C.NumberTaken(db.chapters, req.chapterId, merged.novel, merged.chapterNumber))
  {
    var id := req.chapterId;
    var reply := (e: Event) => [Message(ToSender(c.conn), e)];
    match LookupChapter(db, id)
    case NoChapter => SaveOutcome(db, reply(SaveError(id, ChapterMissing)))
    case NoNovel(_) => SaveOutcome(db, reply(SaveError(id, TryAgainLater)))
    case Found(chapter, novel) =>
      if c.userId != Some(novel.author) then SaveOutcome(db, reply(SaveError(id, NotAuthor)))
      else match C.Save(db.chapters, id, C.Merge(chapter, req.fields), now)
        case Err(_) => SaveOutcome(db, reply(SaveError(id, TryAgainLater)))
        case Ok(chapters) => SaveOutcome(db.(chapters := chapters), reply(SaveSuccess(id, chapters[id].updatedAt)))
  }

  /** The autosave writes exactly what the HTTP `updateChapter` writes for
      the same author, and succeeds exactly when it does. */
  lemma AutosaveMatchesUpdate(db: Db, c: Connection, user: UserId, req: SaveRequest, now: int)
    requires c.userId == Some(user)
    ensures var saved := SaveChapter(db, c, req, now);
            var updated := ChapterController.UpdateChapter(db, user, req.chapterId, req.fields, now);
            && saved.db == updated.db
            && (saved.out[0].event.SaveSuccess? <==> updated.response.Ok?)
  {
  }

  /** An autosave leaves a consistent store consistent. */
  lemma SaveChapterKeepsConsistent(db: Db, c: Connection, req: SaveRequest, now: int)
    requires Consistent(db)
    ensures Consistent(SaveChapter(db, c, req, now).db)
  {
    var r := SaveChapter(db, c, req, now);
    if r.db != db {
      var merged := C.Merge(db.chapters[req.chapterId], req.fields);
      assert C.Save(db.chapters, req.chapterId, merged, now).Ok?;
      ChapterSaveKeepsConsistent(db, req.chapterId, merged, now);
    }
  }

  /** With the corrected middleware, a token either pair of endpoints issued
      to the author admits a connection whose autosave of a chapter of the
      author's novel goes through, whenever the merged chapter is valid and
      its number is free. */
  lemma AutosaveSucceeds(db: Db, conn: ConnId, token: string, verify: string -> Option<Claims>,
                         user: UserId, req: SaveRequest, now: int)
    requires token != "" && verify(token).Some? && IssuedFor(verify(token).value, user)
    requires req.chapterId in db.chapters && db.chapters[req.chapterId].novel in db.novels
    requires db.novels[db.chapters[req.chapterId].novel].author == user
    requires var merged := C.Merge(db.chapters[req.chapterId], req.fields);
             C.Valid(merged) && !C.NumberTaken(db.chapters, req.chapterId, merged.novel, merged.chapterNumber)
    ensures AuthenticateCorrected(conn, Some(token), verify) == Some(Connection(conn, Some(user)))
    ensures SaveChapter(db, Connection(conn, Some(user)), req, now).out[0].event.SaveSuccess?
    ensures SaveChapter(db, Connection(conn, Some(user)), req, now).db
            == db.(chapters := db.chapters[req.chapterId := C.Merge(db.chapters[req.chapterId], req.fields).(updatedAt := now)])
  {
  }
}
