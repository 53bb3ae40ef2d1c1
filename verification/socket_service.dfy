/** The client's session wrapper around its socket: connection state, the
    room it is in, the outbound events each call emits, the registry of
    event handlers and the listeners attached to the live socket, and the
    module-level singleton. */
module SocketService {
  import opened Wrappers

  type RoomId = string

  /** A callback, identified as `===` identifies functions. */
  type Callback = nat

  /** A listener on the socket: one the wrapper installs for itself
      (`connect`, `connect_error`, `disconnect` logging) or a wrapper around
      a registered callback. */
  datatype Listener = Builtin | User(cb: Callback)

  /** The live socket: its listeners per event, in attachment order. */
  datatype Socket = Socket(listeners: map<string, seq<Listener>>)

  /** What the wrapper sends over the socket. `Hangup` is
      `socket.disconnect()`. */
  datatype Outbound =
    | JoinRoomMsg(roomId: RoomId)
    | LeaveRoomMsg(roomId: RoomId)
    | TextUpdateMsg(roomId: RoomId, text: string, cursorPosition: Option<int>)
    | CustomMsg(event: string, data: string)
    | Hangup

  datatype Options = Options(serverUrl: string)

  /** The wrapper's fields. */
  datatype Service = Service(
    serverUrl: string,
    authToken: string,
    socket: Option<Socket>,
    currentRoom: Option<RoomId>,
    handlers: map<string, seq<Callback>>)

  /** The errors the wrapper throws. */
  datatype ClientError = NotConnected | NotConnectedOrNoRoom | NotInitialized

  /** The wrapper after a call, and the events the call emitted. */
  datatype Call = Call(service: Service, out: seq<Outbound>)

  /** `new SocketService(options)`: not connected, in no room, with no
      callbacks and an empty token. */
  function NewService(opts: Options): (r: Service)
    ensures r.serverUrl == opts.serverUrl && r.authToken == ""
    ensures r.socket.None? && !InRoom(r)
    ensures forall e :: Registered(r, e) == []
  {
    Service(opts.serverUrl, "", None, None, map[])
  }

  /** `setAuthToken(token)`: only the next `connect` sends the new token;
      a live socket keeps the handshake it was opened with. */
  function SetAuthToken(svc: Service, token: string): (r: Service)
    ensures r.authToken == token
    ensures r.(authToken := svc.authToken) == svc
  {
    svc.(authToken := token)
  }

  /** `this.currentRoomId` is truthy: set and not "". */
  predicate InRoom(svc: Service) {
    svc.currentRoom.Some? && svc.currentRoom.value != ""
  }

  // ---------------------------------------------------------------------
  // Handler registry and socket listeners
  // ---------------------------------------------------------------------

  /** The registered callbacks a list of listeners invokes, in order. */
  function UserCallbacks(ls: seq<Listener>): (r: seq<Callback>)
    ensures |r| <= |ls|
  {
    if ls == [] then []
    else (if ls[0].User? then [ls[0].cb] else []) + UserCallbacks(ls[1..])
  }

  function Wrap(cbs: seq<Callback>): (r: seq<Listener>)
    ensures |r| == |cbs| && forall k :: 0 <= k < |cbs| ==> r[k] == User(cbs[k])
  {
    seq(|cbs|, k requires 0 <= k < |cbs| => User(cbs[k]))
  }

  function Listeners(s: Socket, e: string): seq<Listener> {
    if e in s.listeners then s.listeners[e] else []
  }

  function Registered(svc: Service, e: string): seq<Callback> {
    if e in svc.handlers then svc.handlers[e] else []
  }

  /** The callbacks the live socket runs when event `e` arrives. */
  function Dispatch(svc: Service, e: string): seq<Callback> {
    if svc.socket.None? then [] else UserCallbacks(Listeners(svc.socket.value, e))
  }

  /** The registry never keeps an event with an empty list. */
  ghost predicate NoEmptyLists(svc: Service) {
    forall e :: e in svc.handlers ==> svc.handlers[e] != []
  }

  /** The live socket runs exactly the registered callbacks of each event, in
      registration order. */
  ghost predicate InSync(svc: Service) {
    svc.socket.Some? ==> forall e :: Dispatch(svc, e) == Registered(svc, e)
  }

  lemma UserCallbacksCons(l: Listener, ls: seq<Listener>)
    ensures UserCallbacks([l] + ls) == (if l.User? then [l.cb] else []) + UserCallbacks(ls)
  {
    assert ([l] + ls)[0] == l && ([l] + ls)[1..] == ls;
  }

  lemma {:induction false} UserCallbacksAppend(a: seq<Listener>, b: seq<Listener>)
    ensures UserCallbacks(a + b) == UserCallbacks(a) + UserCallbacks(b)
  {
    if a == [] {
      assert a + b == b;
    } else {
      var head := if a[0].User? then [a[0].cb] else [];
      assert a + b == [a[0]] + (a[1..] + b);
      UserCallbacksCons(a[0], a[1..] + b);
      UserCallbacksAppend(a[1..], b);
      assert UserCallbacks(a) == head + UserCallbacks(a[1..]);
    }
  }

  lemma {:induction false} UserCallbacksWrap(cbs: seq<Callback>)
    ensures UserCallbacks(Wrap(cbs)) == cbs
  {
    if cbs != [] {
      assert Wrap(cbs)[1..] == Wrap(cbs[1..]);
      UserCallbacksWrap(cbs[1..]);
    }
  }

  // ---------------------------------------------------------------------
  // connect / disconnect
  // ---------------------------------------------------------------------

  /** `connect()`, taken to succeed: a new socket holding the wrapper's own
      `connect` and `connect_error` listeners, every registered callback
      (`setupEventListeners`), then its `disconnect` logger. The server URL
      and token the handshake would use are kept as they were, as is the
      room field; the handshake itself is not modelled. */
  function Connect(svc: Service): (r: Service)
    ensures r.socket.Some? && r.handlers == svc.handlers && r.currentRoom == svc.currentRoom
    ensures r.serverUrl == svc.serverUrl && r.authToken == svc.authToken
    ensures forall e :: e != "connect" && e != "connect_error" && e != "disconnect"
              ==> Listeners(r.socket.value, e) == Wrap(Registered(svc, e))
  {
    var attached := map e | e in svc.handlers :: Wrap(svc.handlers[e]);
    var get := (e: string) => if e in attached then attached[e] else [];
    var listeners := attached["connect" := [Builtin] + get("connect")]
                             ["connect_error" := [Builtin] + get("connect_error")]
                             ["disconnect" := get("disconnect") + [Builtin]];
    svc.(socket := Some(Socket(listeners)))
  }

  /** Right after `connect` the socket runs exactly the registered callbacks,
      including those registered while there was no socket. */
  lemma ConnectSyncs(svc: Service)
    ensures InSync(Connect(svc))
  {
    var r := Connect(svc);
    forall e ensures Dispatch(r, e) == Registered(svc, e) {
      UserCallbacksWrap(Registered(svc, e));
      var w := Wrap(Registered(svc, e));
      if e == "connect" || e == "connect_error" {
        UserCallbacksAppend([Builtin], w);
      } else if e == "disconnect" {
        UserCallbacksAppend(w, [Builtin]);
      }
    }
  }

  /** `disconnect()`: with a socket, hangs up and clears both the socket and
      the room, without emitting `leave-room`; without one, does nothing. */
  function Disconnect(svc: Service): (r: Call)
    ensures svc.socket.None? ==> r == Call(svc, [])
    ensures svc.socket.Some? ==> r.out == [Hangup]
    ensures r.service.socket.None? && (svc.socket.Some? ==> r.service.currentRoom.None?)
    ensures r.service.handlers == svc.handlers
    ensures r.service.serverUrl == svc.serverUrl && r.service.authToken == svc.authToken
    ensures forall k :: 0 <= k < |r.out| ==> !r.out[k].LeaveRoomMsg?
  {
    if svc.socket.None? then Call(svc, [])
    else Call(svc.(socket := None, currentRoom := None), [Hangup])
  }

  // ---------------------------------------------------------------------
  // Rooms and outbound events
  // ---------------------------------------------------------------------

  /** `leaveRoom()`: a no-op without a socket or a room; otherwise emits
      `leave-room` for the current room and forgets it. */
  function LeaveRoom(svc: Service): (r: Call)
    ensures svc.socket.None? || !InRoom(svc) ==> r == Call(svc, [])
    ensures svc.socket.Some? && InRoom(svc) ==>
              r.out == [LeaveRoomMsg(svc.currentRoom.value)] && r.service == svc.(currentRoom := None)
  {
    if svc.socket.None? || !InRoom(svc) then Call(svc, [])
    else Call(svc.(currentRoom := None), [LeaveRoomMsg(svc.currentRoom.value)])
  }

  /** `joinRoom(roomId)`: throws without a socket (nothing changes);
      otherwise leaves the current room first, then emits `join-room` and
      records the new room. */
  function JoinRoom(svc: Service, room: RoomId): (r: Result<Call, ClientError>)
    ensures svc.socket.None? <==> r == Err(NotConnected)
    ensures r.Ok? ==> r.value.service == svc.(currentRoom := Some(room))
    ensures r.Ok? && InRoom(svc) ==> r.value.out == [LeaveRoomMsg(svc.currentRoom.value), JoinRoomMsg(room)]
    ensures r.Ok? && !InRoom(svc) ==> r.value.out == [JoinRoomMsg(room)]
  {
    if svc.socket.None? then Err(NotConnected)
    else
      var left := if InRoom(svc) then LeaveRoom(svc) else Call(svc, []);
      Ok(Call(left.service.(currentRoom := Some(room)), left.out + [JoinRoomMsg(room)]))
  }

  /** Joining then leaving a named room returns the wrapper to no room, and
      the server hears the join and the leave of that same room. */
  lemma JoinThenLeave(svc: Service, room: RoomId)
    requires svc.socket.Some? && room != ""
    ensures var joined := JoinRoom(svc, room).value;
            var left := LeaveRoom(joined.service);
            && left.service == svc.(currentRoom := None)
            && joined.out[|joined.out| - 1] == JoinRoomMsg(room)
            && left.out == [LeaveRoomMsg(room)]
  {
  }

  /** `sendTextUpdate(text, cursorPosition)`: throws unless there is a
      socket and a room; otherwise emits `text-update` for the current
      room. */
  function SendTextUpdate(svc: Service, text: string, cursor: Option<int>): (r: Result<Call, ClientError>)
    ensures svc.socket.None? || !InRoom(svc) <==> r == Err(NotConnectedOrNoRoom)
    ensures r.Ok? ==> r.value == Call(svc, [TextUpdateMsg(svc.currentRoom.value, text, cursor)])
  {
    if svc.socket.None? || !InRoom(svc) then Err(NotConnectedOrNoRoom)
    else Ok(Call(svc, [TextUpdateMsg(svc.currentRoom.value, text, cursor)]))
  }

  /** `emit(event, data)`: throws without a socket; otherwise sends the
      event as given. Autosave requests (`save-chapter`) go out this way. */
  function Emit(svc: Service, event: string, data: string): (r: Result<Call, ClientError>)
    ensures svc.socket.None? <==> r == Err(NotConnected)
    ensures r.Ok? ==> r.value == Call(svc, [CustomMsg(event, data)])
  {
    if svc.socket.None? then Err(NotConnected) else Ok(Call(svc, [CustomMsg(event, data)]))
  }

  // ---------------------------------------------------------------------
  // on / off
  // ---------------------------------------------------------------------

  /** `on(event, callback)`: appends the callback to the event's list and,
      when a socket exists, attaches it at once. */
  function On(svc: Service, e: string, cb: Callback): (r: Service)
    ensures Registered(r, e) == Registered(svc, e) + [cb]
    ensures forall x :: x != e ==> Registered(r, x) == Registered(svc, x)
    ensures r.socket.Some? <==> svc.socket.Some?
    ensures r.socket.Some? ==> Listeners(r.socket.value, e) == Listeners(svc.socket.value, e) + [User(cb)]
    ensures r.socket.Some? ==> forall x :: x != e ==> Listeners(r.socket.value, x) == Listeners(svc.socket.value, x)
    ensures NoEmptyLists(svc) ==> NoEmptyLists(r)
    ensures r.currentRoom == svc.currentRoom
    ensures r.serverUrl == svc.serverUrl && r.authToken == svc.authToken
  {
    var handlers := svc.handlers[e := Registered(svc, e) + [cb]];
    var socket := match svc.socket
      case None => None
      case Some(s) => Some(Socket(s.listeners[e := Listeners(s, e) + [User(cb)]]));
    svc.(handlers := handlers, socket := socket)
  }

  lemma OnKeepsSync(svc: Service, e: string, cb: Callback)
    requires InSync(svc)
    ensures InSync(On(svc, e, cb))
  {
    var r := On(svc, e, cb);
    if r.socket.Some? {
      forall x ensures Dispatch(r, x) == Registered(r, x) {
        if x == e {
          UserCallbacksAppend(Listeners(svc.socket.value, e), [User(cb)]);
        }
      }
    }
  }

  /** A callback registered before `connect` runs once the socket exists,
      after those registered before it. */
  lemma OnBeforeConnect(svc: Service, e: string, cb: Callback)
    requires svc.socket.None?
    ensures Dispatch(Connect(On(svc, e, cb)), e) == Registered(svc, e) + [cb]
  {
    ConnectSyncs(On(svc, e, cb));
  }

  /** `handlers.indexOf(cb)`: the first position of `cb`, or -1. */
  function IndexOf(xs: seq<Callback>, cb: Callback): (i: int)
    ensures -1 <= i < |xs|
    ensures i == -1 <==> cb !in xs
    ensures i >= 0 ==> xs[i] == cb && cb !in xs[..i]
  {
    if xs == [] then -1
    else if xs[0] == cb then 0
    else
      var j := IndexOf(xs[1..], cb);
      assert j >= 0 ==> xs[..j + 1] == [xs[0]] + xs[1..][..j];
      if j == -1 then -1 else j + 1
  }

  /** The list without the first occurrence of `cb`, if any. */
  function RemoveFirst(xs: seq<Callback>, cb: Callback): (r: seq<Callback>)
    ensures cb !in xs ==> r == xs
    ensures cb in xs ==> |r| == |xs| - 1
  {
    if xs == [] then []
    else if xs[0] == cb then xs[1..]
    else [xs[0]] + RemoveFirst(xs[1..], cb)
  }

  lemma RemoveFirstCons(x: Callback, xs: seq<Callback>, cb: Callback)
    ensures RemoveFirst([x] + xs, cb) == if x == cb then xs else [x] + RemoveFirst(xs, cb)
  {
    assert ([x] + xs)[0] == x && ([x] + xs)[1..] == xs;
  }

  /** Removing a present callback drops exactly one copy of it. */
  lemma {:induction false} RemoveFirstCounts(xs: seq<Callback>, cb: Callback)
    requires cb in xs
    ensures multiset(RemoveFirst(xs, cb)) == multiset(xs) - multiset{cb}
  {
    assert xs == [xs[0]] + xs[1..];
    if xs[0] != cb {
      RemoveFirstCounts(xs[1..], cb);
    }
  }

  /** `handlers.splice(handlers.indexOf(cb), 1)` when `cb` is present. */
  function Splice(xs: seq<Callback>, cb: Callback): (r: seq<Callback>)
    ensures cb !in xs ==> r == xs
    ensures cb in xs ==> |r| == |xs| - 1
  {
    var i := IndexOf(xs, cb);
    if i == -1 then xs else xs[..i] + xs[i + 1..]
  }

  /** Splicing at `indexOf` is removing the first occurrence. */
  lemma {:induction false} SpliceRemovesFirst(xs: seq<Callback>, cb: Callback)
    ensures Splice(xs, cb) == RemoveFirst(xs, cb)
  {
    if cb !in xs {
    } else if xs[0] == cb {
      assert IndexOf(xs, cb) == 0;
    } else {
      var tail := xs[1..];
      assert xs == [xs[0]] + tail;
      assert cb in tail;
      SpliceRemovesFirst(tail, cb);
      var j := IndexOf(tail, cb);
      assert IndexOf(xs, cb) == j + 1;
      assert Splice(tail, cb) == tail[..j] + tail[j + 1..];
      assert xs[..j + 1] == [xs[0]] + tail[..j];
      assert xs[j + 2..] == tail[j + 1..];
      RemoveFirstCons(xs[0], tail, cb);
    }
  }

  /** `off(event)` and `off(event, callback)` as written. Without a callback
      the event's list and all its socket listeners go. With one, its first
      occurrence leaves the list; the list is deleted (and the socket's
      listeners for the event removed) once it is empty. */
  function Off(svc: Service, e: string, cb: Option<Callback>): (r: Service)
    ensures cb.None? ==> e !in r.handlers && (r.socket.Some? ==> Listeners(r.socket.value, e) == [])
    ensures cb.Some? && e in svc.handlers && RemoveFirst(svc.handlers[e], cb.value) != [] ==>
              r.handlers == svc.handlers[e := RemoveFirst(svc.handlers[e], cb.value)] && r.socket == svc.socket
    ensures cb.Some? && e in svc.handlers && RemoveFirst(svc.handlers[e], cb.value) == [] ==>
              e !in r.handlers && (r.socket.Some? ==> Listeners(r.socket.value, e) == [])
    ensures cb.Some? && e !in svc.handlers ==> r == svc
    ensures forall x :: x != e ==> Registered(r, x) == Registered(svc, x)
    ensures r.serverUrl == svc.serverUrl && r.authToken == svc.authToken && r.currentRoom == svc.currentRoom
    ensures r.socket.Some? <==> svc.socket.Some?
    ensures forall x :: x != e && r.socket.Some? ==> Listeners(r.socket.value, x) == Listeners(svc.socket.value, x)
    ensures NoEmptyLists(svc) ==> NoEmptyLists(r)
  {
    var dropAll := svc.(handlers := svc.handlers - {e},
                        socket := match svc.socket
                          case None => None
                          case Some(s) => Some(Socket(s.listeners - {e})));
    match cb
    case None => dropAll
    case Some(f) =>
      if e !in svc.handlers then svc
      else
        SpliceRemovesFirst(svc.handlers[e], f);
        var rest := Splice(svc.handlers[e], f);
        if rest == [] then dropAll else svc.(handlers := svc.handlers[e := rest])
  }

  /** `off(event)` keeps the socket in step with the registry. */
  lemma OffAllKeepsSync(svc: Service, e: string)
    requires InSync(svc)
    ensures InSync(Off(svc, e, None))
  {
  }

  /** As written, `off(event, callback)` can leave the socket running a
      callback the registry no longer lists: the socket listener wraps the
      callback, so it cannot be removed while other callbacks remain. */
  lemma OffLeavesCallbackAttached()
    ensures var svc := On(On(Connect(NewService(Options("http://localhost:5000"))), "text-updated", 1), "text-updated", 2);
            var after := Off(svc, "text-updated", Some(1));
            && InSync(svc)
            && Registered(after, "text-updated") == [2]
            && Dispatch(after, "text-updated") == [1, 2]
            && !InSync(after)
  {
    var svc0 := Connect(NewService(Options("http://localhost:5000")));
    ConnectSyncs(NewService(Options("http://localhost:5000")));
    OnKeepsSync(svc0, "text-updated", 1);
    var svc1 := On(svc0, "text-updated", 1);
    OnKeepsSync(svc1, "text-updated", 2);
    var svc := On(svc1, "text-updated", 2);
    assert Dispatch(svc, "text-updated") == [1, 2];
    assert RemoveFirst([1, 2], 1) == [2];
  }

  /** Removes the first listener wrapping `cb`. */
  function RemoveFirstListener(ls: seq<Listener>, cb: Callback): (r: seq<Listener>)
    ensures UserCallbacks(r) == RemoveFirst(UserCallbacks(ls), cb)
  {
    if ls == [] then []
    else
      assert ls == [ls[0]] + ls[1..];
      UserCallbacksCons(ls[0], ls[1..]);
      var tail := UserCallbacks(ls[1..]);
      if ls[0] == User(cb) then
        RemoveFirstCons(cb, tail, cb);
        ls[1..]
      else
        var rest := RemoveFirstListener(ls[1..], cb);
        UserCallbacksCons(ls[0], rest);
        if ls[0].User? then
          assert ls[0].cb != cb;
          RemoveFirstCons(ls[0].cb, tail, cb);
          [ls[0]] + rest
        else
          assert UserCallbacks(ls) == tail && UserCallbacks([ls[0]] + rest) == UserCallbacks(rest);
          [ls[0]] + rest
  }

  /** The socket with the first listener wrapping `cb` taken off event
      `e`. */
  function Detach(sock: Socket, e: string, cb: Callback): (r: Socket)
    ensures UserCallbacks(Listeners(r, e)) == RemoveFirst(UserCallbacks(Listeners(sock, e)), cb)
    ensures forall x :: x != e ==> Listeners(r, x) == Listeners(sock, x)
  {
    Socket(sock.listeners[e := RemoveFirstListener(Listeners(sock, e), cb)])
  }

  /** Detaching the callback the registry just dropped keeps the two in
      step. */
  lemma DetachKeepsSync(svc: Service, e: string, cb: Callback)
    requires InSync(svc) && svc.socket.Some? && e in svc.handlers
    ensures var after := svc.(handlers := svc.handlers[e := RemoveFirst(svc.handlers[e], cb)],
                              socket := Some(Detach(svc.socket.value, e, cb)));
            InSync(after)
  {
    var after := svc.(handlers := svc.handlers[e := RemoveFirst(svc.handlers[e], cb)],
                      socket := Some(Detach(svc.socket.value, e, cb)));
    forall x ensures Dispatch(after, x) == Registered(after, x) {
      assert Dispatch(svc, x) == Registered(svc, x);
    }
  }

  /** `off(event, callback)` as evidently intended: the callback's first
      listener also leaves the live socket. */
  function OffCorrected(svc: Service, e: string, cb: Option<Callback>): (r: Service)
    ensures r.handlers == Off(svc, e, cb).handlers
    ensures r.serverUrl == svc.serverUrl && r.authToken == svc.authToken && r.currentRoom == svc.currentRoom
    ensures r.socket.Some? <==> svc.socket.Some?
    ensures forall x :: x != e && r.socket.Some? ==> Listeners(r.socket.value, x) == Listeners(svc.socket.value, x)
    ensures NoEmptyLists(svc) ==> NoEmptyLists(r)
    ensures InSync(svc) ==> InSync(r)
  {
    var r := Off(svc, e, cb);
    if cb.Some? && e in svc.handlers && RemoveFirst(svc.handlers[e], cb.value) != [] && svc.socket.Some? then
      var fixed := r.(socket := Some(Detach(svc.socket.value, e, cb.value)));
      assert InSync(svc) ==> InSync(fixed) by {
        if InSync(svc) {
          DetachKeepsSync(svc, e, cb.value);
        }
      }
      fixed
    else r
  }

  // ---------------------------------------------------------------------
  // The singleton
  // ---------------------------------------------------------------------

  /** The module-level `instance`, and the instance a call handed out. */
  datatype Created = Created(slot: Option<Service>, service: Service)

  /** `createSocketService(options)`: builds the instance on the first call
      only; later calls return it and ignore their options. */
  function CreateSocketService(slot: Option<Service>, opts: Options): (r: Created)
    ensures slot.Some? ==> r == Created(slot, slot.value)
    ensures slot.None? ==> r.slot == Some(r.service) && r.service.serverUrl == opts.serverUrl
                           && r.service.socket.None? && r.service.currentRoom.None? && r.service.handlers == map[]
  {
    if slot.Some? then Created(slot, slot.value) else Created(Some(NewService(opts)), NewService(opts))
  }

  /** `getSocketService()`: throws before the first creation. */
  function GetSocketService(slot: Option<Service>): (r: Result<Service, ClientError>)
    ensures slot.None? <==> r == Err(NotInitialized)
    ensures slot.Some? ==> r == Ok(slot.value)
  {
    if slot.None? then Err(NotInitialized) else Ok(slot.value)
  }

  /** Every later creation and every lookup yields the instance the first
      creation made, whatever options the later calls pass. */
  lemma SingletonStable(slot: Option<Service>, first: Options, later: Options)
    ensures var c1 := CreateSocketService(slot, first);
            var c2 := CreateSocketService(c1.slot, later);
            && c2.service == c1.service && c2.slot == c1.slot
            && GetSocketService(c2.slot) == Ok(c1.service)
  {
  }
}
