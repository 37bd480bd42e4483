/** Presence and routing state of the chat relay, as values.

    The relay keeps two records of who is online: the in-memory socket map
    (username to socket id) and the socketId column of the users table, where
    the empty string means "not connected". Every handler is one atomic step
    on the pair; the findOne answer of the disconnect handler and the success
    of the table writes are inputs, because the database decides them. */
module Presence {

  type Username = string
  type SocketId = string

  /** The socketId stored for a user with no live connection (also the column default). */
  const NotConnected: SocketId := ""

  /** The event name under which a relayed message is emitted. */
  const ReceiveMessage: string := "receive-message"

  datatype Option<T> = None | Some(value: T)

  datatype Result<T, E> = Ok(value: T) | Err(error: E)

  /** One row of the users table, keyed by its unique username. The stored
      password is the bcrypt hash, treated as an opaque string. */
  datatype Row = Row(passwordHash: string, socketId: SocketId)

  /** One emission io.to(room).emit(event, {sender, message, timestamp}). */
  datatype Emit = Emit(room: SocketId, event: string, sender: string, message: string, timestamp: int)

  /** The in-memory socket map together with the users table. */
  datatype State = State(socketMap: map<Username, SocketId>, users: map<Username, Row>)

  /** JavaScript truthiness of a string: only the empty string is falsy. */
  predicate Truthy(s: string) {
    s != ""
  }

  /** A request-body field that is present and truthy: `!field` is false for it. */
  predicate Present(field: Option<string>) {
    field.Some? && Truthy(field.value)
  }

  // ---------------------------------------------------------------------------
  // register-socket

  /** The register-socket handler: `User.update({socketId: sock}, {where: {username}})`
      and then `socketMap[username] = sock`. An update that matches no row changes
      nothing and still lets the map assignment run; an update that throws skips it. */
  function RegisterSocket(st: State, sock: SocketId, username: Username, updateOk: bool): (r: State)
    ensures !updateOk ==> r == st
    ensures updateOk ==> username in r.socketMap && r.socketMap[username] == sock
    ensures updateOk && username in st.users ==>
              username in r.users && r.users[username] == st.users[username].(socketId := sock)
    ensures username !in st.users ==> r.users == st.users
    ensures r.users.Keys == st.users.Keys
    ensures r.socketMap - {username} == st.socketMap - {username}
    ensures r.users - {username} == st.users - {username}
  {
    if !updateOk then st
    else
      var users := if username in st.users
                   then st.users[username := st.users[username].(socketId := sock)]
                   else st.users;
      State(st.socketMap[username := sock], users)
  }

  // ---------------------------------------------------------------------------
  // disconnect

  /** The users whose stored socketId is `sock`: the rows `findOne({where: {socketId: sock}})` may return. */
  function Owners(st: State, sock: SocketId): set<Username> {
    set u | u in st.users && st.users[u].socketId == sock
  }

  /** `found` is an answer findOne may give: some owner of `sock`, or nothing exactly when there is none. */
  predicate FindOneResult(st: State, sock: SocketId, found: Option<Username>) {
    match found
    case None => Owners(st, sock) == {}
    case Some(u) => u in Owners(st, sock)
  }

  /** The disconnect handler, given what findOne returned and whether the
      database calls resolve (`dbOk`). If findOne or the clearing update throws,
      the catch block skips the map deletion and nothing changes. Otherwise the
      found user's socketId is cleared and its map entry deleted; without a
      match nothing changes. */
  function Disconnect(st: State, sock: SocketId, found: Option<Username>, dbOk: bool): (r: State)
    requires dbOk ==> FindOneResult(st, sock, found)
    ensures !dbOk ==> r == st
    ensures found.None? ==> r == st
    ensures dbOk && found.Some? ==>
              var u := found.value;
              && u in st.users && st.users[u].socketId == sock
              && u in r.users && r.users[u] == st.users[u].(socketId := NotConnected)
              && u !in r.socketMap
              && r.users - {u} == st.users - {u}
              && r.socketMap - {u} == st.socketMap - {u}
  {
    if !dbOk then st
    else
      match found
      case None => st
      case Some(u) => State(st.socketMap - {u}, st.users[u := st.users[u].(socketId := NotConnected)])
  }

  // ---------------------------------------------------------------------------
  // send-message

  /** The send-message handler: what it emits for one message. It reads the
      socket map only, never the table. */
  function Route(socketMap: map<Username, SocketId>, sender: string, recipient: Username,
                 message: string, timestamp: int): (out: seq<Emit>)
    ensures |out| <= 1
    ensures |out| == 1 <==> recipient in socketMap && Truthy(socketMap[recipient])
    ensures |out| == 1 ==> out[0] == Emit(socketMap[recipient], ReceiveMessage, sender, message, timestamp)
  {
    if recipient in socketMap && Truthy(socketMap[recipient])
    then [Emit(socketMap[recipient], ReceiveMessage, sender, message, timestamp)]
    else []
  }

  // ---------------------------------------------------------------------------
  // /register

  /** Where the database throws inside the /register try block, if anywhere. */
  datatype Fault = NoFault | LookupFault | InsertFault

  datatype RegisterError =
    | MissingCredentials   // 400 "Username and password are required"
    | UsernameTaken        // 400 "Username already exists"
    | RegistrationFailed   // 500 "Registration failed"
  {
    function Status(): int {
      match this
      case MissingCredentials => 400
      case UsernameTaken => 400
      case RegistrationFailed => 500
    }
  }

  /** The /register endpoint on the users table. `hashed` is the bcrypt hash
      of the password, computed outside the model. On success the new table
      is returned (answered with 201); on an error the table is left as it was. */
  function Register(users: map<Username, Row>, username: Option<string>, password: Option<string>,
                    hashed: string, fault: Fault): (r: Result<map<Username, Row>, RegisterError>)
    ensures r == Err(MissingCredentials) <==> !Present(username) || !Present(password)
    ensures r == Err(UsernameTaken) <==>
              Present(username) && Present(password) && fault != LookupFault && username.value in users
    ensures r.Ok? <==>
              Present(username) && Present(password) && fault == NoFault && username.value !in users
    ensures r.Ok? ==> r.value.Keys == users.Keys + {username.value} && |r.value| == |users| + 1
    ensures r.Ok? ==> r.value[username.value] == Row(hashed, NotConnected)
    ensures r.Ok? ==> r.value - {username.value} == users
  {
    if !Present(username) || !Present(password) then Err(MissingCredentials)
    else if fault == LookupFault then Err(RegistrationFailed)
    else if username.value in users then Err(UsernameTaken)
    else if fault == InsertFault then Err(RegistrationFailed)
    else assert fault == NoFault; Ok(users[username.value := Row(hashed, NotConnected)])
  }

  /** The HTTP status /register answers with. */
  function RegisterStatus(r: Result<map<Username, Row>, RegisterError>): int {
    match r
    case Ok(_) => 201
    case Err(e) => e.Status()
  }

  /** /register answers 201 exactly on success; 400 exactly when a credential is
      missing or empty, or when the lookup resolves and finds the name taken; 500
      exactly when the credentials are present and the lookup throws, or the name
      is new and the insert throws. */
  lemma RegisterStatusCodes(users: map<Username, Row>, username: Option<string>, password: Option<string>,
                            hashed: string, fault: Fault)
    ensures var code := RegisterStatus(Register(users, username, password, hashed, fault));
            && (code == 201 <==> Register(users, username, password, hashed, fault).Ok?)
            && (code == 400 <==> !Present(username) || !Present(password)
                                 || (fault != LookupFault && username.value in users))
            && (code == 500 <==> Present(username) && Present(password)
                                 && (fault == LookupFault || (fault == InsertFault && username.value !in users)))
  {
  }

  // ---------------------------------------------------------------------------
  // Invariant: every connected row is mirrored in the socket map

  /** Every user whose stored socketId is non-empty is bound to that same socket in the map. */
  ghost predicate Mirrored(st: State) {
    forall u :: u in st.users && st.users[u].socketId != NotConnected ==>
      u in st.socketMap && st.socketMap[u] == st.users[u].socketId
  }

  lemma RegisterSocketKeepsMirrored(st: State, sock: SocketId, username: Username, updateOk: bool)
    requires Mirrored(st)
    ensures Mirrored(RegisterSocket(st, sock, username, updateOk))
  {
  }

  lemma DisconnectKeepsMirrored(st: State, sock: SocketId, found: Option<Username>, dbOk: bool)
    requires Mirrored(st)
    requires dbOk ==> FindOneResult(st, sock, found)
    ensures Mirrored(Disconnect(st, sock, found, dbOk))
  {
  }

  lemma RegisterKeepsMirrored(st: State, username: Option<string>, password: Option<string>,
                              hashed: string, fault: Fault)
    requires Mirrored(st)
    ensures var r := Register(st.users, username, password, hashed, fault);
            r.Ok? ==> Mirrored(State(st.socketMap, r.value))
  {
  }

  /** With the invariant, a recipient whose row records a live socket is always reachable. */
  lemma MirroredRecipientIsReached(st: State, sender: string, recipient: Username, message: string, timestamp: int)
    requires Mirrored(st)
    requires recipient in st.users && Truthy(st.users[recipient].socketId)
    ensures Route(st.socketMap, sender, recipient, message, timestamp)
            == [Emit(st.users[recipient].socketId, ReceiveMessage, sender, message, timestamp)]
  {
  }

  // ---------------------------------------------------------------------------
  // Properties of register-socket

  /** Last writer wins: a second registration of the same username replaces the
      first one in both records, as if the first had never happened. */
  lemma LastWriterWins(st: State, s1: SocketId, s2: SocketId, username: Username)
    ensures RegisterSocket(RegisterSocket(st, s1, username, true), s2, username, true)
            == RegisterSocket(st, s2, username, true)
  {
  }

  // ---------------------------------------------------------------------------
  // Properties of disconnect

  /** A disconnect frees exactly the found user: a user whose stored socketId is
      not the disconnecting socket (or who has no row) keeps its map entry and row. */
  lemma DisconnectSparesOthers(st: State, sock: SocketId, found: Option<Username>, dbOk: bool, v: Username)
    requires dbOk ==> FindOneResult(st, sock, found)
    requires v !in st.users || st.users[v].socketId != sock
    ensures var r := Disconnect(st, sock, found, dbOk);
            && (v in r.socketMap <==> v in st.socketMap)
            && (v in st.socketMap ==> r.socketMap[v] == st.socketMap[v])
            && (v in r.users <==> v in st.users)
            && (v in st.users ==> r.users[v] == st.users[v])
  {
  }

  /** A disconnect whose database calls resolve changes the state exactly when
      some row stores the socket (socket ids are never empty). A socket that never
      registered changes nothing, whether or not the database throws. */
  lemma DisconnectChangesIffOwned(st: State, sock: SocketId, found: Option<Username>, dbOk: bool)
    requires Truthy(sock)
    requires dbOk ==> FindOneResult(st, sock, found)
    ensures Disconnect(st, sock, found, dbOk) != st <==> dbOk && Owners(st, sock) != {}
  {
  }

  /** The stale-disconnect guarantee: register s1 then s2 for one username, then
      disconnect s1. The newer binding survives in the map and in the table. */
  lemma StaleDisconnectKeepsNewBinding(st: State, username: Username, s1: SocketId, s2: SocketId,
                                       found: Option<Username>, dbOk: bool)
    requires s1 != s2
    requires dbOk ==> FindOneResult(RegisterSocket(RegisterSocket(st, s1, username, true), s2, username, true), s1, found)
    ensures var mid := RegisterSocket(RegisterSocket(st, s1, username, true), s2, username, true);
            var r := Disconnect(mid, s1, found, dbOk);
            && username in r.socketMap && r.socketMap[username] == s2
            && (username in st.users ==> username in r.users && r.users[username].socketId == s2)
  {
  }

  /** A registered user that disconnects, while no other row stores its socket
      and the database calls resolve, is removed from the map and its row is cleared. */
  lemma DisconnectClearsOwnBinding(st: State, username: Username, sock: SocketId)
    requires username in st.users
    requires forall v :: v in st.users && v != username ==> st.users[v].socketId != sock
    ensures var mid := RegisterSocket(st, sock, username, true);
            && FindOneResult(mid, sock, Some(username))
            && (forall found :: FindOneResult(mid, sock, found) ==> found == Some(username))
            && var r := Disconnect(mid, sock, Some(username), true);
               username !in r.socketMap && r.users[username].socketId == NotConnected
  {
  }

  /** A username with no row gets a map entry from register-socket, but no
      disconnect can ever delete it: findOne only finds rows. */
  lemma RowlessBindingOutlivesDisconnect(st: State, username: Username, sock: SocketId,
                                         found: Option<Username>, dbOk: bool)
    requires username !in st.users
    requires dbOk ==> FindOneResult(RegisterSocket(st, sock, username, true), sock, found)
    ensures var r := Disconnect(RegisterSocket(st, sock, username, true), sock, found, dbOk);
            username in r.socketMap && r.socketMap[username] == sock
  {
  }

  /** Two users registered on one socket: its disconnect clears at most one of
      them; the other keeps the dead socket in the map and in its row. */
  lemma SharedSocketOutlivesDisconnect(st: State, a: Username, b: Username, sock: SocketId,
                                       found: Option<Username>, dbOk: bool)
    requires a != b && a in st.users && b in st.users
    requires dbOk ==> FindOneResult(RegisterSocket(RegisterSocket(st, sock, a, true), sock, b, true), sock, found)
    ensures var r := Disconnect(RegisterSocket(RegisterSocket(st, sock, a, true), sock, b, true), sock, found, dbOk);
            var stays := if found == Some(a) then b else a;
            && stays in r.socketMap && r.socketMap[stays] == sock
            && stays in r.users && r.users[stays].socketId == sock
  {
  }

  /** A username bound by register-socket before its account exists: /register
      then adds a row storing "" while the map keeps the socket, and no
      disconnect of that socket can delete the entry, since no row stores it. */
  lemma RegisteredAfterBindingOutlivesDisconnect(st: State, username: Username, password: string, hashed: string,
                                                 sock: SocketId, found: Option<Username>, dbOk: bool)
    requires username !in st.users && Truthy(username) && Truthy(password) && Truthy(sock)
    requires var bound := RegisterSocket(st, sock, username, true);
             var reg := Register(bound.users, Some(username), Some(password), hashed, NoFault);
             dbOk ==> reg.Ok? && FindOneResult(State(bound.socketMap, reg.value), sock, found)
    ensures var bound := RegisterSocket(st, sock, username, true);
            var reg := Register(bound.users, Some(username), Some(password), hashed, NoFault);
            && reg.Ok?
            && var mid := State(bound.socketMap, reg.value);
               && mid.users[username].socketId == NotConnected
               && mid.socketMap[username] == sock
               && var r := Disconnect(mid, sock, found, dbOk);
                  username in r.socketMap && r.socketMap[username] == sock
  {
  }

  // ---------------------------------------------------------------------------
  // Properties of send-message

  /** End-to-end delivery: alice on connX, bob on connY, a message from alice to
      bob is emitted once, to connY, with its fields unchanged; none goes to connX. */
  lemma EndToEndDelivery(st: State, connX: SocketId, connY: SocketId)
    requires Truthy(connY) && connX != connY
    ensures var bound := RegisterSocket(RegisterSocket(st, connX, "alice", true), connY, "bob", true);
            var out := Route(bound.socketMap, "alice", "bob", "hello", 42);
            && out == [Emit(connY, ReceiveMessage, "alice", "hello", 42)]
            && forall e :: e in out ==> e.room != connX
  {
  }

  /** A message to a recipient with no entry, or with an empty socket id, is dropped. */
  lemma OfflineRecipientDropped(socketMap: map<Username, SocketId>, sender: string, recipient: Username,
                                message: string, timestamp: int)
    requires recipient !in socketMap || socketMap[recipient] == NotConnected
    ensures Route(socketMap, sender, recipient, message, timestamp) == []
  {
  }

  /** Rapid reconnect: register c1, disconnect c1, register c2 leaves the user bound to c2. */
  lemma RapidReconnect(st: State, username: Username, c1: SocketId, c2: SocketId,
                       found: Option<Username>, dbOk: bool)
    requires dbOk ==> FindOneResult(RegisterSocket(st, c1, username, true), c1, found)
    ensures var r := RegisterSocket(Disconnect(RegisterSocket(st, c1, username, true), c1, found, dbOk), c2, username, true);
            && username in r.socketMap && r.socketMap[username] == c2
            && (username in st.users ==> username in r.users && r.users[username].socketId == c2)
  {
  }

  // ---------------------------------------------------------------------------
  // Runs of handled events

  /** One handled event. A disconnect carries the answer of its findOne lookup;
      the database calls of every handler carry whether they resolve or throw. */
  datatype Event =
    | RegisterSocketEvent(sock: SocketId, username: Username, updateOk: bool)
    | DisconnectEvent(sock: SocketId, found: Option<Username>, dbOk: bool)
    | SendMessageEvent(sender: string, recipient: Username, message: string, timestamp: int)
    | RegisterEvent(name: Option<string>, password: Option<string>, hashed: string, fault: Fault)

  /** The event can happen in this state: a disconnect's findOne answer, when
      findOne resolves, is a possible one. */
  predicate Enabled(st: State, e: Event) {
    e.DisconnectEvent? && e.dbOk ==> FindOneResult(st, e.sock, e.found)
  }

  /** The state after handling `e` and what the handler emits. */
  function Step(st: State, e: Event): (r: (State, seq<Emit>))
    requires Enabled(st, e)
    ensures |r.1| <= 1
    ensures !e.SendMessageEvent? ==> r.1 == []
    ensures e.SendMessageEvent? ==> r.0 == st
  {
    match e
    case RegisterSocketEvent(sock, username, updateOk) =>
      (RegisterSocket(st, sock, username, updateOk), [])
    case DisconnectEvent(sock, found, dbOk) =>
      (Disconnect(st, sock, found, dbOk), [])
    case SendMessageEvent(sender, recipient, message, timestamp) =>
      (st, Route(st.socketMap, sender, recipient, message, timestamp))
    case RegisterEvent(name, password, hashed, fault) =>
      match Register(st.users, name, password, hashed, fault)
      case Ok(users) => (State(st.socketMap, users), [])
      case Err(_) => (st, [])
  }

  /** Every event of the run is enabled in the state it meets. */
  predicate Admissible(st: State, events: seq<Event>)
    decreases |events|
  {
    events == [] || (Enabled(st, events[0]) && Admissible(Step(st, events[0]).0, events[1..]))
  }

  /** The final state and the emissions, in order, of a run of events. */
  function Run(st: State, events: seq<Event>): (r: (State, seq<Emit>))
    requires Admissible(st, events)
    ensures |r.1| <= |events|
    decreases |events|
  {
    if events == [] then (st, [])
    else
      var (next, out) := Step(st, events[0]);
      var (last, rest) := Run(next, events[1..]);
      (last, out + rest)
  }

  lemma StepKeepsMirrored(st: State, e: Event)
    requires Enabled(st, e)
    requires Mirrored(st)
    ensures Mirrored(Step(st, e).0)
  {
  }

  /** The mirror invariant holds at the end of every run that starts in it. */
  lemma {:induction false} RunKeepsMirrored(st: State, events: seq<Event>)
    requires Admissible(st, events)
    requires Mirrored(st)
    ensures Mirrored(Run(st, events).0)
    decreases |events|
  {
    if events != [] {
      StepKeepsMirrored(st, events[0]);
      RunKeepsMirrored(Step(st, events[0]).0, events[1..]);
    }
  }

  /** A run of send-message events alone never changes the map or the table,
      and its emissions are those of each message routed in order. */
  lemma {:induction false} MessagesOnlyRun(st: State, events: seq<Event>)
    requires forall i :: 0 <= i < |events| ==> events[i].SendMessageEvent?
    ensures Admissible(st, events)
    ensures Run(st, events).0 == st
    ensures |events| > 0 ==>
              var e := events[0];
              Run(st, events).1 == Route(st.socketMap, e.sender, e.recipient, e.message, e.timestamp)
                                   + Run(st, events[1..]).1
    decreases |events|
  {
    if events != [] {
      MessagesOnlyRun(st, events[1..]);
    }
  }

  /** A run of messages whose recipients are all bound to live sockets emits one
      message per event, in order: the i-th emission goes to the i-th recipient's
      socket and carries the i-th sender, message and timestamp. */
  lemma {:induction false} MessagesDeliveredInOrder(st: State, events: seq<Event>)
    requires forall i :: 0 <= i < |events| ==>
               && events[i].SendMessageEvent?
               && events[i].recipient in st.socketMap
               && Truthy(st.socketMap[events[i].recipient])
    ensures Admissible(st, events)
    ensures |Run(st, events).1| == |events|
    ensures forall i :: 0 <= i < |events| ==>
              Run(st, events).1[i] == Emit(st.socketMap[events[i].recipient], ReceiveMessage,
                                           events[i].sender, events[i].message, events[i].timestamp)
    decreases |events|
  {
    MessagesOnlyRun(st, events);
    if events != [] {
      MessagesDeliveredInOrder(st, events[1..]);
      var out := Run(st, events).1;
      var rest := Run(st, events[1..]).1;
      forall i | 0 <= i < |events|
        ensures out[i] == Emit(st.socketMap[events[i].recipient], ReceiveMessage,
                               events[i].sender, events[i].message, events[i].timestamp)
      {
        if i > 0 {
          assert events[i] == events[1..][i - 1];
          assert out[i] == rest[i - 1];
        }
      }
    }
  }
}
