/** The relay process: the socket map it keeps in memory, the users table it
    updates, and the log of messages it has emitted, changed in place by the
    socket handlers and the /register endpoint. */
module Server {
  import opened Presence

  class ChatServer {
    /** `socketMap` of the process: username to the socket id it last registered. */
    var socketMap: map<Username, SocketId>
    /** The users table, keyed by username. */
    var users: map<Username, Row>
    /** Every `receive-message` emitted so far, oldest first. */
    var outbox: seq<Emit>

    /** The presence state as a value. */
    function Snapshot(): State
      reads this
    {
      State(socketMap, users)
    }

    /** A fresh process: the socket map starts empty, the table is whatever the
        database file holds (its socketId column may be left over from an earlier run). */
    constructor(table: map<Username, Row>)
      ensures socketMap == map[] && users == table && outbox == []
    {
      socketMap := map[];
      users := table;
      outbox := [];
    }

    /** The register-socket handler for socket `sock`; `updateOk` says whether
        the table update resolves or throws. */
    method RegisterSocket(sock: SocketId, username: Username, updateOk: bool)
      modifies this
      ensures Snapshot() == Presence.RegisterSocket(old(Snapshot()), sock, username, updateOk)
      ensures updateOk ==> username in socketMap && socketMap[username] == sock
      ensures updateOk && username in old(users) ==> users[username].socketId == sock
      ensures !updateOk ==> socketMap == old(socketMap) && users == old(users)
      ensures outbox == old(outbox)
    {
      if updateOk {
        if username in users {
          users := users[username := users[username].(socketId := sock)];
        }
        socketMap := socketMap[username := sock];
      }
    }

    /** The disconnect handler for socket `sock`; `dbOk` says whether findOne
        and the clearing update resolve or one of them throws. Returns the user
        findOne found, which may be any row storing `sock`, or None when findOne
        found nothing or the database threw. */
    method Disconnect(sock: SocketId, dbOk: bool) returns (found: Option<Username>)
      modifies this
      ensures dbOk ==> FindOneResult(old(Snapshot()), sock, found)
      ensures Snapshot() == Presence.Disconnect(old(Snapshot()), sock, found, dbOk)
      ensures found.None? <==> !dbOk || (forall u :: u in old(users) ==> old(users)[u].socketId != sock)
      ensures !dbOk ==> socketMap == old(socketMap) && users == old(users)
      ensures outbox == old(outbox)
    {
      if !dbOk {
        found := None;
      } else if u :| u in users && users[u].socketId == sock {
        found := Some(u);
        users := users[u := users[u].(socketId := NotConnected)];
        socketMap := socketMap - {u};
      } else {
        found := None;
      }
    }

    /** The send-message handler: looks the recipient up in the socket map and
        emits to its socket if the id is truthy. Only the log changes. */
    method SendMessage(sender: string, recipient: Username, message: string, timestamp: int)
      modifies this`outbox
      ensures outbox == old(outbox) + Route(socketMap, sender, recipient, message, timestamp)
      ensures recipient in socketMap && Truthy(socketMap[recipient]) ==>
                outbox == old(outbox) + [Emit(socketMap[recipient], ReceiveMessage, sender, message, timestamp)]
      ensures recipient !in socketMap || !Truthy(socketMap[recipient]) ==> outbox == old(outbox)
    {
      var recipientSocketId := if recipient in socketMap then socketMap[recipient] else NotConnected;
      if Truthy(recipientSocketId) {
        outbox := outbox + [Emit(recipientSocketId, ReceiveMessage, sender, message, timestamp)];
      }
    }

    /** The /register endpoint. `hashed` is the password's bcrypt hash and
        `fault` where the database throws, if anywhere. */
    method Register(username: Option<string>, password: Option<string>, hashed: string, fault: Fault)
      returns (result: Result<(), RegisterError>)
      modifies this`users
      ensures var expected := Presence.Register(old(users), username, password, hashed, fault);
              && (result.Ok? <==> expected.Ok?)
              && (expected.Ok? ==> users == expected.value)
              && (expected.Err? ==> result == Err(expected.error) && users == old(users))
    {
      if !Present(username) || !Present(password) {
        return Err(MissingCredentials);
      }
      if fault == LookupFault {
        return Err(RegistrationFailed);
      }
      if username.value in users {
        return Err(UsernameTaken);
      }
      if fault == InsertFault {
        return Err(RegistrationFailed);
      }
      users := users[username.value := Row(hashed, NotConnected)];
      result := Ok(());
    }
  }

  /** A client of the class: a user registers socket s1, reconnects on s2, and
      then the stale socket s1 disconnects, whether or not its database calls
      throw. The user stays bound to s2. */
  method StaleDisconnectScenario(table: map<Username, Row>, username: Username, s1: SocketId, s2: SocketId,
                                 dbOk: bool)
    returns (bound: Option<SocketId>, stored: Option<SocketId>)
    requires username in table && s1 != s2
    ensures bound == Some(s2) && stored == Some(s2)
  {
    var server := new ChatServer(table);
    server.RegisterSocket(s1, username, true);
    server.RegisterSocket(s2, username, true);
    var found := server.Disconnect(s1, dbOk);
    StaleDisconnectKeepsNewBinding(State(map[], table), username, s1, s2, found, dbOk);
    bound := if username in server.socketMap then Some(server.socketMap[username]) else None;
    stored := if username in server.users then Some(server.users[username].socketId) else None;
  }

  /** A client of the class: alice on connX and bob on connY; alice writes to
      bob. Returns what was emitted. */
  method DeliveryScenario(table: map<Username, Row>, connX: SocketId, connY: SocketId)
    returns (emitted: seq<Emit>)
    requires Truthy(connY) && connX != connY
    ensures emitted == [Emit(connY, ReceiveMessage, "alice", "hello", 42)]
  {
    var server := new ChatServer(table);
    server.RegisterSocket(connX, "alice", true);
    server.RegisterSocket(connY, "bob", true);
    server.SendMessage("alice", "bob", "hello", 42);
    emitted := server.outbox;
  }
}
