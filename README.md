# Presence and routing of a socket.io chat relay

This project models the presence-and-routing core of a small chat backend
(an Express server with socket.io, and a users table stored through Sequelize).
The relay keeps two records of who is online:

- `socketMap`, an in-memory object from username to socket id;
- the `socketId` column of the users table, keyed by the unique username, where
  `""` means "not connected" (the column default).

Three socket handlers and one HTTP endpoint act on them:

- `register-socket(username)` on socket `s` updates the user's row (if there is
  one) to `s`, then sets `socketMap[username] = s`. If the update throws, the
  map assignment is skipped.
- `disconnect` on socket `s` asks the table for *some* row whose `socketId` is
  `s`. If it finds one, it clears that row's `socketId` and deletes its map entry.
  If the lookup or the clearing update throws, the catch block skips the rest and
  nothing changes.
- `send-message {sender, recipient, message, timestamp}` reads
  `socketMap[recipient]`. If the id is truthy, it emits one `receive-message
  {sender, message, timestamp}` to that socket. Otherwise it does nothing.
- `POST /register` rejects a missing or empty username or password (400). It
  rejects an existing username (400). A database failure gives 500. Otherwise
  it inserts one row with `socketId ""` (201).

`Presence` (presence.dfy) gives each handler as a function on the value
`State(socketMap, users)`, together with the lemmas about it. It also defines
runs of events and the invariant they keep. `Server` (server.dfy) is the
process itself: the class `ChatServer` has the two maps and an `outbox` log of
emissions as fields, and each handler is a method that changes them in place.
Each method's `ensures` ties the new state to the matching `Presence` function.

The database's decisions are inputs to the model:

- whether register-socket's `User.update` throws (`updateOk`);
- whether disconnect's `findOne` or its clearing `User.update` throws (`dbOk`);
- which row `findOne` returns. This is the `found` argument of
  `Presence.Disconnect`. `FindOneResult` constrains it to some matching row, or
  to nothing exactly when no row matches. The method picks it with `:|` and
  returns it.
- where `/register`'s try block throws (`Fault`).

The password hash is an opaque string argument.

Because the table is keyed by username, a rebinding overwrites the old socket
id. So a disconnect of a superseded socket cannot find the user and cannot
remove the newer binding (`StaleDisconnectKeepsNewBinding`). The code does not
keep the table and the map as an exact inverse pair, however. The two records
can disagree in three ways, and each is proved about the code as written:

- A username with no row still gets a map entry from `register-socket`. No
  disconnect ever removes that entry (`RowlessBindingOutlivesDisconnect`).
- Two usernames registered from one socket both store that socket id. Its
  disconnect clears only the one row `findOne` returns
  (`SharedSocketOutlivesDisconnect`).
- A username bound by `register-socket` before its account exists, and then
  registered through `/register`, has a row storing `""` while the map still
  holds the socket. No disconnect of that socket removes the entry
  (`RegisteredAfterBindingOutlivesDisconnect`).

What does hold in every run is one direction: every row with a non-empty
`socketId` is bound to the same socket in the map (`Mirrored`, preserved by
every step, `RunKeepsMirrored`). A server restart starts with an empty map over
a persisted table, so this invariant is kept by the handlers but not
established at start-up.

## Model

| member | source | states |
|---|---|---|
| Presence.RegisterSocket | index.js:107-115 | on success the username is bound to the socket in the map, its row (if any) stores the socket, no other entry or row changes; a username without a row leaves the table as is; on a failed update nothing changes |
| Presence.Disconnect | index.js:118-133 | when findOne or the clearing update throws, or no row matches, nothing changes; otherwise the found user, whose row stored the socket, has its socketId cleared and its map entry removed, and every other entry and row is unchanged |
| Presence.Route | index.js:136-149 | at most one emission; one exactly when the recipient has a truthy map entry, and it is `receive-message` to that socket with sender, message and timestamp unchanged |
| Presence.RegisterStatusCodes | index.js:35-52 | /register answers 201 exactly on success, 400 exactly for missing or empty credentials or a taken name found by a resolving lookup, 500 exactly for a lookup that throws or an insert that throws for a new name |
| Presence.Register | index.js:33-54 | missing or empty username or password gives MissingCredentials; an existing username gives UsernameTaken unless the lookup throws; success exactly when both are present, no fault occurs and the name is new, and then exactly one row `(hash, "")` is added |
| Presence.RegisterSocketKeepsMirrored | index.js:107-115 | register-socket keeps every connected row bound to the same socket in the map |
| Presence.DisconnectKeepsMirrored | index.js:118-133 | disconnect keeps every connected row bound to the same socket in the map |
| Presence.RegisterKeepsMirrored | index.js:41-48 | inserting a new user row with socketId "" keeps the mirror invariant |
| Presence.MirroredRecipientIsReached | index.js:137-145 | under the invariant, a recipient whose row stores a non-empty socket id receives exactly one emission on that socket |
| Presence.LastWriterWins | index.js:109-110 | registering s1 then s2 for one username gives the same state as registering s2 alone |
| Presence.DisconnectSparesOthers | index.js:120-126 | a user whose row does not store the disconnecting socket, or who has no row, keeps its map entry and its row |
| Presence.DisconnectChangesIffOwned | index.js:119-131 | for a non-empty socket id the state changes exactly when the database calls resolve and some row stores that socket; a never-registered socket or a throwing database changes nothing |
| Presence.StaleDisconnectKeepsNewBinding | index.js:107-133 | after registering s1 then s2 for a user and disconnecting s1, whether or not that disconnect's database calls throw, the user is bound to s2 in the map and, if it has a row, in the table |
| Presence.DisconnectClearsOwnBinding | index.js:107-133 | a user with a row who registers a socket no other row stores, then disconnects it, is the only possible findOne answer, and when the database calls resolve ends unmapped with socketId "" |
| Presence.RowlessBindingOutlivesDisconnect | index.js:107-133 | a username without a row keeps the map entry register-socket gave it through the socket's disconnect |
| Presence.SharedSocketOutlivesDisconnect | index.js:107-133 | when two users register on one socket, after its disconnect one of them is still bound to that socket in map and row |
| Presence.RegisteredAfterBindingOutlivesDisconnect | index.js:33-54 | register-socket for a name without an account, then a successful /register of it, leaves a row storing "" and a map entry holding the socket, which a disconnect of that socket never removes |
| Presence.EndToEndDelivery | index.js:107-149 | alice on connX and bob on connY: alice's message to bob is emitted exactly once, to connY, with its fields unchanged, and never to connX |
| Presence.OfflineRecipientDropped | index.js:137-148 | a recipient with no map entry or an empty socket id gets no emission |
| Presence.RapidReconnect | index.js:107-133 | register c1, disconnect c1, register c2 leaves the user bound to c2 in the map and in its row |
| Presence.Step | index.js:103-149 | a handled event emits at most one message; only send-message emits, and send-message leaves the map and the table unchanged |
| Presence.Run | index.js:103-149 | a run of events emits at most one message per event |
| Presence.StepKeepsMirrored | index.js:103-149 | every handled event keeps the mirror invariant |
| Presence.MessagesOnlyRun | index.js:136-149 | a run of send-message events alone leaves the map and the table unchanged, and emits each message's routing result in the order the messages arrive |
| Presence.MessagesDeliveredInOrder | index.js:136-149 | in a run of messages whose recipients are all bound to live sockets, there is one emission per message and the i-th one goes to the i-th recipient's socket with the i-th sender, message and timestamp |
| Presence.RunKeepsMirrored | index.js:33-149 | every run of handled events that starts in a mirrored state ends in one |
| Server.ChatServer.constructor | index.js:30 | the server starts with an empty socket map, the persisted table and an empty log |
| Server.ChatServer.RegisterSocket | index.js:107-115 | new map and table equal Presence.RegisterSocket of the old ones; the log is untouched |
| Server.ChatServer.Disconnect | index.js:118-133 | returns None exactly when the database throws or no row stores the socket, and otherwise a legitimate findOne answer; the new state is Presence.Disconnect of the old one with that answer, and a throwing database changes nothing |
| Server.ChatServer.SendMessage | index.js:136-149 | appends exactly Presence.Route's emissions to the log and may modify nothing else |
| Server.ChatServer.Register | index.js:33-54 | the table becomes Presence.Register's table on success; on each error it is unchanged and the same error is returned |
| Server.StaleDisconnectScenario | index.js:107-133 | using only the class contracts: after s1, s2 and the disconnect of s1 (its database calls resolving or not) the user is bound to s2 in map and table |
| Server.DeliveryScenario | index.js:107-149 | using only the class contracts: the log after alice (connX) and bob (connY) register and alice writes to bob is the single emission to connY |

## Left out

- Express, HTTP, socket.io and CORS setup, `server.listen` and the port (index.js:1-19, 152-155): transport plumbing. Socket ids are opaque strings. The room an emission goes to is recorded in the log, not delivered.
- `sequelize.sync` and the connection settings in db.js: database bootstrapping. The users table is a map keyed by username; its schema comes from userModel.js.
- bcrypt hashing in `/register`: the hash is an argument of the model.
- `/login` (index.js:57-81): a credential check on an opaque bcrypt compare, with no presence state.
- The `/users` search (index.js:84-100): a SQL `LIKE` query run by the database.
- Interleaving of the async handlers: each handler is one atomic step. A real disconnect awaiting `findOne` can interleave with a register-socket of the same user, and that is not modelled.
- Logging with `console.log` and `console.error`.
- Values that are not strings: request fields and socket payloads are strings (a field can also be missing in `/register`). JavaScript coercion of other values is not modelled. Neither are inherited keys of a plain object, such as `socketMap["constructor"]`.
- Presence.Register: a database failure in the middle of `User.create` counts as "no row inserted". The model assumes the insert is atomic.
