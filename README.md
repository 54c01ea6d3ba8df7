# ChatWithMeServer core, modelled in Dafny

ChatWithMeServer is a small Ktor chat relay. Clients register and log in over
HTTP. Then they open a `/chat` WebSocket, and every text frame a client sends
is relayed to all the other connected clients. All the logic sits in
`src/main/kotlin/Main.kt`. This project models its two stateful objects and
the life of one `/chat` connection:

- `UserStorage` (module `Accounts`, file `accounts.dfy`) is the in-memory
  account table. It holds a map from username to `User` and a counter
  `nextId`. `register` refuses a taken username; otherwise it hands out the
  next id and stores the user. `login` is a read-only lookup: it succeeds only
  for a known username with exactly matching password. The class keeps the
  map and the counter as fields. Each call is proved against the pure
  transition `RegisterStep` on a `Table` value. The properties of whole runs
  of registrations are proved on that value.
- `ChatServer` (module `Chat`, file `chat.dfy`) is the session registry and the
  broadcast fan-out. The registry is a `LinkedHashSet`, so it is modelled as a
  duplicate-free sequence of session ids in insertion order. `session.send`
  is modelled as appending a (recipient, text) pair to the `outbox` field.
  Sends that throw are given as a parameter `failing`: the set of sessions
  whose transport is closed. `Handle` models the `/chat` handler: it
  registers the session, broadcasts each incoming text frame, and always
  deregisters the session in `finally`.
- `optional.dfy` holds `Option`, which stands for Kotlin's nullable `User?`.

Behaviour of the code that the model keeps as it is:

- **No failure isolation.** A `send` that throws aborts the `forEach`
  (Main.kt:114-116). The exception reaches the sender's handler, which
  catches it and removes the sender, not the recipient that failed
  (Main.kt:93-96). `Delivered` and `Broadcast` model this: the recipients
  before the first failing one got the message, and the rest did not.
- **Re-adding a session.** `LinkedHashSet.add` leaves the set and its order
  unchanged, and so does `Added`.
- **Iteration.** `broadcast` iterates the live shared set. The model is
  sequential, so it cannot show a `ConcurrentModificationException`.
- **Frames.** A `webSocket` route reads only data frames from `incoming`. The
  session answers ping, pong and close frames itself, and a close ends
  `incoming`. So `Frame` has only `Text` and `Binary`, and the end of the
  frame sequence stands for the close.

## Model

| member | source | states |
|---|---|---|
| `Accounts.RegisterStep` | src/main/kotlin/Main.kt:36-41 | A taken username gives None and leaves map and counter unchanged. A fresh one gives a user with id = old `nextId` and the given username and password, and `nextId` grows by exactly 1. The key set grows by exactly that username, no existing entry changes, the map grows by one entry, and the table invariant is kept |
| `Accounts.RegisterAllWellFormed` | src/main/kotlin/Main.kt:33-40 | Any run of registrations keeps the invariant: each key names its own user, every id is in [1, nextId), and ids are pairwise distinct |
| `Accounts.RegisterAllCountsIds` | src/main/kotlin/Main.kt:34-39 | Over any run, the counter advances by exactly the number of accounts created |
| `Accounts.ExistingAccountKept` | src/main/kotlin/Main.kt:37 | An account that exists is never overwritten by any later run of registrations |
| `Accounts.RegisteredIffRequested` | src/main/kotlin/Main.kt:36-40 | A free username is registered after a run exactly when some request in the run names it |
| `Accounts.FirstPasswordWins` | src/main/kotlin/Main.kt:37-39 | A username's stored password is the one from the first request that named it; later requests with other passwords change nothing |
| `Accounts.WrapInt` | src/main/kotlin/Main.kt:34 | Kotlin `Int` arithmetic: the result is in [-2^31, 2^31), it equals the input when that is in range, and 2^31 wraps to -2^31 |
| `Accounts.RegisterAsWritten` | src/main/kotlin/Main.kt:38 | `register` with the 32-bit `nextId++`; it agrees with `RegisterStep` while the counter is below 2^31-1 |
| `Accounts.CounterOverflowGivesNegativeId` | src/main/kotlin/Main.kt:38 | From a well-formed table with `nextId` = 2^31-1, the second new registration returns id -2^31, and that non-positive id is what the table stores for it |
| `Accounts.UserStorage.constructor` | src/main/kotlin/Main.kt:32-34 | The table starts empty with `nextId` = 1, and the invariant holds |
| `Accounts.UserStorage.Register` | src/main/kotlin/Main.kt:36-41 | The new state and the result are exactly `RegisterStep` of the old state. The invariant is kept, and after a successful call `Login` with the same credentials returns the new user |
| `Accounts.UserStorage.Login` | src/main/kotlin/Main.kt:43-46 | Returns a user if and only if the username is a key and its stored password equals the given one, and then it is the stored user. An unknown name and a wrong password give the same None. It reads the state and changes nothing |
| `Accounts.AccountScenario` | src/main/kotlin/Main.kt:36-46 | Registering "alice" twice: the second call fails and "alice" keeps password "p1". "bob" logs in with "secret"; "bob" with a wrong password and an unknown user both fail |
| `Chat.Added` | src/main/kotlin/Main.kt:105-107 | After `add(s)`, the members are the old ones plus s. Adding a member again changes nothing, and a new member goes last |
| `Chat.AddedKeepsOrder` | src/main/kotlin/Main.kt:104-106 | Adding keeps the existing members in their order and never duplicates one |
| `Chat.Without` | src/main/kotlin/Main.kt:109-115 | The members are exactly the old ones other than s. Removing an absent session changes nothing. This is both the registry after `remove(s)` and the recipients of a broadcast from s |
| `Chat.WithoutKeepsDistinct` | src/main/kotlin/Main.kt:104-110 | Removing keeps the registry free of duplicates |
| `Chat.WithoutDeletesOne` | src/main/kotlin/Main.kt:109-111 | On a duplicate-free registry, `remove(s)` deletes exactly s's entry; all other members keep their relative order |
| `Chat.Delivered` | src/main/kotlin/Main.kt:113-119 | The `forEach`/`send` log: recipients in order, each with the message verbatim, up to but not including the first recipient whose send throws |
| `Chat.SendSucceeds` | src/main/kotlin/Main.kt:114-116 | A loop step whose send succeeds adds exactly one frame to the log |
| `Chat.SendThrows` | src/main/kotlin/Main.kt:114-116 | A loop step whose send throws ends the broadcast's log where it stood |
| `Chat.DeliveredOnceEach` | src/main/kotlin/Main.kt:114-116 | When no send fails, each recipient gets exactly one frame and non-recipients get none |
| `Chat.BroadcastReachesOthersOnce` | src/main/kotlin/Main.kt:113-119 | When no send fails, every registered session other than the sender gets the message exactly once, and the sender and unregistered sessions get nothing. All frames carry the message. If the sender is not registered, every session is a recipient |
| `Chat.BroadcastStopsAtFailure` | src/main/kotlin/Main.kt:114-116 | When a send fails, the log stops right at the first failing recipient in registration order, and all recipients before it succeeded |
| `Chat.NetEffect` | src/main/kotlin/Main.kt:104-111 | After any sequence of add/remove calls, a session is a member exactly when either (a) some call added it and no later call removed it, or (b) it was a member at the start and no call removed it |
| `Chat.ApplyOpsDistinct` | src/main/kotlin/Main.kt:104-111 | No sequence of add/remove calls registers a session twice |
| `Chat.Relayed` | src/main/kotlin/Main.kt:86-94 | The relay log of the handler's `consumeEach` loop. Each text frame is broadcast in turn, binary frames are skipped, and nothing is relayed after the first broadcast that throws. No frame hands out more deliveries than the broadcast has recipients, so the log has at most (number of frames) × (number of other members) entries |
| `Chat.CountConcat` | src/main/kotlin/Main.kt:86-91 | The frames a session gets over two stretches of the loop are the sum of what it gets in each |
| `Chat.DeliveredAtMostOnce` | src/main/kotlin/Main.kt:114-116 | On a duplicate-free registry, one broadcast hands a session at most one frame, and none unless it is a recipient, whether or not a send fails |
| `Chat.RelayedReachesOthers` | src/main/kotlin/Main.kt:86-91 | On a duplicate-free registry where no send fails, every registered session other than the sender gets exactly one frame per text frame the handler reads. The sender and unregistered sessions get none |
| `Chat.RelayedAtMostOncePerText` | src/main/kotlin/Main.kt:86-94 | On a duplicate-free registry, whatever fails, a session gets at most one frame per text frame read, and none unless it is another registered session |
| `Chat.RelayedAfterAbort` | src/main/kotlin/Main.kt:86-94 | Once a broadcast has thrown, no later frame of that connection is relayed |
| `Chat.RelayedOnlyText` | src/main/kotlin/Main.kt:86-91 | Every relayed frame carries the text of one of the connection's text frames and goes to a registered session other than the sender. Non-text frames relay nothing |
| `Chat.AddThenRemove` | src/main/kotlin/Main.kt:84-96 | Registering a session and then removing it leaves the rest of the registry as it was |
| `Chat.ChatServer.constructor` | src/main/kotlin/Main.kt:103-104 | The registry and the outbox start empty |
| `Chat.ChatServer.AddSession` | src/main/kotlin/Main.kt:105-107 | The registry becomes `Added(old, s)`, stays duplicate-free and contains s. The outbox is untouched |
| `Chat.ChatServer.RemoveSession` | src/main/kotlin/Main.kt:109-111 | The registry becomes `Without(old, s)` and no longer contains s. The outbox is untouched |
| `Chat.ChatServer.Broadcast` | src/main/kotlin/Main.kt:113-119 | The outbox grows by exactly `Delivered(Without(sessions, sender), message, failing)`. The call reports a failure exactly when some registered non-sender session throws. The registry is unchanged |
| `Chat.ChatServer.Receive` | src/main/kotlin/Main.kt:86-91 | A text frame is broadcast, and any other frame sends nothing and cannot fail |
| `Chat.ChatServer.Handle` | src/main/kotlin/Main.kt:82-98 | On every exit path the session ends up unregistered, and the rest of the registry is as before. The outbox grows by `Relayed(...)`. The handler aborts exactly when a text frame's broadcast meets a failing send |
| `Chat.ThreeClients` | src/main/kotlin/Main.kt:103-119 | Sessions 1, 2 and 3 register and 1 sends "hello": 2 and 3 each get it once. Then 3 leaves and 1 sends "bye": only 2 gets it. Session 1 gets nothing, and the registry ends as [1, 2] |

## Left out

- Server bootstrap and WebSocket settings (`embeddedServer`, port, host, ping, timeout, frame size, masking; Main.kt:49-59): framework configuration, no logic.
- HTTP routing and JSON decoding of `/register` and `/login` (Main.kt:62-80): thin wrappers over library calls. A None from `register` is answered with 409 Conflict, and a None from `login` with 401 Unauthorized.
- The constant token `"dummy-token"` in the login response (Main.kt:78): a placeholder with no logic.
- `println`, `printStackTrace` and the `remoteHost` lookup: output only.
- `Message` and its wall-clock `timestamp` (Main.kt:30), and the request/response data classes: nothing in the logic uses them.
- Concurrency: the `sessions` set is shared by all connection coroutines without a lock. The model runs each operation on its own. While one connection is handled, no other handler changes the registry.
- Real WebSocket `send`: replaced by an append to `outbox`. The set `failing` is fixed for a whole call, so a session whose send throws keeps throwing.
- Chat.ChatServer.Handle: a read error on the incoming channel is not a separate case. It ends the frame sequence, just like a normal close, and both paths go through the same `finally`.
- Accounts.UserStorage.Register: ids are unbounded integers. The 32-bit wrap of `nextId++` is modelled separately by `Accounts.RegisterAsWritten` (see Findings).
- Passwords are stored and compared as plain strings, as in the code. There is no hashing to model.
- build.gradle.kts: build configuration only.

## Findings

| source | as written | input that shows it | evidently intended | confidence | as-written member | corrected member |
|---|---|---|---|---|---|---|
| src/main/kotlin/Main.kt:38 | `nextId++` on a 32-bit `Int` wraps from 2^31-1 to -2^31 | With `nextId` = 2147483647, register two fresh usernames. The second user gets id -2147483648, and after 2^32 registrations ids repeat | Ids stay positive and pairwise distinct | low: needs 2^31 registrations in one process; not executed | `Accounts.RegisterAsWritten`, `Accounts.CounterOverflowGivesNegativeId` | `Accounts.RegisterStep` (with `Accounts.RegisterAllWellFormed`) |
