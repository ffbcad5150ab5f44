# minimesenger server model

A Dafny model of the in-memory rules of the minimesenger chat server
(`server.js`): user accounts with bilateral friend lists, registration,
befriending, user search, the friend listing, conversation history, socket
connection and the real-time `message` handler that checks friendship,
stores the message, pushes it to every socket of the recipient and
acknowledges the sender.

Layout:

- `records.dfy` (module `Records`): the records (`User`, `Message`,
  `SessionUser`, `Summary`, `FriendEntry`, `Socket`, emitted events), the
  HTTP reply shape `Reply`, and the first-match lookups (`findUser` and the
  lookup by session id).
- `directory.dfy` (module `Directory`): the consistency rules of the user
  list (unique usernames, friend entries name registered users, symmetric
  friendship, no repeated friend entries), the record register creates, the
  befriend mutation as a function of the old list, the friend listing and
  the case-insensitive search.
- `messaging.dfy` (module `Messaging`): the friendship gate of the
  `message` handler, the fan-out loop and its emissions, the conversation
  filter and history.
- `server.dfy` (module `Server`): class `Store` holding `users`, `messages`
  and the socket table, with one method per state-changing handler.

A user record is identified by its position in `users`: the source mutates
the object that `find` returned, and the model updates that index. When a
user befriends themself, the caller's record and the target record are the
same object; the model reads the target's list again after the first push, so
the second push is skipped, as in the source.

Values that JavaScript treats as missing (`undefined`, `''`) are modelled as
the empty string: a missing register field, a missing search query, a
missing display name. The uuid and the clock reading of a new record are
parameters. Emitting on a socket is modelled as returning the list of
`Emission`s a handler performs, in order.

## Model

| member | source | states |
|---|---|---|
| Records.FirstIndex | server.js:49-51 | the index returned is the first element satisfying the test; none means no element does |
| Records.FindUser | server.js:49-51 | a record is found exactly when some user has the name; the found record has that name and is the first record with it |
| Records.FindUserUnique | server.js:49-51 | with distinct usernames, looking up user i's name returns user i |
| Server.Store.constructor | server.js:16-18 | a fresh data file has no users and no messages, which is a consistent directory |
| Directory.NewUser | server.js:61 | a registered record has the given id and username, no friends, and its display name falls back to the username when none is given |
| Server.Store.Register | server.js:53-66 | a missing username or password gives 400 "username/password required", a taken username gives 400 "user exists", both leaving users unchanged; otherwise exactly one new friendless record is appended and the session identity returned; unique usernames and the whole consistency invariant are preserved |
| Directory.EnrollKeepsConsistent | server.js:58-62 | appending a friendless account with an unused username keeps usernames unique, friendship symmetric and friend lists duplicate-free |
| Directory.Befriend | server.js:105-108 | after befriending, the target's name is on the caller's list and the caller's name on the target's list; each list grows by at most that one name; no other record, and no id, username or display, changes |
| Directory.BefriendIdempotent | server.js:105-108 | befriending the same pair a second time changes nothing |
| Directory.BefriendKeepsNames | server.js:105-108 | befriending leaves the set of registered usernames as it was |
| Directory.BefriendNewEntries | server.js:105-108 | the only friend entries befriending adds are the target's name on the caller's list and the caller's name on the target's list |
| Directory.BefriendKeepsSymmetric | server.js:105-108 | with unique usernames, befriending keeps friendship symmetric |
| Directory.BefriendKeepsConsistent | server.js:105-108 | befriending keeps usernames unique, friend entries registered, friendship symmetric and friend lists free of duplicates |
| Server.Store.AddFriend | server.js:97-111 | no session gives 401, an unknown target 404 "not found", a session id with no record 404 "user not found", each leaving users unchanged; otherwise users become the befriended list and the reply is the caller's new friend list; messages and sockets never change |
| Directory.FriendList | server.js:113-120 | no session gives 401, a session id with no record 404 "user not found"; when the session id has a record the reply is Ok, with one entry per friend name of the first record with that id, in stored order |
| Directory.BefriendListed | server.js:113-119 | after befriending, the target appears in the caller's friend listing |
| Directory.ContainsAt | server.js:91 | the substring test holds exactly when the query occurs at some offset of the text |
| Directory.Search | server.js:87-94 | the results are exactly the summaries of the users whose lower-cased username or display contains the lower-cased query; there is one result per matching user, in stored order, so never more results than users |
| Directory.SelectExactly | server.js:90-92 | the filter and projection keep exactly the summaries of the users passing the test, never more than there are users |
| Directory.MatchIndicesSound | server.js:90-91 | every position the filter keeps holds a user passing the test, and kept positions increase |
| Directory.MatchIndicesComplete | server.js:90-91 | every position whose user passes the test is kept |
| Directory.SelectAppend | server.js:90-92 | one more user at the end adds that user's summary at the end of the results exactly when they pass the test |
| Directory.SelectAtIndices | server.js:90-92 | the k-th result is the summary of the user at the k-th kept position, and there are as many results as kept positions |
| Directory.SelectIndices | server.js:90-92 | the kept positions enumerate, in increasing order and each once, exactly the users passing the test, and the results are their summaries in that order |
| Directory.SearchAfterRegister | server.js:87-94 | after a registration, each search's results are the old results followed by the new user's summary exactly when the new user matches |
| Directory.SelectSameTest | server.js:90-92 | two filter tests that agree on every user give the same results |
| Directory.SearchIgnoresCase | server.js:88 | a query and its lower-cased form give the same results |
| Directory.SelectAllPass | server.js:90-92 | a test every user passes keeps every user's summary, in stored order |
| Directory.SearchEmptyQueryListsAll | server.js:88-92 | an empty (or missing) query returns every user's summary, in stored order |
| Messaging.Gate | server.js:146-157 | a send is rejected as "User not found" exactly when the sender's or recipient's record is missing; it is admitted only if the recipient is on the sender's list and the sender on the recipient's list, and refused as "Not friends" if either is missing |
| Messaging.GateSymmetric | server.js:154 | in a consistent directory the verdict from a to b equals the verdict from b to a |
| Messaging.BefriendAdmits | server.js:154-157 | once a user has befriended another, messages between the two are admitted in both directions |
| Messaging.FanOut | server.js:164-166 | the loop over the socket table emits exactly the fan-out deliveries of the message |
| Messaging.DeliveriesExactly | server.js:164-166 | every fan-out emission carries the message to a socket bound to the recipient, and every such socket is pushed the message |
| Messaging.UnknownSocketNotPushed | server.js:164-166 | a socket whose id is not in the socket table is never pushed the message |
| Messaging.DeliveriesOnce | server.js:164-166 | with distinct socket ids, each socket bound to the recipient is pushed the message exactly once and every other socket never |
| Messaging.AckCount | server.js:164-168 | the sender's socket receives the stored message once as acknowledgement, and a second time when it is bound to the recipient (a message to oneself) |
| Server.Store.Connect | server.js:131-140 | a connection without a session user is dropped and the socket table is unchanged; otherwise the socket is added bound to the session's username; distinct socket ids stay distinct |
| Server.Store.Send | server.js:143-169 | the sender is the socket's bound username; a rejected send emits only one error event, "User not found" or "Not friends", to the sender and stores nothing; an admitted send appends exactly one message with that sender and the payload's recipient and text, emits it to every socket bound to the recipient and then to the sender; users and sockets never change |
| Messaging.ConversationExactly | server.js:126 | the conversation holds exactly the stored messages from the caller to the peer or from the peer to the caller |
| Messaging.ConversationInOrder | server.js:126 | the conversation is an order-preserving subsequence of the stored messages |
| Messaging.ConversationSymmetric | server.js:126 | both parties see the same conversation |
| Messaging.ConversationAppend | server.js:126 | storing a message extends each conversation by it exactly when it is between that conversation's two users |
| Messaging.History | server.js:122-128 | no session gives 401; any session gives Ok with the conversation between the session's username and the peer, which holds exactly the stored messages between the two |
| Messaging.StoredMessageInHistory | server.js:122-128 | a stored message appears last in the history of both its sender and its recipient, whether or not the recipient had a live socket |

## Left out

- Reading and writing `data.json` (`loadData`, `saveData`, the initialisation at start-up): the data is the state of `Store`. A corrupt or missing file reads as empty data, which is the constructor's state.
- Express, express-session and socket.io wiring, static file serving and `listen`: plumbing with no data rules.
- `/api/login`, `/api/logout` and `/api/me`: login compares a bcrypt hash, a foreign library; logout and me only touch the session object.
- bcrypt hashing in register: the password is only checked for being present, and no hash is stored in `User`.
- `uuidv4()` and `Date.now()`: the id and timestamp are parameters; the model assumes neither unique ids nor increasing timestamps, because the source does not ensure either.
- Messaging.FanOut: the source iterates `Object.entries(io.sockets.sockets)`. In socket.io 3 and later that collection is a `Map`, and `Object.entries` of a `Map` yields nothing, so the push to the recipient may never happen. The model takes the loop to run over every live socket, as intended. The socket.io version in use is not part of this model.
- Directory.Search: lower-casing is ASCII only; Unicode case mapping of `toLowerCase` is not modelled.
- Removal of a socket from the table on disconnect (done by socket.io; the source's `disconnect` handler is empty) and the interleaving of concurrent handlers: every handler runs to completion on its own.
- Non-string JSON payloads (for example a number or an array as `to`, `text` or `q`): every field is a string, with the empty string for a missing one.
- The console logging of the connection handler.
