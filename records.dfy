/**
 * The records the messenger server keeps in memory: user accounts, stored
 * messages, the identity a login session carries, live sockets and what the
 * server emits on them, plus the first-match lookups every handler uses.
 */
module Records {

  datatype Option<T> = None | Some(value: T)

  /** An HTTP reply: a JSON body, or an error status with its `error` text. */
  datatype Reply<T> = Ok(value: T) | Fail(status: nat, error: string)

  /** A stored account. The bcrypt hash of the password is not modelled. */
  datatype User = User(id: string, username: string, display: string, friends: seq<string>)

  /** A stored chat message; `ts` is the millisecond clock reading at send time. */
  datatype Message = Message(id: string, from: string, to: string, text: string, ts: int)

  /** What `req.session.user` holds after register or login. */
  datatype SessionUser = SessionUser(id: string, username: string, display: string)

  /** One search hit: a user without password hash and friend list. */
  datatype Summary = Summary(id: string, username: string, display: string)

  /** One entry of the friends listing. */
  datatype FriendEntry = FriendEntry(username: string)

  /** A live socket, with the username bound to it when it connected. */
  datatype Socket = Socket(id: string, username: string)

  /** The two socket events the server emits. */
  datatype Event = MessageEvent(msg: Message) | ErrorEvent(reason: string)

  /** One `emit` call: which socket receives which event. */
  datatype Emission = Emission(socket: string, event: Event)

  /** The index of the first element satisfying `p`, as `Array.prototype.find` scans. */
  function FirstIndex<T>(s: seq<T>, p: T -> bool): (r: Option<nat>)
    ensures r.Some? ==> r.value < |s| && p(s[r.value])
    ensures r.Some? ==> forall j :: 0 <= j < r.value ==> !p(s[j])
    ensures r.None? ==> forall j :: 0 <= j < |s| ==> !p(s[j])
  {
    if s == [] then None
    else if p(s[0]) then Some(0)
    else match FirstIndex(s[1..], p)
      case None => None
      case Some(i) => Some(i + 1)
  }

  /** Where `findUser` finds its record: the first user with this username. */
  function IndexOfName(users: seq<User>, name: string): Option<nat>
  {
    FirstIndex(users, (u: User) => u.username == name)
  }

  /** Where `data.users.find(u => u.id === id)` finds its record. */
  function IndexOfId(users: seq<User>, id: string): Option<nat>
  {
    FirstIndex(users, (u: User) => u.id == id)
  }

  /** `findUser(data, username)`: the first record with that username, if any. */
  function FindUser(users: seq<User>, name: string): (r: Option<User>)
    ensures r.Some? <==> exists i :: 0 <= i < |users| && users[i].username == name
    ensures r.Some? ==> r.value in users && r.value.username == name
    ensures r.Some? ==> IndexOfName(users, name).Some? && r.value == users[IndexOfName(users, name).value]
  {
    match IndexOfName(users, name)
    case None => None
    case Some(i) => Some(users[i])
  }

  /** With distinct usernames, the record `findUser` returns for user i's name is user i. */
  lemma FindUserUnique(users: seq<User>, i: nat)
    requires i < |users|
    requires forall a, b :: 0 <= a < b < |users| ==> users[a].username != users[b].username
    ensures IndexOfName(users, users[i].username) == Some(i)
    ensures FindUser(users, users[i].username) == Some(users[i])
  {
  }
}
