/**
 * The messenger server's in-memory state and the handlers that change it:
 * registration, befriending, socket connection and the real-time `message`
 * handler. The data file is read and written whole around every handler; here
 * it is the `users` and `messages` fields, and the socket table is `sockets`.
 */
module Server {
  import opened Records
  import opened Directory
  import opened Messaging

  class Store {
    /** `data.users`, in stored order. */
    var users: seq<User>
    /** `data.messages`, in stored order. */
    var messages: seq<Message>
    /** The live sockets, each with the username bound at connect time. */
    var sockets: seq<Socket>

    /** A server started on a fresh data file, with nobody connected. */
    constructor ()
      ensures users == [] && messages == [] && sockets == []
      ensures Consistent(users)
    {
      users := [];
      messages := [];
      sockets := [];
    }

    /**
     * `POST /api/register`. An empty `username`, `password` or `display`
     * stands for a missing field; `id` is the fresh uuid. On success the
     * returned identity is what the session then holds.
     */
    method Register(id: string, username: string, password: string, display: string)
      returns (r: Reply<SessionUser>)
      modifies this
      ensures messages == old(messages) && sockets == old(sockets)
      ensures username == "" || password == "" ==>
        r == Fail(400, "username/password required") && users == old(users)
      ensures username != "" && password != "" && username in Names(old(users)) ==>
        r == Fail(400, "user exists") && users == old(users)
      ensures username != "" && password != "" && username !in Names(old(users)) ==>
        users == old(users) + [NewUser(id, username, display)]
        && r == Ok(SessionUser(id, username, NewUser(id, username, display).display))
      ensures UniqueNames(old(users)) ==> UniqueNames(users)
      ensures old(Consistent(users)) ==> Consistent(users)
    {
      if username == "" || password == "" {
        return Fail(400, "username/password required");
      }
      if FindUser(users, username).Some? {
        assert username in Names(users);
        return Fail(400, "user exists");
      }
      assert username !in Names(users);
      var user := NewUser(id, username, display);
      if Consistent(users) {
        EnrollKeepsConsistent(users, user);
      }
      users := users + [user];
      r := Ok(SessionUser(user.id, user.username, user.display));
    }

    /**
     * `POST /api/friends/add` for the logged-in `session` and the target
     * `name`: the caller's record is found by the session's id, the target's
     * by username, and the reply is the caller's friend list afterwards.
     */
    method AddFriend(session: Option<SessionUser>, name: string) returns (r: Reply<seq<string>>)
      modifies this
      ensures messages == old(messages) && sockets == old(sockets)
      ensures session.None? ==> r == Fail(401, "auth") && users == old(users)
      ensures session.Some? && IndexOfName(old(users), name).None? ==>
        r == Fail(404, "not found") && users == old(users)
      ensures session.Some? && IndexOfName(old(users), name).Some?
              && IndexOfId(old(users), session.value.id).None? ==>
        r == Fail(404, "user not found") && users == old(users)
      ensures session.Some? && IndexOfName(old(users), name).Some?
              && IndexOfId(old(users), session.value.id).Some? ==>
        var me := IndexOfId(old(users), session.value.id).value;
        var target := IndexOfName(old(users), name).value;
        users == Befriend(old(users), me, target) && r == Ok(users[me].friends)
      ensures old(Consistent(users)) ==> Consistent(users)
    {
      if session.None? {
        return Fail(401, "auth");
      }
      var found := IndexOfName(users, name);
      if found.None? {
        return Fail(404, "not found");
      }
      var target := found.value;
      var mine := IndexOfId(users, session.value.id);
      if mine.None? {
        return Fail(404, "user not found");
      }
      var me := mine.value;
      ghost var before := users;
      if Consistent(users) {
        BefriendKeepsConsistent(users, me, target);
      }
      var targetName := users[target].username;
      var myName := users[me].username;
      if targetName !in users[me].friends {
        users := users[me := users[me].(friends := users[me].friends + [targetName])];
      }
      // the target's record is read again: it is the caller's own when `me == target`
      if myName !in users[target].friends {
        users := users[target := users[target].(friends := users[target].friends + [myName])];
      }
      assert users == Befriend(before, me, target);
      r := Ok(users[me].friends);
    }

    /**
     * The socket `connection` handler: a connection without a session user is
     * dropped; otherwise the socket joins the table bound to the session's
     * username.
     */
    method Connect(socketId: string, session: Option<SessionUser>) returns (accepted: bool)
      modifies this
      ensures users == old(users) && messages == old(messages)
      ensures accepted <==> session.Some?
      ensures !accepted ==> sockets == old(sockets)
      ensures accepted ==> sockets == old(sockets) + [Socket(socketId, session.value.username)]
      ensures old(DistinctIds(sockets)) && (forall s :: s in old(sockets) ==> s.id != socketId) ==>
        DistinctIds(sockets)
    {
      if session.None? {
        return false;
      }
      sockets := sockets + [Socket(socketId, session.value.username)];
      accepted := true;
    }

    /**
     * The socket `message` handler of the socket at index `k`, for the
     * payload `{to, text}`; `id` and `ts` are the fresh uuid and clock
     * reading. The sender is the username the socket was bound to. A
     * rejected send emits one `error` event to the sender and stores
     * nothing; an admitted one stores the message, pushes it to every
     * socket bound to the recipient, then to the sender.
     */
    method Send(k: nat, to: string, text: string, id: string, ts: int) returns (emitted: seq<Emission>)
      requires k < |sockets|
      modifies this
      ensures users == old(users) && sockets == old(sockets)
      ensures var v := Gate(users, sockets[k].username, to);
        v != Admitted ==>
          messages == old(messages) && emitted == [Emission(sockets[k].id, ErrorEvent(Reason(v)))]
      ensures var msg := Message(id, sockets[k].username, to, text, ts);
        Gate(users, sockets[k].username, to) == Admitted ==>
          messages == old(messages) + [msg] && emitted == Deliveries(sockets, msg) + [Push(sockets[k], msg)]
    {
      var socket := sockets[k];
      var username := socket.username;
      var verdict := Gate(users, username, to);
      if verdict != Admitted {
        return [Emission(socket.id, ErrorEvent(Reason(verdict)))];
      }
      var msg := Message(id, username, to, text, ts);
      messages := messages + [msg];
      emitted := FanOut(sockets, msg);
      emitted := emitted + [Push(socket, msg)];
    }
  }
}
