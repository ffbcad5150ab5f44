/**
 * The real-time message rules: the friendship gate a send must pass, the
 * fan-out of a stored message to the recipient's sockets, and the
 * conversation history between two users.
 */
module Messaging {
  import opened Records
  import opened Directory

  /** How the message handler decides a send attempt. */
  datatype Verdict = Admitted | UserNotFound | NotFriends

  /** The text of the `error` event for a rejected send. */
  function Reason(v: Verdict): string
    requires v != Admitted
  {
    if v == UserNotFound then "User not found" else "Not friends"
  }

  /**
   * The checks of the `message` handler: both records must exist (first
   * match by username), the recipient must be on the sender's list and the
   * sender on the recipient's list.
   */
  function Gate(users: seq<User>, from: string, to: string): (v: Verdict)
    ensures v == UserNotFound <==> FindUser(users, from).None? || FindUser(users, to).None?
    ensures v == Admitted ==>
      to in FindUser(users, from).value.friends && from in FindUser(users, to).value.friends
    ensures v == NotFriends ==>
      to !in FindUser(users, from).value.friends || from !in FindUser(users, to).value.friends
  {
    var sender := FindUser(users, from);
    var recipient := FindUser(users, to);
    if sender.None? || recipient.None? then UserNotFound
    else if to !in sender.value.friends || from !in recipient.value.friends then NotFriends
    else Admitted
  }

  /** In a consistent directory the gate gives the same verdict in both directions. */
  lemma GateSymmetric(users: seq<User>, a: string, b: string)
    requires Consistent(users)
    ensures Gate(users, a, b) == Gate(users, b, a)
  {
  }

  /** Once the caller at `me` has befriended `target`, sends are admitted both ways. */
  lemma BefriendAdmits(users: seq<User>, me: nat, target: nat)
    requires me < |users| && target < |users|
    requires UniqueNames(users)
    ensures Gate(Befriend(users, me, target), users[me].username, users[target].username) == Admitted
    ensures Gate(Befriend(users, me, target), users[target].username, users[me].username) == Admitted
  {
  }

  /** The emission of a stored message to one socket. */
  function Push(s: Socket, m: Message): Emission
  {
    Emission(s.id, MessageEvent(m))
  }

  /** The emissions of the fan-out loop: one per socket bound to the recipient, in socket order. */
  function Deliveries(sockets: seq<Socket>, m: Message): seq<Emission>
  {
    if sockets == [] then []
    else
      var last := sockets[|sockets| - 1];
      Deliveries(sockets[..|sockets| - 1], m) + (if last.username == m.to then [Push(last, m)] else [])
  }

  /** No two live sockets share an id. */
  ghost predicate DistinctIds(sockets: seq<Socket>)
  {
    forall i, j :: 0 <= i < j < |sockets| ==> sockets[i].id != sockets[j].id
  }

  /** Every delivery carries the message to a socket bound to its recipient, and every such socket gets one. */
  lemma {:induction false} DeliveriesExactly(sockets: seq<Socket>, m: Message)
    ensures forall e :: e in Deliveries(sockets, m) <==>
      exists i :: 0 <= i < |sockets| && sockets[i].username == m.to && e == Push(sockets[i], m)
  {
    if sockets != [] {
      var n := |sockets| - 1;
      var front := sockets[..n];
      DeliveriesExactly(front, m);
      forall e ensures e in Deliveries(sockets, m) <==>
        exists i :: 0 <= i < |sockets| && sockets[i].username == m.to && e == Push(sockets[i], m)
      {
        if e in Deliveries(front, m) {
          var i :| 0 <= i < |front| && front[i].username == m.to && e == Push(front[i], m);
          assert sockets[i] == front[i];
        }
        if exists i :: 0 <= i < |sockets| && sockets[i].username == m.to && e == Push(sockets[i], m) {
          var i :| 0 <= i < |sockets| && sockets[i].username == m.to && e == Push(sockets[i], m);
          if i < n {
            assert front[i] == sockets[i];
          }
        }
      }
    }
  }

  /** A socket whose id no socket in the table has is never pushed anything. */
  lemma UnknownSocketNotPushed(sockets: seq<Socket>, m: Message, s: Socket)
    requires forall i :: 0 <= i < |sockets| ==> sockets[i].id != s.id
    ensures Push(s, m) !in Deliveries(sockets, m)
  {
    DeliveriesExactly(sockets, m);
  }

  lemma DistinctIdsPrefix(sockets: seq<Socket>, n: nat)
    requires DistinctIds(sockets) && n <= |sockets|
    ensures DistinctIds(sockets[..n])
  {
  }

  /** With distinct socket ids, a recipient socket is pushed the message exactly once, any other socket never. */
  lemma {:induction false} DeliveriesOnce(sockets: seq<Socket>, m: Message, k: nat)
    requires DistinctIds(sockets)
    requires k < |sockets|
    ensures multiset(Deliveries(sockets, m))[Push(sockets[k], m)] ==
      if sockets[k].username == m.to then 1 else 0
  {
    var n := |sockets| - 1;
    var front := sockets[..n];
    var last := sockets[n];
    var target := Push(sockets[k], m);
    var tail := if last.username == m.to then [Push(last, m)] else [];
    var before := Deliveries(front, m);
    assert Deliveries(sockets, m) == before + tail;
    assert multiset(before + tail) == multiset(before) + multiset(tail);
    if k == n {
      assert forall i :: 0 <= i < |front| ==> front[i].id != last.id by {
        forall i | 0 <= i < |front| ensures front[i].id != last.id {
          assert front[i] == sockets[i];
        }
      }
      UnknownSocketNotPushed(front, m, last);
      assert multiset(before)[target] == 0;
    } else {
      DistinctIdsPrefix(sockets, n);
      DeliveriesOnce(front, m, k);
      assert front[k] == sockets[k];
    }
  }

  /**
   * What a successful send emits: the fan-out, then the acknowledgement to the
   * sender's socket. The sender's socket gets the message once, or twice when
   * it is itself bound to the recipient (a message to oneself).
   */
  lemma AckCount(sockets: seq<Socket>, m: Message, k: nat)
    requires DistinctIds(sockets)
    requires k < |sockets|
    ensures multiset(Deliveries(sockets, m) + [Push(sockets[k], m)])[Push(sockets[k], m)] ==
      if sockets[k].username == m.to then 2 else 1
  {
    DeliveriesOnce(sockets, m, k);
  }

  /** The fan-out loop over the live sockets (server.js, lines 164-166). */
  method FanOut(sockets: seq<Socket>, m: Message) returns (out: seq<Emission>)
    ensures out == Deliveries(sockets, m)
  {
    out := [];
    for i := 0 to |sockets|
      invariant out == Deliveries(sockets[..i], m)
    {
      assert sockets[..i + 1][..i] == sockets[..i];
      if sockets[i].username == m.to {
        out := out + [Push(sockets[i], m)];
      }
    }
    assert sockets[..|sockets|] == sockets;
  }

  /** The message passes between `a` and `b`, in either direction. */
  predicate Between(m: Message, a: string, b: string)
  {
    (m.from == a && m.to == b) || (m.from == b && m.to == a)
  }

  /** The `filter` of `/api/messages/:peer`. */
  function Conversation(messages: seq<Message>, me: string, peer: string): seq<Message>
  {
    if messages == [] then []
    else (if Between(messages[0], me, peer) then [messages[0]] else []) + Conversation(messages[1..], me, peer)
  }

  /** `r` is `s` with some elements dropped, the rest in their order. */
  ghost predicate IsSubsequence<T>(r: seq<T>, s: seq<T>)
    decreases |s|
  {
    r == [] || (s != [] && ((r[0] == s[0] && IsSubsequence(r[1..], s[1..])) || IsSubsequence(r, s[1..])))
  }

  /** The conversation holds exactly the stored messages between the two users. */
  lemma {:induction false} ConversationExactly(messages: seq<Message>, me: string, peer: string)
    ensures forall m :: m in Conversation(messages, me, peer) <==> m in messages && Between(m, me, peer)
  {
    if messages != [] {
      ConversationExactly(messages[1..], me, peer);
      assert messages == [messages[0]] + messages[1..];
    }
  }

  /** The conversation keeps the stored order. */
  lemma {:induction false} ConversationInOrder(messages: seq<Message>, me: string, peer: string)
    ensures IsSubsequence(Conversation(messages, me, peer), messages)
  {
    if messages != [] {
      ConversationInOrder(messages[1..], me, peer);
      var rest := Conversation(messages[1..], me, peer);
      var r := Conversation(messages, me, peer);
      if Between(messages[0], me, peer) {
        assert r == [messages[0]] + rest;
        assert r[0] == messages[0] && r[1..] == rest;
      } else {
        assert r == rest;
        assert r == [] || IsSubsequence(r, messages[1..]);
      }
    }
  }

  /** The conversation is the same whichever of the two asks. */
  lemma {:induction false} ConversationSymmetric(messages: seq<Message>, me: string, peer: string)
    ensures Conversation(messages, me, peer) == Conversation(messages, peer, me)
  {
    if messages != [] {
      ConversationSymmetric(messages[1..], me, peer);
    }
  }

  /** Storing one more message extends a conversation by it exactly when it belongs there. */
  lemma {:induction false} ConversationAppend(messages: seq<Message>, m: Message, me: string, peer: string)
    ensures Conversation(messages + [m], me, peer) ==
      Conversation(messages, me, peer) + (if Between(m, me, peer) then [m] else [])
  {
    if messages == [] {
      assert [m][1..] == [];
    } else {
      ConversationAppend(messages[1..], m, me, peer);
      assert (messages + [m])[1..] == messages[1..] + [m];
    }
  }

  /** `GET /api/messages/:peer`: the caller's conversation with `peer`, by the session's username. */
  function History(messages: seq<Message>, session: Option<SessionUser>, peer: string): (r: Reply<seq<Message>>)
    ensures session.None? <==> r == Fail(401, "auth")
    ensures session.Some? ==> r == Ok(Conversation(messages, session.value.username, peer))
    ensures r.Ok? ==> forall m :: m in r.value <==> m in messages && Between(m, session.value.username, peer)
  {
    if session.None? then Fail(401, "auth")
    else
      ConversationExactly(messages, session.value.username, peer);
      Ok(Conversation(messages, session.value.username, peer))
  }

  /**
   * A stored message shows last in the history of both its parties, whether
   * or not the recipient was online when it was sent.
   */
  lemma StoredMessageInHistory(messages: seq<Message>, m: Message, me: SessionUser)
    requires me.username == m.from || me.username == m.to
    ensures History(messages + [m], Some(me), if me.username == m.from then m.to else m.from)
         == Ok(History(messages, Some(me), if me.username == m.from then m.to else m.from).value + [m])
  {
    var peer := if me.username == m.from then m.to else m.from;
    ConversationAppend(messages, m, me.username, peer);
  }
}
