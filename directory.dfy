/**
 * The user directory: the consistency rules the list of accounts keeps, the
 * effect of registering and of befriending on that list, and the read-only
 * friend listing and user search.
 */
module Directory {
  import opened Records

  /** Every registered username. */
  function Names(users: seq<User>): set<string>
  {
    set u | u in users :: u.username
  }

  /** No two records share a username. */
  ghost predicate UniqueNames(users: seq<User>)
  {
    forall a, b :: 0 <= a < b < |users| ==> users[a].username != users[b].username
  }

  /** Every friend entry names a registered user. */
  ghost predicate FriendsRegistered(users: seq<User>)
  {
    forall a, n :: 0 <= a < |users| && n in users[a].friends ==> n in Names(users)
  }

  /** Friendship holds in both directions or in neither. */
  ghost predicate Symmetric(users: seq<User>)
  {
    forall a, b :: 0 <= a < |users| && 0 <= b < |users| && users[b].username in users[a].friends ==>
      users[a].username in users[b].friends
  }

  ghost predicate NoDuplicates(s: seq<string>)
  {
    forall i, j :: 0 <= i < j < |s| ==> s[i] != s[j]
  }

  /** No friend list names the same user twice. */
  ghost predicate FriendListsDistinct(users: seq<User>)
  {
    forall a :: 0 <= a < |users| ==> NoDuplicates(users[a].friends)
  }

  /** The state register and friends/add keep, starting from an empty data file. */
  ghost predicate Consistent(users: seq<User>)
  {
    UniqueNames(users) && FriendsRegistered(users) && Symmetric(users) && FriendListsDistinct(users)
  }

  /** The record register creates: `display` falls back to the username, no friends yet. */
  function NewUser(id: string, username: string, display: string): (u: User)
    ensures u.username == username && u.id == id && u.friends == []
    ensures display != "" ==> u.display == display
    ensures display == "" ==> u.display == username
  {
    User(id, username, if display == "" then username else display, [])
  }

  /** Appending a fresh, friendless account keeps the directory consistent. */
  lemma EnrollKeepsConsistent(users: seq<User>, u: User)
    requires u.username !in Names(users) && u.friends == []
    requires Consistent(users)
    ensures Consistent(users + [u])
    ensures Names(users + [u]) == Names(users) + {u.username}
  {
    var r := users + [u];
    forall a, b | 0 <= a < b < |r| ensures r[a].username != r[b].username {
      if b == |users| { assert r[a] in users; }
    }
    forall a, n | 0 <= a < |r| && n in r[a].friends ensures n in Names(r) {
      assert r[a] == users[a];
      assert n in Names(users);
    }
    forall a, b | 0 <= a < |r| && 0 <= b < |r| && r[b].username in r[a].friends
      ensures r[a].username in r[b].friends
    {
      assert a < |users|;
    }
  }

  /**
   * The friends/add mutation on the record at index `me` (the caller) and the
   * record at index `target`: push the target's name onto the caller's list
   * unless present, then push the caller's name onto the target's list
   * unless present, the second test reading the list after the first push.
   * When `me == target` both pushes act on the same record.
   */
  function Befriend(users: seq<User>, me: nat, target: nat): (r: seq<User>)
    requires me < |users| && target < |users|
    ensures |r| == |users|
    ensures users[target].username in r[me].friends
    ensures users[me].username in r[target].friends
    ensures forall k :: 0 <= k < |r| ==>
      r[k].id == users[k].id && r[k].username == users[k].username && r[k].display == users[k].display
    ensures forall k :: 0 <= k < |r| && k != me && k != target ==> r[k] == users[k]
    ensures r[me].friends == users[me].friends
         || r[me].friends == users[me].friends + [users[target].username]
    ensures r[target].friends == users[target].friends
         || r[target].friends == users[target].friends + [users[me].username]
  {
    var name := users[target].username;
    var mine := users[me].username;
    var afterMe :=
      if name in users[me].friends then users
      else users[me := users[me].(friends := users[me].friends + [name])];
    if mine in afterMe[target].friends then afterMe
    else afterMe[target := afterMe[target].(friends := afterMe[target].friends + [mine])]
  }

  /** Befriending twice leaves the same lists as befriending once. */
  lemma BefriendIdempotent(users: seq<User>, me: nat, target: nat)
    requires me < |users| && target < |users|
    ensures Befriend(Befriend(users, me, target), me, target) == Befriend(users, me, target)
  {
  }

  /** Befriending changes no username, so the set of registered names stays the same. */
  lemma BefriendKeepsNames(users: seq<User>, me: nat, target: nat)
    requires me < |users| && target < |users|
    ensures Names(Befriend(users, me, target)) == Names(users)
  {
    var r := Befriend(users, me, target);
    forall n ensures n in Names(r) <==> n in Names(users) {
      if n in Names(r) {
        var k :| 0 <= k < |r| && r[k].username == n;
        assert users[k] in users;
      }
      if n in Names(users) {
        var k :| 0 <= k < |users| && users[k].username == n;
        assert r[k] in r;
      }
    }
  }

  /** The only entries befriending adds are the target's name for the caller and the reverse. */
  lemma BefriendNewEntries(users: seq<User>, me: nat, target: nat, a: nat, n: string)
    requires me < |users| && target < |users| && a < |users|
    requires n in Befriend(users, me, target)[a].friends && n !in users[a].friends
    ensures (a == me && n == users[target].username) || (a == target && n == users[me].username)
  {
  }

  /** Befriending keeps symmetric friendship symmetric. */
  lemma BefriendKeepsSymmetric(users: seq<User>, me: nat, target: nat)
    requires me < |users| && target < |users|
    requires UniqueNames(users) && Symmetric(users)
    ensures Symmetric(Befriend(users, me, target))
  {
    var r := Befriend(users, me, target);
    forall a, b | 0 <= a < |r| && 0 <= b < |r| && r[b].username in r[a].friends
      ensures r[a].username in r[b].friends
    {
      if r[b].username !in users[a].friends {
        BefriendNewEntries(users, me, target, a, r[b].username);
      } else {
        assert users[a].username in users[b].friends;
        assert users[b].friends <= r[b].friends;
      }
    }
  }

  /** Befriending keeps every rule of `Consistent`. */
  lemma BefriendKeepsConsistent(users: seq<User>, me: nat, target: nat)
    requires me < |users| && target < |users|
    requires Consistent(users)
    ensures Consistent(Befriend(users, me, target))
  {
    var r := Befriend(users, me, target);
    BefriendKeepsNames(users, me, target);
    assert users[target] in users && users[me] in users;
    forall a, n | 0 <= a < |r| && n in r[a].friends ensures n in Names(r) {
      if n !in users[a].friends {
        BefriendNewEntries(users, me, target, a, n);
      }
    }
    BefriendKeepsSymmetric(users, me, target);
    forall a | 0 <= a < |r| ensures NoDuplicates(r[a].friends) {
      assert NoDuplicates(users[a].friends);
    }
  }

  /** The `/api/friends` listing: the caller's friend names, in stored order. */
  function FriendList(users: seq<User>, session: Option<SessionUser>): (r: Reply<seq<FriendEntry>>)
    ensures session.None? ==> r == Fail(401, "auth")
    ensures session.Some? && IndexOfId(users, session.value.id).None? ==> r == Fail(404, "user not found")
    ensures session.Some? && IndexOfId(users, session.value.id).Some? ==>
      var k := IndexOfId(users, session.value.id).value;
      r.Ok? && |r.value| == |users[k].friends|
      && forall i :: 0 <= i < |r.value| ==> r.value[i] == FriendEntry(users[k].friends[i])
  {
    if session.None? then Fail(401, "auth")
    else match IndexOfId(users, session.value.id)
      case None => Fail(404, "user not found")
      case Some(k) => Ok(seq(|users[k].friends|, i requires 0 <= i < |users[k].friends| =>
                              FriendEntry(users[k].friends[i])))
  }

  /** After the caller at `me` befriends `target`, the target shows in the caller's listing. */
  lemma BefriendListed(users: seq<User>, me: nat, target: nat, session: SessionUser)
    requires me < |users| && target < |users|
    requires IndexOfId(users, session.id) == Some(me)
    ensures FriendList(Befriend(users, me, target), Some(session)).Ok?
    ensures FriendEntry(users[target].username) in FriendList(Befriend(users, me, target), Some(session)).value
  {
  }

  /** ASCII lower-casing of one character (Unicode case mapping is not modelled). */
  function LowerChar(c: char): char
  {
    if 'A' <= c <= 'Z' then (c as int + 32) as char else c
  }

  /** `String.prototype.toLowerCase`, restricted to ASCII letters. */
  function Lower(s: string): string
  {
    seq(|s|, i requires 0 <= i < |s| => LowerChar(s[i]))
  }

  /** `hay.includes(needle)`: `needle` occurs in `hay` at some offset. */
  predicate Contains(hay: string, needle: string)
  {
    needle <= hay || (hay != [] && Contains(hay[1..], needle))
  }

  /** The search filter, for a query already lower-cased. */
  predicate Matches(u: User, q: string)
  {
    Contains(Lower(u.username), q) || Contains(Lower(u.display), q)
  }

  function AsSummary(u: User): Summary
  {
    Summary(u.id, u.username, u.display)
  }

  /** `needle` sits in `hay` starting at offset `i`. */
  ghost predicate OccursAt(hay: string, needle: string, i: int)
  {
    0 <= i && i + |needle| <= |hay| && hay[i..i + |needle|] == needle
  }

  /** `Contains` holds exactly when the needle sits at some offset of the haystack. */
  lemma {:induction false} ContainsAt(hay: string, needle: string)
    ensures Contains(hay, needle) <==> exists i :: OccursAt(hay, needle, i)
  {
    if needle <= hay {
      assert OccursAt(hay, needle, 0);
    } else if hay == [] {
    } else {
      ContainsAt(hay[1..], needle);
      if exists i :: OccursAt(hay, needle, i) {
        var i :| OccursAt(hay, needle, i);
        assert i != 0;
        assert hay[1..][i - 1..i - 1 + |needle|] == hay[i..i + |needle|];
        assert OccursAt(hay[1..], needle, i - 1);
      }
      if Contains(hay[1..], needle) {
        var i :| OccursAt(hay[1..], needle, i);
        assert hay[1..][i..i + |needle|] == hay[i + 1..i + 1 + |needle|];
        assert OccursAt(hay, needle, i + 1);
      }
    }
  }

  /** The `filter` and `map` of `/api/search` over the user list, for the filter test `hit`. */
  function Select(users: seq<User>, hit: User -> bool): seq<Summary>
  {
    if users == [] then []
    else (if hit(users[0]) then [AsSummary(users[0])] else []) + Select(users[1..], hit)
  }

  /** The search filter of a query, lower-cased first. */
  function Hit(q: string): User -> bool
  {
    (u: User) => Matches(u, Lower(q))
  }

  /**
   * `GET /api/search?q=...` (a missing query is the empty string): the
   * summaries of the users whose username or display name contains the query,
   * ignoring case, one per matching user and in stored order.
   */
  function Search(users: seq<User>, q: string): (r: seq<Summary>)
    ensures |r| <= |users|
    ensures forall s :: s in r <==>
      exists i :: 0 <= i < |users| && Matches(users[i], Lower(q)) && s == AsSummary(users[i])
    ensures exists idx ::
      (Enumerates(idx, users, Hit(q)) && |idx| == |r|
       && forall k :: 0 <= k < |r| ==> r[k] == AsSummary(users[idx[k]]))
  {
    SelectExactly(users, Hit(q));
    SelectIndices(users, Hit(q));
    Select(users, Hit(q))
  }

  /**
   * `idx` lists, in increasing order, exactly the positions of the users
   * passing `hit`: each at most once, none left out.
   */
  ghost predicate Enumerates(idx: seq<nat>, users: seq<User>, hit: User -> bool)
  {
    && (forall k :: 0 <= k < |idx| ==> idx[k] < |users| && hit(users[idx[k]]))
    && (forall j, k :: 0 <= j < k < |idx| ==> idx[j] < idx[k])
    && (forall i :: 0 <= i < |users| && hit(users[i]) ==> i in idx)
  }

  /** The positions of the users passing `hit`, in stored order. */
  ghost function MatchIndices(users: seq<User>, hit: User -> bool): seq<nat>
  {
    if users == [] then []
    else
      var n := |users| - 1;
      MatchIndices(users[..n], hit) + (if hit(users[n]) then [n] else [])
  }

  /** Every listed position holds a passing user, and the positions increase. */
  lemma {:induction false} MatchIndicesSound(users: seq<User>, hit: User -> bool)
    ensures forall k :: 0 <= k < |MatchIndices(users, hit)| ==>
      MatchIndices(users, hit)[k] < |users| && hit(users[MatchIndices(users, hit)[k]])
    ensures forall j, k :: 0 <= j < k < |MatchIndices(users, hit)| ==>
      MatchIndices(users, hit)[j] < MatchIndices(users, hit)[k]
  {
    if users != [] {
      var n := |users| - 1;
      var front := users[..n];
      MatchIndicesSound(front, hit);
      var before := MatchIndices(front, hit);
      var idx := MatchIndices(users, hit);
      forall k | 0 <= k < |idx| ensures idx[k] < |users| && hit(users[idx[k]]) {
        if k < |before| {
          assert users[idx[k]] == front[before[k]];
        }
      }
    }
  }

  /** Every passing user's position is listed. */
  lemma {:induction false} MatchIndicesComplete(users: seq<User>, hit: User -> bool)
    ensures forall i :: 0 <= i < |users| && hit(users[i]) ==> i in MatchIndices(users, hit)
  {
    if users != [] {
      var n := |users| - 1;
      var front := users[..n];
      MatchIndicesComplete(front, hit);
      forall i | 0 <= i < n && hit(users[i]) ensures i in MatchIndices(users, hit) {
        assert front[i] == users[i];
      }
    }
  }

  /** One more user extends the filtered list by that user exactly when they pass. */
  lemma {:induction false} SelectAppend(users: seq<User>, u: User, hit: User -> bool)
    ensures Select(users + [u], hit) == Select(users, hit) + (if hit(u) then [AsSummary(u)] else [])
  {
    if users == [] {
      assert [u][1..] == [];
    } else {
      SelectAppend(users[1..], u, hit);
      assert (users + [u])[1..] == users[1..] + [u];
    }
  }

  /** The k-th hit is the summary of the user at the k-th passing position. */
  lemma {:induction false} SelectAtIndices(users: seq<User>, hit: User -> bool)
    ensures |MatchIndices(users, hit)| == |Select(users, hit)|
    ensures forall k :: 0 <= k < |Select(users, hit)| ==>
      MatchIndices(users, hit)[k] < |users|
      && Select(users, hit)[k] == AsSummary(users[MatchIndices(users, hit)[k]])
  {
    if users != [] {
      var n := |users| - 1;
      var front := users[..n];
      SelectAtIndices(front, hit);
      MatchIndicesSound(front, hit);
      assert front + [users[n]] == users;
      SelectAppend(front, users[n], hit);
      var before := MatchIndices(front, hit);
      forall k | 0 <= k < |before| ensures users[before[k]] == front[before[k]] {
      }
    }
  }

  /** One hit per passing user, in stored order, and no other hits. */
  lemma SelectIndices(users: seq<User>, hit: User -> bool)
    ensures Enumerates(MatchIndices(users, hit), users, hit)
    ensures |MatchIndices(users, hit)| == |Select(users, hit)|
    ensures forall k :: 0 <= k < |Select(users, hit)| ==>
      Select(users, hit)[k] == AsSummary(users[MatchIndices(users, hit)[k]])
  {
    MatchIndicesSound(users, hit);
    MatchIndicesComplete(users, hit);
    SelectAtIndices(users, hit);
  }

  /** A newly registered user shows up last in every search they match, and nowhere else. */
  lemma SearchAfterRegister(users: seq<User>, u: User, q: string)
    ensures Search(users + [u], q) ==
      Search(users, q) + (if Matches(u, Lower(q)) then [AsSummary(u)] else [])
  {
    SelectAppend(users, u, Hit(q));
  }

  /** The filter keeps exactly the passing users' summaries, never more hits than users. */
  lemma {:induction false} SelectExactly(users: seq<User>, hit: User -> bool)
    ensures |Select(users, hit)| <= |users|
    ensures forall s :: s in Select(users, hit) <==>
      exists i :: 0 <= i < |users| && hit(users[i]) && s == AsSummary(users[i])
  {
    if users != [] {
      SelectExactly(users[1..], hit);
      forall s ensures s in Select(users, hit) <==>
        exists i :: 0 <= i < |users| && hit(users[i]) && s == AsSummary(users[i])
      {
        if s in Select(users[1..], hit) {
          var i :| 0 <= i < |users[1..]| && hit(users[1..][i]) && s == AsSummary(users[1..][i]);
          assert users[i + 1] == users[1..][i];
        }
        if exists i :: 0 <= i < |users| && hit(users[i]) && s == AsSummary(users[i]) {
          var i :| 0 <= i < |users| && hit(users[i]) && s == AsSummary(users[i]);
          if i > 0 {
            assert users[1..][i - 1] == users[i];
          }
        }
      }
    }
  }

  /** Two filter tests that agree on every user select the same list. */
  lemma {:induction false} SelectSameTest(users: seq<User>, hit: User -> bool, other: User -> bool)
    requires forall u :: hit(u) == other(u)
    ensures Select(users, hit) == Select(users, other)
  {
    if users != [] {
      SelectSameTest(users[1..], hit, other);
    }
  }

  /** The query is lower-cased first, so its case does not change the result. */
  lemma SearchIgnoresCase(users: seq<User>, q: string)
    ensures Search(users, q) == Search(users, Lower(q))
  {
    assert Lower(Lower(q)) == Lower(q);
    SelectSameTest(users, Hit(q), Hit(Lower(q)));
  }

  /** A filter every user passes keeps every user, in stored order. */
  lemma {:induction false} SelectAllPass(users: seq<User>, hit: User -> bool)
    requires forall u :: hit(u)
    ensures |Select(users, hit)| == |users|
    ensures forall i :: 0 <= i < |users| ==> Select(users, hit)[i] == AsSummary(users[i])
  {
    if users != [] {
      SelectAllPass(users[1..], hit);
      assert Select(users, hit) == [AsSummary(users[0])] + Select(users[1..], hit);
    }
  }

  /** An empty query lists every user, in stored order. */
  lemma SearchEmptyQueryListsAll(users: seq<User>)
    ensures |Search(users, "")| == |users|
    ensures forall i :: 0 <= i < |users| ==> Search(users, "")[i] == AsSummary(users[i])
  {
    forall u ensures Hit("")(u) {
      assert Lower("") == "";
      assert Contains(Lower(u.username), "");
    }
    SelectAllPass(users, Hit(""));
  }
}
