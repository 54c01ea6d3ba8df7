/**
 * The in-memory account table (`object UserStorage`): a username-keyed map of
 * users and a counter that hands out user ids.
 *
 * Passwords are compared as plain strings; the table stores no hashes.
 */
module Accounts {

  import opened Optional

  /** A registered account; `id` is assigned by the table, never by the caller. */
  datatype User = User(id: int, username: string, password: string)

  /** Value of the table: the map from username to user and the next id to hand out. */
  datatype Table = Table(users: map<string, User>, nextId: int)

  /** The table as the process starts it: no users, and the first id is 1. */
  const Initial: Table := Table(map[], 1)

  /**
   * Every key names its own user, every id lies in [1, nextId), and no two
   * users share an id.
   */
  predicate WellFormed(t: Table)
  {
    && t.nextId >= 1
    && (forall name :: name in t.users ==>
          t.users[name].username == name && 1 <= t.users[name].id < t.nextId)
    && (forall a, b :: a in t.users && b in t.users && a != b ==>
          t.users[a].id != t.users[b].id)
  }

  /**
   * One call of `register` on table `t`: the table afterwards and the result.
   * A taken username yields None and leaves everything as it was; a fresh one
   * gets the current counter value as its id and the counter moves on by one.
   */
  function RegisterStep(t: Table, username: string, password: string): (res: (Table, Option<User>))
    ensures res.1.None? <==> username in t.users
    ensures res.1.None? ==> res.0 == t
    ensures res.1.Some? ==>
              && res.1.value.id == t.nextId
              && res.1.value.username == username
              && res.1.value.password == password
              && res.0.nextId == t.nextId + 1
    ensures res.0.users.Keys == t.users.Keys + {username}
    ensures username in res.0.users && (res.1.Some? ==> res.0.users[username] == res.1.value)
    ensures forall name :: name in t.users ==> res.0.users[name] == t.users[name]
    ensures |res.0.users| == |t.users| + (if res.1.Some? then 1 else 0)
    ensures WellFormed(t) ==> WellFormed(res.0)
  {
    if username in t.users then (t, None)
    else
      var user := User(t.nextId, username, password);
      (Table(t.users[username := user], t.nextId + 1), Some(user))
  }

  /** A run of `register` calls, one per (username, password) request, in order. */
  function RegisterAll(t: Table, requests: seq<(string, string)>): Table
    decreases |requests|
  {
    if requests == [] then t
    else RegisterAll(RegisterStep(t, requests[0].0, requests[0].1).0, requests[1..])
  }

  /** No run of registrations breaks the table's invariant. */
  lemma {:induction false} RegisterAllWellFormed(t: Table, requests: seq<(string, string)>)
    requires WellFormed(t)
    ensures WellFormed(RegisterAll(t, requests))
    decreases |requests|
  {
    if requests != [] {
      RegisterAllWellFormed(RegisterStep(t, requests[0].0, requests[0].1).0, requests[1..]);
    }
  }

  /** The counter advances by exactly the number of accounts a run creates. */
  lemma {:induction false} RegisterAllCountsIds(t: Table, requests: seq<(string, string)>)
    ensures RegisterAll(t, requests).nextId - t.nextId == |RegisterAll(t, requests).users| - |t.users|
    decreases |requests|
  {
    if requests != [] {
      RegisterAllCountsIds(RegisterStep(t, requests[0].0, requests[0].1).0, requests[1..]);
    }
  }

  /** An account that exists before a run of registrations is never overwritten by it. */
  lemma {:induction false} ExistingAccountKept(t: Table, requests: seq<(string, string)>, name: string)
    requires name in t.users
    ensures name in RegisterAll(t, requests).users
    ensures RegisterAll(t, requests).users[name] == t.users[name]
    decreases |requests|
  {
    if requests != [] {
      ExistingAccountKept(RegisterStep(t, requests[0].0, requests[0].1).0, requests[1..], name);
    }
  }

  /** A username that was free ends up registered exactly when some request of the run names it. */
  lemma {:induction false} RegisteredIffRequested(t: Table, requests: seq<(string, string)>, name: string)
    requires name !in t.users
    ensures name in RegisterAll(t, requests).users <==>
              exists i :: 0 <= i < |requests| && requests[i].0 == name
    decreases |requests|
  {
    if requests != [] {
      var next := RegisterStep(t, requests[0].0, requests[0].1).0;
      if requests[0].0 == name {
        ExistingAccountKept(next, requests[1..], name);
      } else {
        RegisteredIffRequested(next, requests[1..], name);
        if exists i :: 0 <= i < |requests| && requests[i].0 == name {
          var i :| 0 <= i < |requests| && requests[i].0 == name;
          assert requests[1..][i - 1].0 == name;
        }
      }
    }
  }

  /**
   * The first registration of a username wins: its account carries the
   * password of the first request that names it, whatever later requests say.
   */
  lemma {:induction false} FirstPasswordWins(t: Table, requests: seq<(string, string)>, name: string, i: nat)
    requires name !in t.users
    requires i < |requests| && requests[i].0 == name
    requires forall j :: 0 <= j < i ==> requests[j].0 != name
    ensures name in RegisterAll(t, requests).users
    ensures RegisterAll(t, requests).users[name].password == requests[i].1
    decreases |requests|
  {
    var next := RegisterStep(t, requests[0].0, requests[0].1).0;
    if i == 0 {
      ExistingAccountKept(next, requests[1..], name);
    } else {
      assert requests[0].0 != name;
      forall j | 0 <= j < i - 1 ensures requests[1..][j].0 != name {
        assert requests[1..][j] == requests[j + 1];
      }
      FirstPasswordWins(next, requests[1..], name, i - 1);
    }
  }

  /** The largest value of a Kotlin `Int`. */
  const IntMax: int := 0x7fff_ffff

  /** Kotlin `Int` arithmetic: two's-complement wrap-around into [-2^31, 2^31). */
  function WrapInt(x: int): (r: int)
    ensures -IntMax - 1 <= r <= IntMax
    ensures -IntMax - 1 <= x <= IntMax ==> r == x
    ensures x == IntMax + 1 ==> r == -IntMax - 1
  {
    (x + 0x8000_0000) % 0x1_0000_0000 - 0x8000_0000
  }

  /**
   * `register` as the source writes it, with `nextId++` on a 32-bit `Int`.
   * It agrees with RegisterStep until the counter reaches IntMax.
   */
  function RegisterAsWritten(t: Table, username: string, password: string): (res: (Table, Option<User>))
    ensures -IntMax - 1 <= t.nextId < IntMax ==> res == RegisterStep(t, username, password)
  {
    if username in t.users then (t, None)
    else
      var user := User(t.nextId, username, password);
      (Table(t.users[username := user], WrapInt(t.nextId + 1)), Some(user))
  }

  /**
   * Once the counter reaches IntMax, the second registration after that gets
   * the negative id -2^31 and the table is no longer well formed.
   */
  lemma CounterOverflowGivesNegativeId(t: Table, first: string, second: string)
    requires WellFormed(t) && t.nextId == IntMax
    requires first != second && first !in t.users && second !in t.users
    ensures RegisterAsWritten(RegisterAsWritten(t, first, "").0, second, "").1
            == Some(User(-IntMax - 1, second, ""))
    ensures var stored := RegisterAsWritten(RegisterAsWritten(t, first, "").0, second, "").0.users;
            second in stored && stored[second].id < 1
  {
    var t1 := RegisterAsWritten(t, first, "").0;
    assert t1.nextId == -IntMax - 1;
    var t2 := RegisterAsWritten(t1, second, "").0;
    assert second in t2.users && t2.users[second].id == -IntMax - 1;
  }

  /** The account table object: `users` and `nextId` are updated in place. */
  class UserStorage {
    var users: map<string, User>
    var nextId: int

    /** The table this object currently holds. */
    function State(): Table
      reads this
    {
      Table(users, nextId)
    }

    ghost predicate Valid()
      reads this
    {
      WellFormed(State())
    }

    constructor ()
      ensures Valid() && State() == Initial
    {
      users := map[];
      nextId := 1;
    }

    /**
     * `register`: None when the username is taken (the caller answers 409
     * Conflict), otherwise the new user (the caller answers 200 OK).
     */
    method Register(username: string, password: string) returns (user: Option<User>)
      requires Valid()
      modifies this
      ensures Valid()
      ensures (State(), user) == RegisterStep(old(State()), username, password)
      ensures user.Some? ==> Login(username, password) == user
    {
      ghost var expected := RegisterStep(State(), username, password);
      if username in users {
        return None;
      }
      var created := User(nextId, username, password);
      nextId := nextId + 1;
      users := users[username := created];
      assert State() == expected.0;
      return Some(created);
    }

    /**
     * `login`: the stored user exactly when the username is known and the
     * password matches; an unknown username and a wrong password give the
     * same None (the caller answers 401 Unauthorized).
     */
    function Login(username: string, password: string): (user: Option<User>)
      reads this
      ensures user.Some? <==> username in users && users[username].password == password
      ensures user.Some? ==> user.value == users[username] && user.value.password == password
    {
      if username in users && users[username].password == password then Some(users[username])
      else None
    }
  }

  /**
   * The account scenario: "alice" cannot be registered twice and keeps her
   * first password; "bob" logs in with his password only, and an unknown name
   * fails exactly like a wrong password.
   */
  method AccountScenario() returns (again: Option<User>, alice: Option<User>, bob: Option<User>,
                                    wrong: Option<User>, nobody: Option<User>)
    ensures again == None
    ensures alice == Some(User(1, "alice", "p1"))
    ensures bob == Some(User(2, "bob", "secret"))
    ensures wrong == None && nobody == None
  {
    var storage := new UserStorage();
    var first := storage.Register("alice", "p1");
    again := storage.Register("alice", "p2");
    var created := storage.Register("bob", "secret");
    alice := storage.Login("alice", "p1");
    bob := storage.Login("bob", "secret");
    wrong := storage.Login("bob", "wrong");
    nobody := storage.Login("nobody", "x");
  }
}
